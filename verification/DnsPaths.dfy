/** Which bytes of a DNS message make a name: the way of a reader from label to label and from pointer to label. */
module DnsPaths {
  import opened Bytes
  import opened DnsNames

  /** From the length byte at `p` the reader goes to `q`: behind the label, or where the pointer leads. */
  ghost predicate Next(m: seq<Byte>, p: nat, q: nat) {
    && p < |m|
    && if m[p] >= 64 then p + 1 < |m| && q == (m[p] as int % 64) * 256 + m[p + 1] as int
       else m[p] > 0 && q == p + 1 + m[p] as int
  }

  /** A way through the message that ends at an empty label. */
  ghost predicate Path(m: seq<Byte>, ps: seq<nat>) {
    && ps != [] && ps[0] < |m|
    && if |ps| == 1 then m[ps[0]] == 0 else Next(m, ps[0], ps[1]) && Path(m, ps[1..])
  }

  /** How many pointers are followed. */
  ghost function Jumps(m: seq<Byte>, ps: seq<nat>): nat
    requires Path(m, ps)
  {
    if |ps| == 1 then 0 else (if m[ps[0]] >= 64 then 1 else 0) + Jumps(m, ps[1..])
  }

  /** The labels on the way, with dots between them. */
  ghost function Spelled(m: seq<Byte>, ps: seq<nat>): seq<Byte>
    requires Path(m, ps)
  {
    if |ps| == 1 then []
    else if m[ps[0]] >= 64 then Spelled(m, ps[1..])
    else
      assert Path(m, ps[1..]) && ps[1] == ps[1..][0];
      Joined(m[ps[0] + 1..ps[1]], Spelled(m, ps[1..]))
  }

  /** Where the message goes on: behind the first pointer, or behind the empty label. */
  ghost function EndOf(m: seq<Byte>, ps: seq<nat>): nat
    requires Path(m, ps)
  {
    if |ps| == 1 then ps[0] + 1 else if m[ps[0]] >= 64 then ps[0] + 2 else EndOf(m, ps[1..])
  }

  lemma {:induction false} PathEnd(m: seq<Byte>, ps: seq<nat>)
    requires Path(m, ps)
    ensures EndOf(m, ps) <= |m|
  {
    if |ps| > 1 { PathEnd(m, ps[1..]); }
  }

  /** The way that a reader took that did not fail. */
  lemma {:induction false} PathTaken(m: seq<Byte>, j: nat, out: seq<Byte>, jumps: nat, end: Option<nat>, cap: nat)
    returns (ps: seq<nat>)
    requires jumps <= |m| && (end.Some? ==> end.value <= |m|) && Walk(m, j, out, jumps, end, cap).Some?
    ensures Path(m, ps) && ps[0] == j && jumps + Jumps(m, ps) <= |m|
    ensures var name := Joined(out, Spelled(m, ps));
      |name| < cap && Walk(m, j, out, jumps, end, cap) == Some((name, EndOr(end, EndOf(m, ps))))
    decreases |m| - jumps, |m| - j
  {
    hide Walk, Joined, PointerTarget;
    WalkStep(m, j, out, jumps, end, cap);
    if m[j] == 0 {
      ps := [j];
      JoinedNone(out);
    } else if m[j] >= 64 {
      TargetIs(m[j], m[j + 1]);
      var t := PointerTarget(m[j], m[j + 1]);
      var rest := PathTaken(m, t, out, jumps + 1, if end.Some? then end else Some(j + 2), cap);
      ps := [j] + rest;
      assert ps[1..] == rest;
    } else {
      var part := m[j + 1..j + 1 + m[j]];
      JoinedLabel(out, part);
      var rest := PathTaken(m, j + 1 + m[j], Joined(out, part), jumps, end, cap);
      ps := [j] + rest;
      assert ps[1..] == rest;
      JoinedTwice(out, part, Spelled(m, rest));
    }
  }

  lemma TargetIs(hi: Byte, lo: Byte)
    ensures PointerTarget(hi, lo) == (hi as int % 64) * 256 + lo as int
  {
  }

  lemma JoinedLabel(out: seq<Byte>, part: seq<Byte>)
    requires part != []
    ensures Joined(out, part) == (if out == [] then [] else out + [DOT]) + part
  {
  }

  /** A reader takes every way that is not too long. */
  lemma {:induction false} PathRead(m: seq<Byte>, ps: seq<nat>, out: seq<Byte>, jumps: nat, end: Option<nat>, cap: nat)
    requires Path(m, ps) && jumps + Jumps(m, ps) <= |m| && (end.Some? ==> end.value <= |m|)
    requires |Joined(out, Spelled(m, ps))| < cap
    ensures Walk(m, ps[0], out, jumps, end, cap) == Some((Joined(out, Spelled(m, ps)), EndOr(end, EndOf(m, ps))))
    decreases |ps|
  {
    hide Walk, Joined, PointerTarget;
    var j := ps[0];
    WalkStep(m, j, out, jumps, end, cap);
    if |ps| == 1 {
      JoinedNone(out);
    } else if m[j] >= 64 {
      TargetIs(m[j], m[j + 1]);
      PathRead(m, ps[1..], out, jumps + 1, if end.Some? then end else Some(j + 2), cap);
    } else {
      var part := m[j + 1..ps[1]];
      JoinedLabel(out, part);
      JoinedTwice(out, part, Spelled(m, ps[1..]));
      PathRead(m, ps[1..], Joined(out, part), jumps, end, cap);
    }
  }

  /** The way leads from `pos` to `end`, with no more pointers than bytes, and has the labels of `name`, which fit. */
  ghost predicate Leads(m: seq<Byte>, ps: seq<nat>, pos: nat, name: seq<Byte>, end: nat, cap: nat) {
    && Path(m, ps) && ps[0] == pos && Jumps(m, ps) <= |m|
    && Spelled(m, ps) == name && |name| < cap && EndOf(m, ps) == end
  }

  /** What name_parse makes of any bytes: it succeeds exactly when there is such a way, with its labels and its end. */
  lemma NameReadIff(m: seq<Byte>, pos: nat, name: seq<Byte>, end: nat, cap: nat)
    ensures Walk(m, pos, [], 0, None, cap) == Some((name, end)) <==> exists ps :: Leads(m, ps, pos, name, end, cap)
  {
    hide Walk, Path, Jumps, Spelled, EndOf;
    if Walk(m, pos, [], 0, None, cap) == Some((name, end)) {
      var ps := PathTaken(m, pos, [], 0, None, cap);
      JoinedNothing(Spelled(m, ps));
      assert Leads(m, ps, pos, name, end, cap);
    }
    if ps :| Leads(m, ps, pos, name, end, cap) {
      PathThere(m, ps);
      JoinedNothing(name);
      PathRead(m, ps, [], 0, None, cap);
    }
  }

  lemma PathThere(m: seq<Byte>, ps: seq<nat>)
    requires Path(m, ps)
    ensures ps != []
  {
  }
}
