/** The state of the arc4random generator, and the reduction of its numbers to a range (arc4random.c). */
module Arc4 {
  import opened Bytes

  const UINT32_RANGE: int := 0x1_0000_0000
  const BYTES_BEFORE_RESEED: int := 1600000

  /** struct arc4_stream as a value. */
  datatype State = State(i: Byte, j: Byte, s: seq<Byte>)

  ghost predicate Permutation(s: seq<Byte>) {
    |s| == 256 && forall k, l :: 0 <= k < l < 256 ==> s[k] != s[l]
  }

  function Sum(a: int, b: int): Byte {
    (a + b) % 256
  }

  function Swapped(s: seq<Byte>, i: Byte, j: Byte): (r: seq<Byte>)
    requires |s| == 256
    ensures |r| == 256
  {
    s[i as int := s[j as int]][j as int := s[i as int]]
  }

  lemma SwapKeeps(s: seq<Byte>, i: Byte, j: Byte)
    requires Permutation(s)
    ensures Permutation(Swapped(s, i, j))
  {
  }

  lemma SwapTwice(s: seq<Byte>, i: Byte, j: Byte)
    requires |s| == 256
    ensures Swapped(Swapped(s, i, j), i, j) == s && Swapped(s, i, j)[j as int] == s[i as int]
  {
  }

  /** What arc4_getbyte does to the state. */
  function Step(st: State): (r: State)
    requires |st.s| == 256
    ensures |r.s| == 256
  {
    var i := Sum(st.i as int, 1);
    var j := Sum(st.j as int, st.s[i as int] as int);
    State(i, j, Swapped(st.s, i, j))
  }

  /** The state before. */
  function Unstep(st: State): (r: State)
    requires |st.s| == 256
    ensures |r.s| == 256
  {
    var s := Swapped(st.s, st.i, st.j);
    State(Sum(st.i as int, -1), Sum(st.j as int, -(s[st.i as int] as int)), s)
  }

  lemma SumBack(a: Byte, b: int)
    ensures Sum(Sum(a as int, b) as int, -b) == a && Sum(Sum(a as int, -b) as int, b) == a
  {
    BackOnce(a, b);
    BackOnce(a, -b);
  }

  lemma BackOnce(a: Byte, b: int)
    ensures Sum(Sum(a as int, b) as int, -b) == a
  {
    var q := (a as int + b) / 256;
    DivOnce(Sum(a as int, b) as int - b, 256, -q, a as int);
  }

  /** A step can be taken back, and each state comes from another one: no two states lead to the same. */
  lemma StepInvertible(st: State)
    requires |st.s| == 256
    ensures Unstep(Step(st)) == st && Step(Unstep(st)) == st
  {
    hide Sum, Swapped;
    var i := Sum(st.i as int, 1);
    var v := st.s[i as int] as int;
    SumBack(st.i, 1);
    SumBack(st.j, v);
    var j := Sum(st.j as int, v);
    SwapTwice(st.s, i, j);
    var s := Swapped(st.s, st.i, st.j);
    SumBack(st.j, s[st.i as int] as int);
    SwapTwice(st.s, st.i, st.j);
  }

  function Steps(st: State, n: nat): (r: State)
    requires |st.s| == 256
    ensures |r.s| == 256
  {
    if n == 0 then st else Step(Steps(st, n - 1))
  }

  /** However many bytes are drawn, the array stays a permutation. */
  lemma {:induction false} StepsKeep(st: State, n: nat)
    requires Permutation(st.s)
    ensures Permutation(Steps(st, n).s)
  {
    if n > 0 {
      StepsKeep(st, n - 1);
      var was := Steps(st, n - 1);
      SwapKeeps(was.s, Step(was).i, Step(was).j);
    }
  }

  /** Different states never become one. */
  lemma {:induction false} StepsInjective(a: State, b: State, n: nat)
    requires |a.s| == 256 && |b.s| == 256 && Steps(a, n) == Steps(b, n)
    ensures a == b
  {
    if n > 0 {
      StepInvertible(Steps(a, n - 1));
      StepInvertible(Steps(b, n - 1));
      StepsInjective(a, b, n - 1);
    }
  }

  /** The byte that belongs to a state that was just reached. */
  function Output(st: State): Byte
    requires |st.s| == 256
  {
    st.s[Sum(st.s[st.i as int] as int, st.s[st.j as int] as int) as int]
  }

  /** One turn of the loop of arc4_addrandom with the byte `d` of the seed. */
  function Mix(st: State, d: Byte): (r: State)
    requires |st.s| == 256
    ensures |r.s| == 256
  {
    var i := Sum(st.i as int, 1);
    var j := Sum(st.j as int, st.s[i as int] as int + d as int);
    State(i, j, Swapped(st.s, i, j))
  }

  /** The state before a turn with the byte `d`. */
  function Unmix(st: State, d: Byte): (r: State)
    requires |st.s| == 256
    ensures |r.s| == 256
  {
    var s := Swapped(st.s, st.i, st.j);
    State(Sum(st.i as int, -1), Sum(st.j as int, -(s[st.i as int] as int + d as int)), s)
  }

  /** A turn with a given byte can be taken back. */
  lemma MixInvertible(st: State, d: Byte)
    requires |st.s| == 256
    ensures Unmix(Mix(st, d), d) == st && Mix(Unmix(st, d), d) == st
  {
    hide Sum, Swapped;
    var i := Sum(st.i as int, 1);
    var v := st.s[i as int] as int + d as int;
    SumBack(st.i, 1);
    SumBack(st.j, v);
    SwapTwice(st.s, i, Sum(st.j as int, v));
    var s := Swapped(st.s, st.i, st.j);
    SumBack(st.j, s[st.i as int] as int + d as int);
    SwapTwice(st.s, st.i, st.j);
  }

  /** A turn tells the bytes of the seed apart, in its index and in the array. */
  lemma MixTellsApart(st: State, d: Byte, e: Byte)
    requires |st.s| == 256 && d != e
    ensures Mix(st, d).j != Mix(st, e).j
    ensures Permutation(st.s) ==> Mix(st, d).s != Mix(st, e).s
  {
    var i := Sum(st.i as int, 1);
    var x := st.j as int + st.s[i as int] as int;
    if Mix(st, d).j == Mix(st, e).j {
      SameRemainder(x + d as int, x + e as int, 256);
    }
    assert Mix(st, d).s[i as int] == st.s[Mix(st, d).j as int];
    assert Mix(st, e).s[i as int] == st.s[Mix(st, e).j as int];
  }

  function Mixed(st: State, dat: seq<Byte>, n: nat): (r: State)
    requires |st.s| == 256 && dat != []
    ensures |r.s| == 256
  {
    if n == 0 then State(Sum(st.i as int, -1), st.j, st.s)
    else Mix(Mixed(st, dat, n - 1), dat[(n - 1) % |dat|])
  }

  /** arc4_addrandom. */
  function Seeded(st: State, dat: seq<Byte>): (r: State)
    requires |st.s| == 256 && dat != []
    ensures |r.s| == 256
  {
    var r := Mixed(st, dat, 256);
    r.(j := r.i)
  }

  lemma SumSum(a: int, b: int, c: int)
    ensures Sum(Sum(a, b) as int, c) == Sum(a, b + c)
  {
  }

  lemma {:induction false} MixedFacts(st: State, dat: seq<Byte>, n: nat)
    requires |st.s| == 256 && dat != []
    ensures Mixed(st, dat, n).i == Sum(st.i as int, n - 1)
    ensures Permutation(st.s) ==> Permutation(Mixed(st, dat, n).s)
  {
    hide Sum, Swapped;
    if n > 0 {
      MixedFacts(st, dat, n - 1);
      SumSum(st.i as int, n - 2, 1);
      var was, r := Mixed(st, dat, n - 1), Mixed(st, dat, n);
      if Permutation(st.s) { SwapKeeps(was.s, r.i, r.j); }
    }
  }

  /** A seed of more than 256 bytes is the same as its first 256 bytes. */
  lemma OnlyFirst256(st: State, dat: seq<Byte>)
    requires |st.s| == 256 && |dat| >= 256
    ensures Seeded(st, dat) == Seeded(st, dat[..256])
  {
    SamePrefix(st, dat, dat[..256], 256);
  }

  lemma {:induction false} SamePrefix(st: State, a: seq<Byte>, b: seq<Byte>, n: nat)
    requires |st.s| == 256 && n <= 256 <= |a| && 256 <= |b| && a[..256] == b[..256]
    ensures Mixed(st, a, n) == Mixed(st, b, n)
  {
    hide Mix;
    if n > 0 {
      SamePrefix(st, a, b, n - 1);
      SmallRemainder(n - 1, |a|);
      SmallRemainder(n - 1, |b|);
      assert a[n - 1] == a[..256][n - 1] && b[n - 1] == b[..256][n - 1];
    }
  }

  /** Seeds that differ first in the byte for turn `n` lead to different states after that turn. */
  lemma SeedsDiffer(st: State, a: seq<Byte>, b: seq<Byte>, n: nat)
    requires |st.s| == 256 && a != [] && b != [] && a[n % |a|] != b[n % |b|]
    requires forall k :: 0 <= k < n ==> a[k % |a|] == b[k % |b|]
    ensures Mixed(st, a, n + 1) != Mixed(st, b, n + 1)
    ensures Permutation(st.s) ==> Mixed(st, a, n + 1).s != Mixed(st, b, n + 1).s
  {
    hide Mix;
    SameBytes(st, a, b, n);
    MixedFacts(st, a, n);
    MixTellsApart(Mixed(st, a, n), a[n % |a|], b[n % |b|]);
  }

  lemma {:induction false} SameBytes(st: State, a: seq<Byte>, b: seq<Byte>, n: nat)
    requires |st.s| == 256 && a != [] && b != []
    requires forall k :: 0 <= k < n ==> a[k % |a|] == b[k % |b|]
    ensures Mixed(st, a, n) == Mixed(st, b, n)
  {
    hide Mix;
    if n > 0 { SameBytes(st, a, b, n - 1); }
  }

  /** Seeds of 256 bytes that differ in the last one only never lead to the same stream. */
  lemma LastByteCounts(st: State, a: seq<Byte>, b: seq<Byte>, n: nat)
    requires Permutation(st.s) && |a| == |b| == 256 && a[..255] == b[..255] && a[255] != b[255]
    ensures Steps(Seeded(st, a), n) != Steps(Seeded(st, b), n)
  {
    hide Mix, Mixed, Steps;
    forall k | 0 <= k < 255 ensures a[k % |a|] == b[k % |b|] {
      assert a[k] == a[..255][k] && b[k] == b[..255][k];
    }
    SeedsDiffer(st, a, b, 255);
    if Steps(Seeded(st, a), n) == Steps(Seeded(st, b), n) {
      StepsInjective(Seeded(st, a), Seeded(st, b), n);
    }
  }

  lemma SmallRemainder(k: nat, m: nat)
    requires k < m
    ensures k % m == k
  {
  }

  /** What arc4random_addrandom mixes in: 256 bytes at a time. */
  function SeededAll(st: State, dat: seq<Byte>): (r: State)
    requires |st.s| == 256
    ensures |r.s| == 256
    decreases |dat|
  {
    if dat == [] then st else SeededAll(Seeded(st, dat), if |dat| <= 256 then [] else dat[256..])
  }

  /** Seeds that follow each other are mixed in one after the other. */
  lemma {:induction false} SeededInParts(st: State, a: seq<Byte>, b: seq<Byte>)
    requires |st.s| == 256 && |a| % 256 == 0
    ensures SeededAll(st, a + b) == SeededAll(SeededAll(st, a), b)
    ensures 0 < |b| <= 256 ==> SeededAll(st, b) == Seeded(st, b)
    decreases |a|
  {
    hide Seeded;
    if a == [] {
      assert a + b == b;
    } else {
      OnlyFirst256(st, a + b);
      OnlyFirst256(st, a);
      assert (a + b)[..256] == a[..256] && (a + b)[256..] == a[256..] + b;
      assert |a| <= 256 ==> a[256..] == [];
      SeededInParts(Seeded(st, a), a[256..], b);
    }
  }

  class Stream {
    var i: Byte
    var j: Byte
    const s: array<Byte>
    var count: int

    ghost predicate Valid()
      reads this, s
    {
      s.Length == 256 && Permutation(s[..])
    }

    ghost function Now(): (st: State)
      requires s.Length == 256
      reads this, s
      ensures |st.s| == 256
    {
      State(i, j, s[..])
    }

    /** arc4_init. */
    constructor ()
      ensures Valid() && i == 0 && j == 0 && (forall k :: 0 <= k < 256 ==> s[k] as int == k) && fresh(s)
    {
      s := new Byte[256];
      i, j, count := 0, 0, 0;
      new;
      var n := 0;
      while n < 256
        invariant 0 <= n <= 256 && i == 0 && j == 0 && forall k :: 0 <= k < n ==> s[k] as int == k
      {
        s[n] := n;
        n := n + 1;
      }
    }

    /** arc4_getbyte. */
    method GetByte() returns (b: Byte)
      requires Valid()
      modifies `i, `j, s
      ensures Valid() && Now() == Step(old(Now())) && b == Output(Now())
      ensures i as int == (old(i) as int + 1) % 256
      ensures j as int == (old(j) as int + old(s[..])[i as int] as int) % 256
      ensures s[i as int] == old(s[..])[j as int] && s[j as int] == old(s[..])[i as int]
      ensures forall k :: 0 <= k < 256 && k != i as int && k != j as int ==> s[k] == old(s[k])
      ensures b == s[(s[i as int] as int + s[j as int] as int) % 256]
    {
      ghost var was := s[..];
      i := Sum(i as int, 1);
      var si := s[i as int];
      j := Sum(j as int, si as int);
      var sj := s[j as int];
      s[i as int] := sj;
      s[j as int] := si;
      assert s[..] == Swapped(was, i, j);
      SwapKeeps(was, i, j);
      b := s[Sum(si as int, sj as int) as int];
    }

    /** arc4_getword. */
    method GetWord() returns (w: nat)
      requires Valid()
      modifies `i, `j, s
      ensures Valid() && Now() == Steps(old(Now()), 4) && w == Word(old(Now())) < UINT32_RANGE
      ensures w / 0x1000000 == Output(Steps(old(Now()), 1)) as int && w % 0x100 == Output(Now()) as int
      ensures w / 0x10000 % 0x100 == Output(Steps(old(Now()), 2)) as int
      ensures w / 0x100 % 0x100 == Output(Steps(old(Now()), 3)) as int
    {
      hide Step, Steps, Output;
      ghost var st := Now();
      FourSteps(st);
      var a := GetByte();
      var b := GetByte();
      var c := GetByte();
      var d := GetByte();
      w := a as int * 0x1000000 + b as int * 0x10000 + c as int * 0x100 + d as int;
      FourBytes(a, b, c, d);
    }

    /** One turn of the loop of arc4_addrandom. */
    method MixIn(d: Byte)
      requires s.Length == 256
      modifies `i, `j, s
      ensures Now() == Mix(old(Now()), d)
      ensures i as int == (old(i) as int + 1) % 256
      ensures j as int == (old(j) as int + old(s[..])[i as int] as int + d as int) % 256
      ensures s[i as int] == old(s[..])[j as int] && s[j as int] == old(s[..])[i as int]
      ensures forall k :: 0 <= k < 256 && k != i as int && k != j as int ==> s[k] == old(s[k])
    {
      ghost var was := s[..];
      i := Sum(i as int, 1);
      var si := s[i as int];
      j := Sum(j as int, si as int + d as int);
      s[i as int] := s[j as int];
      s[j as int] := si;
      assert s[..] == Swapped(was, i, j);
    }

    /** arc4_addrandom. */
    method AddRandom(dat: seq<Byte>)
      requires Valid() && dat != []
      modifies `i, `j, s
      ensures Valid() && Now() == Seeded(old(Now()), dat)
      ensures i as int == (old(i) as int + 255) % 256 && j == i
    {
      hide Mix;
      ghost var st := Now();
      i := Sum(i as int, -1);
      var n := 0;
      while n < 256
        invariant 0 <= n <= 256 && Now() == Mixed(st, dat, n)
      {
        MixIn(dat[n % |dat|]);
        n := n + 1;
      }
      MixedFacts(st, dat, 256);
      j := i;
    }

    /** arc4random_addrandom for a stream that is in use. */
    method AddAll(dat: seq<Byte>)
      requires Valid()
      modifies `i, `j, s
      ensures Valid() && Now() == SeededAll(old(Now()), dat)
    {
      var k := 0;
      while k < |dat|
        invariant 0 <= k && Valid()
        invariant SeededAll(old(Now()), dat) == SeededAll(Now(), if k <= |dat| then dat[k..] else [])
        decreases |dat| - k
      {
        assert |dat[k..]| > 256 ==> dat[k..][256..] == dat[k + 256..];
        AddRandom(dat[k..]);
        k := k + 256;
      }
    }

    /** arc4_stir: seeds, and throws away the first bytes of the stream. */
    method Stir(entropy: seq<Byte>)
      requires Valid() && entropy != []
      modifies `i, `j, `count, s
      ensures Valid() && Now() == Steps(Seeded(old(Now()), entropy), 12 * 256) && count == BYTES_BEFORE_RESEED
    {
      hide Step, Seeded, Permutation, Output;
      AddRandom(entropy);
      ghost var st := Now();
      var n := 0;
      while n < 12 * 256
        invariant 0 <= n <= 12 * 256 && Valid() && Now() == Steps(st, n)
      {
        var _ := GetByte();
        n := n + 1;
      }
      count := BYTES_BEFORE_RESEED;
    }

    ghost function With(seeds: seq<seq<Byte>>): Generator
      requires s.Length == 256
      reads this, s
    {
      Generator(Now(), count, seeds)
    }

    /** arc4_stir_if_needed in the process that made the stream; `seeds` is the entropy that the platform will give. */
    method StirIfNeeded(seeds: seq<seq<Byte>>) returns (rest: seq<seq<Byte>>)
      requires Valid() && seeds != [] && [] !in seeds
      modifies `i, `j, `count, s
      ensures Valid() && With(rest) == Stirred(old(With(seeds))) && [] !in rest && |rest| >= |seeds| - 1
    {
      rest := seeds;
      if count <= 0 {
        Stir(seeds[0]);
        rest := seeds[1..];
      }
    }

    /** arc4random. */
    method Next(seeds: seq<seq<Byte>>) returns (w: nat, rest: seq<seq<Byte>>)
      requires Valid() && seeds != [] && [] !in seeds
      modifies `i, `j, `count, s
      ensures var g := Stirred(old(With(seeds)).(count := old(count) - 4));
        Valid() && With(rest) == g.(st := Steps(g.st, 4)) && w == Word(g.st)
    {
      count := count - 4;
      rest := StirIfNeeded(seeds);
      w := GetWord();
    }

    /** arc4random_buf: the bytes of the stream, last one first. */
    method Fill(buf: array<Byte>, seeds: seq<seq<Byte>>) returns (rest: seq<seq<Byte>>)
      requires Valid() && buf != s && |seeds| > buf.Length && [] !in seeds
      modifies `i, `j, `count, s, buf
      ensures Valid() && With(rest) == Draws(Stirred(old(With(seeds))), buf.Length)
      ensures forall k :: 0 <= k < buf.Length ==> buf[k] == Output(Draws(Stirred(old(With(seeds))), buf.Length - k).st)
    {
      hide Step, Steps, Seeded, Output;
      rest := StirIfNeeded(seeds);
      ghost var g := With(rest);
      var n := buf.Length;
      while n > 0
        invariant
          && 0 <= n <= buf.Length
          && Valid()
          && |rest| >= n
          && [] !in rest
          && With(rest) == Draws(g, buf.Length - n)
        invariant forall k :: n <= k < buf.Length ==> buf[k] == Output(Draws(g, buf.Length - k).st)
      {
        n := n - 1;
        rest := Draw1(rest, buf, n);
      }
    }

    /** One turn of the loop of arc4random_buf. */
    method Draw1(seeds: seq<seq<Byte>>, buf: array<Byte>, n: nat) returns (rest: seq<seq<Byte>>)
      requires Valid() && buf != s && n < buf.Length && seeds != [] && [] !in seeds
      modifies `i, `j, `count, s, buf
      ensures Valid() && With(rest) == Draw(old(With(seeds))) && [] !in rest && |rest| >= |seeds| - 1
      ensures buf[n] == Output(Now()) && forall k :: 0 <= k < buf.Length && k != n ==> buf[k] == old(buf[k])
    {
      hide Step, Steps, Seeded, Output, Permutation;
      rest := seeds;
      count := count - 1;
      if count <= 0 {
        Stir(seeds[0]);
        rest := seeds[1..];
      }
      var b := GetByte();
      buf[n] := b;
    }
  }

  /** A stream, the bytes until it needs a new seed, and the entropy that is to come. */
  datatype Generator = Generator(st: State, count: int, seeds: seq<seq<Byte>>)

  function Stirred(g: Generator): (r: Generator)
    requires |g.st.s| == 256 && g.seeds != [] && [] !in g.seeds
    ensures |r.st.s| == 256
  {
    if g.count <= 0 then Generator(Steps(Seeded(g.st, g.seeds[0]), 12 * 256), BYTES_BEFORE_RESEED, g.seeds[1..]) else g
  }

  /** One byte is drawn. */
  function Draw(g: Generator): (r: Generator)
    requires |g.st.s| == 256 && g.seeds != [] && [] !in g.seeds
    ensures |r.st.s| == 256
  {
    var h := Stirred(g.(count := g.count - 1));
    h.(st := Step(h.st))
  }

  function Draws(g: Generator, n: nat): (r: Generator)
    requires |g.st.s| == 256 && |g.seeds| >= n && [] !in g.seeds
    ensures |r.st.s| == 256 && |r.seeds| >= |g.seeds| - n && [] !in r.seeds
  {
    if n == 0 then g else Draw(Draws(g, n - 1))
  }

  /** Until the count runs out the bytes follow each other in the stream, and no seed is taken. */
  lemma {:induction false} DrawsInStream(g: Generator, n: nat)
    requires |g.st.s| == 256 && |g.seeds| >= n && [] !in g.seeds && n < g.count
    ensures Draws(g, n) == Generator(Steps(g.st, n), g.count - n, g.seeds)
  {
    hide Step, Seeded;
    if n > 0 { DrawsInStream(g, n - 1); }
  }

  /** How many seeds the first `n` bytes take: the first one when `count` runs out, then one every 1600000 bytes. */
  function Taken(count: int, n: nat): nat
  {
    if n < count then 0 else (n - count) / BYTES_BEFORE_RESEED + 1
  }

  /** The seeds are taken at these bytes and in order. */
  lemma {:induction false} SeedsTaken(g: Generator, n: nat)
    requires |g.st.s| == 256 && |g.seeds| >= n && [] !in g.seeds && 0 < g.count <= BYTES_BEFORE_RESEED
    ensures var taken := Taken(g.count, n);
      && taken <= |g.seeds| && Draws(g, n).seeds == g.seeds[taken..]
      && Draws(g, n).count == g.count - n + taken * BYTES_BEFORE_RESEED > 0
  {
    hide Step, Steps, Seeded, Taken, Draw;
    TakenNone(g.count);
    if n > 0 {
      SeedsTaken(g, n - 1);
      TakenStep(g.count, n);
      DrawStep(Draws(g, n - 1));
    }
  }

  lemma DrawStep(g: Generator)
    requires |g.st.s| == 256 && g.seeds != [] && [] !in g.seeds
    ensures Draw(g).count == if g.count <= 1 then BYTES_BEFORE_RESEED else g.count - 1
    ensures Draw(g).seeds == if g.count <= 1 then g.seeds[1..] else g.seeds
  {
    hide Step, Steps, Seeded;
  }

  lemma TakenNone(count: int)
    ensures 0 < count ==> Taken(count, 0) == 0
  {
  }

  lemma TakenStep(count: int, n: nat)
    requires 0 < count && 0 < n
    ensures Taken(count, n) ==
      Taken(count, n - 1) + if count - (n - 1) + Taken(count, n - 1) * BYTES_BEFORE_RESEED == 1 then 1 else 0
  {
  }

  /** The four bytes that follow, the first one as the highest. */
  function Word(st: State): nat
    requires |st.s| == 256
  {
    Output(Steps(st, 1)) as int * 0x1000000 + Output(Steps(st, 2)) as int * 0x10000
    + Output(Steps(st, 3)) as int * 0x100 + Output(Steps(st, 4)) as int
  }

  lemma FourBytes(a: Byte, b: Byte, c: Byte, d: Byte)
    ensures var w := a as int * 0x1000000 + b as int * 0x10000 + c as int * 0x100 + d as int;
      && w / 0x1000000 == a as int && w / 0x10000 % 0x100 == b as int
      && w / 0x100 % 0x100 == c as int && w % 0x100 == d as int
  {
    var w := a as int * 0x1000000 + b as int * 0x10000 + c as int * 0x100 + d as int;
    var two := a as int * 0x100 + b as int;
    var three := two * 0x100 + c as int;
    DivOnce(w, 0x1000000, a as int, b as int * 0x10000 + c as int * 0x100 + d as int);
    DivOnce(w, 0x10000, two, c as int * 0x100 + d as int);
    DivOnce(w, 0x100, three, d as int);
    DivOnce(two, 0x100, a as int, b as int);
    DivOnce(three, 0x100, two, c as int);
  }

  lemma FourSteps(st: State)
    requires |st.s| == 256
    ensures Steps(st, 1) == Step(st) && Steps(st, 2) == Step(Steps(st, 1))
    ensures Steps(st, 3) == Step(Steps(st, 2)) && Steps(st, 4) == Step(Steps(st, 3))
  {
    assert Steps(st, 0) == st;
  }

  /** What is left of an integer in 32 bits. */
  function Low32(x: int): (r: nat)
    ensures 0 <= x < UINT32_RANGE ==> r == x
    ensures x == UINT32_RANGE ==> r == 0
  {
    x % UINT32_RANGE
  }

  /** The numbers below this are not used by arc4random_uniform; in 32-bit arithmetic. */
  function Cutoff(bound: nat): nat
    requires 2 <= bound < UINT32_RANGE
  {
    if bound > 0x8000_0000 then 1 + (0xffff_ffff - bound)
    else Low32(0xffff_ffff - Low32(bound * 2) + 1) % bound
  }

  lemma CutoffIs(bound: nat)
    requires 2 <= bound < UINT32_RANGE
    ensures Cutoff(bound) == UINT32_RANGE % bound
  {
    hide Low32;
    if bound > 0x8000_0000 {
      DivOnce(UINT32_RANGE, bound, 1, UINT32_RANGE - bound);
    } else if bound < 0x8000_0000 {
      TwiceLess(UINT32_RANGE, bound);
    } else {
      assert Low32(bound * 2) == 0 && Low32(UINT32_RANGE) == 0;
    }
  }

  lemma TwiceLess(x: int, m: int)
    requires m > 0
    ensures x % m == (x - 2 * m) % m
  {
    var y := x - 2 * m;
    assert x == (y / m + 2) * m + y % m;
    DivOnce(x, m, y / m + 2, y % m);
  }

  /** The numbers from `lo` on and below `hi` that have the remainder `x`. */
  ghost function Having(lo: int, hi: int, m: nat, x: nat): set<int>
    requires m > 0
  {
    set r: int | lo <= r < hi && r % m == x
  }

  /** Among `m` numbers in a row exactly one has the remainder `x`. */
  lemma OneInARow(a: nat, m: nat, x: nat)
    requires x < m
    ensures exists r :: Having(a, a + m, m, x) == {r}
  {
    var r := NextHaving(a, m, x);
    forall t {:trigger t in Having(a, a + m, m, x)} | t in Having(a, a + m, m, x) ensures t == r {
      SameRemainder(t, r, m);
    }
    assert Having(a, a + m, m, x) == {r};
  }

  lemma NextHaving(a: nat, m: nat, x: nat) returns (r: int)
    requires x < m
    ensures a <= r < a + m && r % m == x
  {
    var q := a / m;
    assert a == q * m + a % m && (q + 1) * m == q * m + m;
    if a % m <= x {
      r := q * m + x;
      DivOnce(r, m, q, x);
    } else {
      r := (q + 1) * m + x;
      DivOnce(r, m, q + 1, x);
    }
  }

  lemma SameRemainder(t: int, r: int, m: int)
    requires m > 0 && t % m == r % m && -m < t - r < m
    ensures t == r
  {
    var d: int := t / m - r / m;
    assert t == (t / m) * m + t % m && r == (r / m) * m + r % m;
    assert t - r == d * m;
    Apart(d, m);
  }

  lemma Apart(d: int, m: nat)
    ensures d > 0 ==> d * m >= m
    ensures d < 0 ==> -(d * m) >= m
    ensures d == 0 ==> d * m == 0
  {
  }

  lemma HavingNone(lo: int, m: nat, x: nat)
    requires m > 0
    ensures Having(lo, lo, m, x) == {}
  {
  }

  lemma {:induction false} Evenly(lo: nat, m: nat, q: nat, x: nat)
    requires x < m
    ensures |Having(lo, lo + q * m, m, x)| == q
  {
    hide Having;
    if q == 0 {
      HavingNone(lo, m, x);
    } else {
      var hi := lo + (q - 1) * m;
      assert q * m == (q - 1) * m + m;
      Evenly(lo, m, q - 1, x);
      OneInARow(hi, m, x);
      HavingMore(lo, hi, hi + m, m, x);
    }
  }

  lemma HavingMore(lo: int, mid: int, hi: int, m: nat, x: nat)
    requires m > 0 && lo <= mid <= hi
    ensures |Having(lo, hi, m, x)| == |Having(lo, mid, m, x)| + |Having(mid, hi, m, x)|
  {
    assert Having(lo, hi, m, x) == Having(lo, mid, m, x) + Having(mid, hi, m, x);
  }

  /** Each result of arc4random_uniform comes from equally many of the 32-bit numbers that are used. */
  lemma Unbiased(bound: nat, x: nat)
    requires 2 <= bound < UINT32_RANGE && x < bound
    ensures |Having(Cutoff(bound), UINT32_RANGE, bound, x)| == UINT32_RANGE / bound
  {
    CutoffIs(bound);
    var q := UINT32_RANGE / bound;
    assert UINT32_RANGE == Cutoff(bound) + q * bound;
    Evenly(Cutoff(bound), bound, q, x);
  }

  /** More than half of the numbers are used. */
  lemma MostAreUsed(bound: nat)
    requires 2 <= bound < UINT32_RANGE
    ensures 2 * Cutoff(bound) < UINT32_RANGE
  {
    CutoffIs(bound);
  }

  /** The draw at `k` is the first that is used, and leads to `x`. */
  ghost predicate Accepts(bound: nat, draws: seq<nat>, k: nat, x: nat)
    requires bound >= 2 && k < |draws|
  {
    && draws[k] in Having(UINT32_RANGE % bound, UINT32_RANGE, bound, x)
    && forall l :: 0 <= l < k ==> draws[l] < UINT32_RANGE % bound
  }

  /**
   * arc4random_uniform, when arc4random returns the numbers `draws` one after the other; None when these are not
   * enough.
   */
  method Uniform(bound: nat, draws: seq<nat>) returns (r: Option<nat>)
    requires bound < UINT32_RANGE && forall k :: 0 <= k < |draws| ==> draws[k] < UINT32_RANGE
    ensures bound < 2 ==> r == Some(0)
    ensures bound >= 2 && r.None? ==> forall k :: 0 <= k < |draws| ==> draws[k] < UINT32_RANGE % bound
    ensures bound >= 2 && r.Some? ==>
      r.value < bound && exists k :: 0 <= k < |draws| && Accepts(bound, draws, k, r.value)
  {
    if bound < 2 {
      return Some(0);
    }
    var min: int;
    if bound > 0x8000_0000 {
      min := 1 + (0xffff_ffff - bound);
    } else {
      min := Low32(0xffff_ffff - Low32(bound * 2) + 1) % bound;
    }
    CutoffIs(bound);
    var k := 0;
    while k < |draws|
      invariant 0 <= k <= |draws| && forall l :: 0 <= l < k ==> draws[l] < min
    {
      if draws[k] >= min {
        assert Accepts(bound, draws, k, draws[k] % bound);
        return Some(draws[k] % bound);
      }
      k := k + 1;
    }
    return None;
  }
}
