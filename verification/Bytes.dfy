/** Byte strings and their division into pieces. */
module Bytes {
  type Byte = x: int | 0 <= x < 256

  datatype Option<T> = None | Some(value: T)

  function Min(a: nat, b: nat): nat { if a < b then a else b }

  /** What becomes of a number that is converted to `int`. */
  function ToInt(n: int): (r: int)
    ensures -0x8000_0000 <= r < 0x8000_0000
    ensures -0x8000_0000 <= n < 0x8000_0000 ==> r == n
  {
    (n + 0x8000_0000) % 0x1_0000_0000 - 0x8000_0000
  }

  /** The byte string denoted by a sequence of pieces. */
  function Flatten(ds: seq<seq<Byte>>): (r: seq<Byte>) {
    if ds == [] then [] else ds[0] + Flatten(ds[1..])
  }

  lemma {:induction false} FlattenConcat(a: seq<seq<Byte>>, b: seq<seq<Byte>>)
    ensures Flatten(a + b) == Flatten(a) + Flatten(b)
  {
    if a == [] {
      assert a + b == b;
    } else {
      assert (a + b)[1..] == a[1..] + b;
      FlattenConcat(a[1..], b);
    }
  }

  lemma FlattenOne(d: seq<Byte>)
    ensures Flatten([d]) == d
  {
    assert Flatten([d][1..]) == [];
  }

  lemma FlattenSnoc(ds: seq<seq<Byte>>, d: seq<Byte>)
    ensures Flatten(ds + [d]) == Flatten(ds) + d
  {
    FlattenConcat(ds, [d]);
    FlattenOne(d);
  }

  lemma FlattenCons(d: seq<Byte>, ds: seq<seq<Byte>>)
    ensures Flatten([d] + ds) == d + Flatten(ds)
  {
    assert ([d] + ds)[1..] == ds;
  }

  lemma Around(ds: seq<seq<Byte>>, k: nat)
    requires k < |ds|
    ensures ds == ds[..k] + ([ds[k]] + ds[k + 1..])
  {
  }

  /** Splits a flattened string around piece `k`. */
  lemma FlattenAt(ds: seq<seq<Byte>>, k: nat)
    requires k < |ds|
    ensures Flatten(ds) == Flatten(ds[..k]) + ds[k] + Flatten(ds[k + 1..])
  {
    hide Flatten;
    Around(ds, k);
    FlattenConcat(ds[..k], [ds[k]] + ds[k + 1..]);
    FlattenCons(ds[k], ds[k + 1..]);
  }

  lemma {:induction false} FlattenEmpties(ds: seq<seq<Byte>>)
    requires forall i :: 0 <= i < |ds| ==> ds[i] == []
    ensures Flatten(ds) == []
  {
    if ds != [] {
      FlattenEmpties(ds[1..]);
    }
  }

  lemma FlattenPrefixLength(ds: seq<seq<Byte>>, k: nat)
    requires k <= |ds|
    ensures |Flatten(ds[..k])| <= |Flatten(ds)|
    ensures Flatten(ds) == Flatten(ds[..k]) + Flatten(ds[k..])
  {
    assert ds == ds[..k] + ds[k..];
    FlattenConcat(ds[..k], ds[k..]);
  }

  lemma ConcatSplit(a: seq<Byte>, data: seq<Byte>, k: nat)
    requires k <= |data|
    ensures a + data[..k] + data[k..] == a + data
    ensures [] + data[k..] == data[k..]
  {
    assert data == data[..k] + data[k..];
  }

  /** Where piece `k` lies in the flattened string. */
  lemma FlattenPiece(ds: seq<seq<Byte>>, k: nat)
    requires k < |ds|
    ensures |Flatten(ds[..k])| + |ds[k]| == |Flatten(ds[..k + 1])| <= |Flatten(ds)|
    ensures Flatten(ds)[|Flatten(ds[..k])|..|Flatten(ds[..k + 1])|] == ds[k]
    ensures Flatten(ds)[|Flatten(ds[..k])|..] == Flatten(ds[k..])
    ensures Flatten(ds[k..]) == ds[k] + Flatten(ds[k + 1..])
  {
    hide Flatten;
    FlattenPrefixLength(ds, k);
    FlattenPrefixLength(ds, k + 1);
    assert ds[..k + 1] == ds[..k] + [ds[k]];
    FlattenSnoc(ds[..k], ds[k]);
    assert ds[k..] == [ds[k]] + ds[k + 1..];
    FlattenCons(ds[k], ds[k + 1..]);
  }

  lemma FlattenWhole(ds: seq<seq<Byte>>)
    ensures Flatten(ds[..|ds|]) == Flatten(ds)
    ensures Flatten(ds[..0]) == []
  {
    assert ds[..|ds|] == ds;
  }

  lemma SliceJoin(c: seq<Byte>, a: nat, m: nat, b: nat)
    requires a <= m <= b <= |c|
    ensures c[a..m] + c[m..b] == c[a..b]
  {
  }

  lemma SliceTwice(c: seq<Byte>, d: seq<Byte>, m: nat, n: nat)
    requires m + n <= |c|
    ensures c[m..][n..] == c[m + n..]
    ensures d + c[..m] + c[m..][..n] == d + c[..m + n]
  {
    assert c[..m] + c[m..][..n] == c[..m + n];
  }

  lemma SliceSlice(c: seq<Byte>, a: nat, b: nat, i: nat, j: nat)
    requires a <= b <= |c| && i <= j <= b - a
    ensures c[a..b][i..j] == c[a + i..a + j]
  {
    assert forall k :: 0 <= k < j - i ==> c[a..b][i..j][k] == c[a + i..a + j][k];
  }

  /** memcpy or memmove: `src` is the region as it was before the copy. */
  method Memcpy(dst: array<Byte>, at: nat, src: seq<Byte>)
    requires at + |src| <= dst.Length
    modifies dst
    ensures dst[..] == old(dst[..at]) + src + old(dst[at + |src|..])
  {
    forall k | 0 <= k < |src| {
      dst[at + k] := src[k];
    }
  }

  lemma DivOnce(a: int, m: int, q: int, r: int)
    requires m > 0 && a == q * m + r && 0 <= r < m
    ensures a / m == q && a % m == r
  {
    var k := a / m - q;
    assert a == (a / m) * m + a % m;
    assert k * m == (a / m) * m - q * m;
    assert (k > 0 ==> k * m >= m) && (k < 0 ==> k * m <= -m);
  }

  /** A NUL-terminated string ends at the first NUL. */
  function UpToNul(s: seq<Byte>): (r: seq<Byte>)
    ensures r <= s && 0 !in r && (r == s || s[|r|] == 0)
  {
    if s == [] || s[0] == 0 then [] else [s[0]] + UpToNul(s[1..])
  }

  lemma {:induction false} NulFree(s: seq<Byte>)
    requires 0 !in s
    ensures UpToNul(s) == s
  {
    if s != [] { NulFree(s[1..]); }
  }
}
