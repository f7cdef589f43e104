/** Bytes, Python-style slicing of byte strings and big-endian numbers. */
module Bytes {

  type Byte = x: int | 0 <= x < 256

  function Min(a: int, b: int): int { if a <= b then a else b }

  /** What `s[:n]` yields: the first `n` bytes, or all of `s` when it is shorter. */
  function Take(s: seq<Byte>, n: nat): (r: seq<Byte>)
    ensures |r| == Min(n, |s|)
    ensures forall i :: 0 <= i < |r| ==> r[i] == s[i]
  {
    if n <= |s| then s[..n] else s
  }

  /** What `s[lo:hi]` yields for `lo <= hi`: indices past the end are clipped to it. */
  function Slice(s: seq<Byte>, lo: nat, hi: nat): (r: seq<Byte>)
    requires lo <= hi
    ensures |r| == if lo <= |s| then Min(hi, |s|) - lo else 0
    ensures forall i :: 0 <= i < |r| ==> lo + i < |s| && r[i] == s[lo + i]
  {
    if |s| <= lo then [] else s[lo..Min(hi, |s|)]
  }

  /** What `s[n:]` yields: everything after the first `n` bytes, or nothing. */
  function Drop(s: seq<Byte>, n: nat): (r: seq<Byte>)
    ensures |r| == if n <= |s| then |s| - n else 0
    ensures forall i :: 0 <= i < |r| ==> r[i] == s[n + i]
    ensures Take(s, n) + r == s
  {
    if n <= |s| then s[n..] else []
  }

  /** A slice of a prefix that is long enough is the slice of the whole. */
  lemma SliceOfTake(s: seq<Byte>, n: nat, lo: nat, hi: nat)
    requires lo <= hi <= n
    ensures Slice(Take(s, n), lo, hi) == Slice(s, lo, hi)
  {
  }

  function Pow256(k: nat): (r: nat)
    ensures r >= 1
  {
    if k == 0 then 1 else 256 * Pow256(k - 1)
  }

  /** The unsigned big-endian number the bytes spell, i.e. `int(hexlify(s), 16)` for non-empty `s`. */
  function BigEndian(s: seq<Byte>): nat
  {
    if s == [] then 0 else 256 * BigEndian(s[..|s| - 1]) + s[|s| - 1]
  }

  lemma {:induction false} BigEndianBound(s: seq<Byte>)
    ensures BigEndian(s) < Pow256(|s|)
  {
    if s != [] {
      BigEndianBound(s[..|s| - 1]);
    }
  }

  /** The `k` big-endian bytes of `v`: the inverse of BigEndian. */
  function ToBigEndian(v: nat, k: nat): (r: seq<Byte>)
    requires v < Pow256(k)
    ensures |r| == k
  {
    if k == 0 then [] else ToBigEndian(v / 256, k - 1) + [v % 256]
  }

  lemma {:induction false} BigEndianOfToBigEndian(v: nat, k: nat)
    requires v < Pow256(k)
    ensures BigEndian(ToBigEndian(v, k)) == v
  {
    if k > 0 {
      var r := ToBigEndian(v, k);
      assert r[..k - 1] == ToBigEndian(v / 256, k - 1);
      BigEndianOfToBigEndian(v / 256, k - 1);
    }
  }

  lemma {:induction false} ToBigEndianOfBigEndian(s: seq<Byte>)
    ensures BigEndian(s) < Pow256(|s|) && ToBigEndian(BigEndian(s), |s|) == s
  {
    BigEndianBound(s);
    if s != [] {
      var init := s[..|s| - 1];
      ToBigEndianOfBigEndian(init);
      assert (256 * BigEndian(init) + s[|s| - 1]) / 256 == BigEndian(init);
      assert s == init + [s[|s| - 1]];
    }
  }

  /** Big-endian values of two and three bytes, written out. */
  lemma BigEndianTwoThree(a: Byte, b: Byte, c: Byte)
    ensures BigEndian([a, b]) == 256 * a + b
    ensures BigEndian([a, b, c]) == 65536 * a + 256 * b + c
  {
    assert [a, b, c][..2] == [a, b];
    assert [a, b][..1] == [a];
    assert [a][..0] == [];
    assert BigEndian([a]) == a;
    assert BigEndian([a, b]) == 256 * a + b;
  }
}
