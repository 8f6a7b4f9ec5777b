// `bit_diff` of atelier2/main.cpp: the Hamming distance between the first
// 256 bits of two hex digests.

module Analysis {
  import opened BitCodec

  /** The number of positions below n where `a` and `b` differ. */
  function Differences(a: seq<Bit>, b: seq<Bit>, n: nat): (d: nat)
    requires n <= |a| && n <= |b|
    ensures d <= n
    ensures d == 0 ==> a[..n] == b[..n]
  {
    if n == 0 then 0
    else
      var d := Differences(a, b, n - 1) + Xor(a[n - 1], b[n - 1]);
      assert d == 0 ==> a[..n] == a[..n - 1] + [a[n - 1]] == b[..n - 1] + [b[n - 1]] == b[..n];
      d
  }

  /** The positions below n where `a` and `b` differ. */
  function DiffSet(a: seq<Bit>, b: seq<Bit>, n: nat): set<nat>
    requires n <= |a| && n <= |b|
  {
    set i: nat | i < n && a[i] != b[i]
  }

  /** The count is the size of the set of differing positions. */
  lemma {:induction false} DifferencesCountsPositions(a: seq<Bit>, b: seq<Bit>, n: nat)
    requires n <= |a| && n <= |b|
    ensures Differences(a, b, n) == |DiffSet(a, b, n)|
  {
    if n > 0 {
      DifferencesCountsPositions(a, b, n - 1);
      if a[n - 1] != b[n - 1] {
        assert DiffSet(a, b, n) == DiffSet(a, b, n - 1) + {n - 1};
      } else {
        assert DiffSet(a, b, n) == DiffSet(a, b, n - 1);
      }
    }
  }

  /** Equal prefixes have no differences; with the ensures of
      `Differences`, the count is zero exactly when the prefixes agree. */
  lemma {:induction false} DifferencesZero(a: seq<Bit>, b: seq<Bit>, n: nat)
    requires n <= |a| && n <= |b|
    ensures Differences(a, b, n) == 0 <==> a[..n] == b[..n]
  {
    if n > 0 && a[..n] == b[..n] {
      assert a[..n - 1] == a[..n][..n - 1] && b[..n - 1] == b[..n][..n - 1];
      assert a[n - 1] == a[..n][n - 1];
      DifferencesZero(a, b, n - 1);
    }
  }

  /** The distance is symmetric. */
  lemma {:induction false} DifferencesSymmetric(a: seq<Bit>, b: seq<Bit>, n: nat)
    requires n <= |a| && n <= |b|
    ensures Differences(a, b, n) == Differences(b, a, n)
  {
    if n > 0 {
      DifferencesSymmetric(a, b, n - 1);
    }
  }

  /** The distance obeys the triangle inequality. */
  lemma {:induction false} DifferencesTriangle(a: seq<Bit>, b: seq<Bit>, c: seq<Bit>, n: nat)
    requires n <= |a| && n <= |b| && n <= |c|
    ensures Differences(a, c, n) <= Differences(a, b, n) + Differences(b, c, n)
  {
    if n > 0 {
      DifferencesTriangle(a, b, c, n - 1);
    }
  }

  /** `bit_diff`: decode both digests and count the differing bits among
      the first 256. The source indexes the decoded vectors without a size
      check, so both strings must have at least 64 characters. */
  method BitDiff(h1: string, h2: string) returns (diff: int)
    requires |h1| >= 64 && |h2| >= 64
    ensures diff == Differences(HexToBits(h1), HexToBits(h2), 256)
    ensures 0 <= diff <= 256
  {
    var b1 := HexToBitsOf(h1);
    var b2 := HexToBitsOf(h2);
    diff := 0;
    for i := 0 to 256
      invariant diff == Differences(b1, b2, i)
    {
      diff := diff + Xor(b1[i], b2[i]);
    }
  }

  /** For two 64-digit lowercase digests, `bit_diff` is zero exactly when
      they are the same string. */
  lemma BitDiffZeroIffEqual(h1: string, h2: string)
    requires |h1| == 64 && |h2| == 64
    requires IsLowerHexString(h1) && IsLowerHexString(h2)
    ensures Differences(HexToBits(h1), HexToBits(h2), 256) == 0 <==> h1 == h2
  {
    var b1, b2 := HexToBits(h1), HexToBits(h2);
    DifferencesZero(b1, b2, 256);
    assert b1[..256] == b1 && b2[..256] == b2;
    if b1 == b2 {
      BitsToHexOfHexToBits(h1);
      BitsToHexOfHexToBits(h2);
    }
  }
}
