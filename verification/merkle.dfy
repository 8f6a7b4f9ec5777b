// The Merkle root of a list of strings: `merkleRoot`
// (atelier1/exercice1.cpp) and the tree part of `computeMerkleRoot`
// (exercice4.cpp).

module Merkle {
  import opened HashFn
  import opened BitCodec

  /** The parent of the pair starting at i; an odd last entry is paired
      with itself. */
  function Parent(sha: Sha256Fn, level: seq<string>, i: nat): string
    requires i < |level|
  {
    var left := level[i];
    var right := if i + 1 < |level| then level[i + 1] else left;
    sha(left + right)
  }

  /** One round of the `while` loop: the level above `level`. */
  function NextLevel(sha: Sha256Fn, level: seq<string>): (next: seq<string>)
    ensures |next| == (|level| + 1) / 2
    ensures forall k :: 0 <= k < |next| ==> next[k] == Parent(sha, level, 2 * k)
  {
    seq((|level| + 1) / 2, k requires 0 <= k < (|level| + 1) / 2 => Parent(sha, level, 2 * k))
  }

  /** The root: "" for no entries, the entry itself for one, otherwise the
      root of the next level. */
  function RootOf(sha: Sha256Fn, level: seq<string>): string
    decreases |level|
  {
    if |level| == 0 then ""
    else if |level| == 1 then level[0]
    else RootOf(sha, NextLevel(sha, level))
  }

  // ---------------------------------------------------------------------
  // Lemmas

  /** Each round at least halves a level of two or more entries. */
  lemma NextLevelShrinks(sha: Sha256Fn, level: seq<string>)
    requires |level| >= 2
    ensures 1 <= |NextLevel(sha, level)| < |level|
  {
  }

  /** The root of two or more entries is a digest: some `sha256` output. */
  lemma {:induction false} RootIsDigest(sha: Sha256Fn, level: seq<string>)
    requires |level| >= 2
    ensures exists left, right :: RootOf(sha, level) == sha(left + right)
    decreases |level|
  {
    var next := NextLevel(sha, level);
    if |next| == 1 {
      assert RootOf(sha, level) == Parent(sha, level, 0);
    } else {
      RootIsDigest(sha, next);
    }
  }

  /** With a hash that prints 64 hex digits, the root of two or more
      entries is 64 hex digits too. */
  lemma RootIsHexDigest(sha: Sha256Fn, level: seq<string>)
    requires PrintsHexDigest(sha) && |level| >= 2
    ensures |RootOf(sha, level)| == 64 && IsLowerHexString(RootOf(sha, level))
  {
    RootIsDigest(sha, level);
    var left, right :| RootOf(sha, level) == sha(left + right);
  }

  /** Pairing never crosses the boundary after an even-length prefix. */
  lemma NextLevelAppend(sha: Sha256Fn, a: seq<string>, b: seq<string>)
    requires |a| % 2 == 0
    ensures NextLevel(sha, a + b) == NextLevel(sha, a) + NextLevel(sha, b)
  {
    var ab := a + b;
    var l, la, lb := NextLevel(sha, ab), NextLevel(sha, a), NextLevel(sha, b);
    forall k | 0 <= k < |l|
      ensures l[k] == (la + lb)[k]
    {
      if k < |la| {
        assert ab[2 * k] == a[2 * k] && ab[2 * k + 1] == a[2 * k + 1];
      } else {
        var j := k - |la|;
        assert 2 * k == |a| + 2 * j;
        assert ab[2 * k] == b[2 * j];
        if 2 * j + 1 < |b| {
          assert ab[2 * k + 1] == b[2 * j + 1];
        }
      }
    }
  }

  /** For 2^(k+1) entries the root is the hash of the roots of the two
      halves: the loop builds a binary tree. */
  lemma {:induction false} RootOfHalves(sha: Sha256Fn, a: seq<string>, b: seq<string>, k: nat)
    requires |a| == Pow2(k) && |b| == Pow2(k)
    ensures RootOf(sha, a + b) == sha(RootOf(sha, a) + RootOf(sha, b))
    decreases k
  {
    if k == 0 {
      assert NextLevel(sha, a + b) == [sha(a[0] + b[0])];
    } else {
      NextLevelAppend(sha, a, b);
      RootOfHalves(sha, NextLevel(sha, a), NextLevel(sha, b), k - 1);
    }
  }

  /** Repeating the last entry of an odd level does not change the level
      above it. */
  lemma NextLevelDuplicateLast(sha: Sha256Fn, level: seq<string>)
    requires |level| % 2 == 1
    ensures NextLevel(sha, level + [level[|level| - 1]]) == NextLevel(sha, level)
  {
    var padded := level + [level[|level| - 1]];
    var n, m := NextLevel(sha, padded), NextLevel(sha, level);
    forall k | 0 <= k < |n|
      ensures n[k] == m[k]
    {
      assert padded[2 * k] == level[2 * k];
      if 2 * k + 1 < |level| {
        assert padded[2 * k + 1] == level[2 * k + 1];
      } else {
        assert padded[2 * k + 1] == level[2 * k];
      }
    }
  }

  /** So an odd level of three or more entries has the same root as the
      same level with its last entry repeated: two different lists share a
      root. */
  lemma DuplicateLastSameRoot(sha: Sha256Fn, level: seq<string>)
    requires |level| % 2 == 1 && |level| >= 3
    ensures RootOf(sha, level + [level[|level| - 1]]) == RootOf(sha, level)
  {
    var padded := level + [level[|level| - 1]];
    NextLevelDuplicateLast(sha, level);
    assert RootOf(sha, padded) == RootOf(sha, NextLevel(sha, padded));
    assert RootOf(sha, level) == RootOf(sha, NextLevel(sha, level));
  }

  /** The four-entry example of atelier1: ((A B) (C D)). */
  lemma RootOfFour(sha: Sha256Fn, a: string, b: string, c: string, d: string)
    ensures RootOf(sha, [a, b, c, d]) == sha(sha(a + b) + sha(c + d))
  {
    assert [a, b, c, d] == [a, b] + [c, d];
    RootOfHalves(sha, [a], [b], 0);
    RootOfHalves(sha, [c], [d], 0);
    RootOfHalves(sha, [a, b], [c, d], 1);
  }

  /** Three entries: the third is paired with itself. */
  lemma RootOfThree(sha: Sha256Fn, a: string, b: string, c: string)
    ensures RootOf(sha, [a, b, c]) == sha(sha(a + b) + sha(c + c))
  {
    var top := [sha(a + b), sha(c + c)];
    assert NextLevel(sha, [a, b, c]) == top;
    assert NextLevel(sha, top) == [sha(sha(a + b) + sha(c + c))];
    assert RootOf(sha, top) == RootOf(sha, [sha(sha(a + b) + sha(c + c))]);
  }

  // ---------------------------------------------------------------------
  // The C++ function

  /** `merkleRoot`: hash neighbouring pairs level by level until one
      string is left. */
  method MerkleRoot(sha: Sha256Fn, transactions: seq<string>) returns (root: string)
    ensures root == RootOf(sha, transactions)
    ensures |transactions| == 0 ==> root == ""
    ensures |transactions| == 1 ==> root == transactions[0]
    ensures |transactions| >= 2 ==> exists left, right :: root == sha(left + right)
  {
    if |transactions| == 0 {
      return "";
    }
    var level := transactions;
    while |level| > 1
      invariant |level| >= 1
      invariant RootOf(sha, level) == RootOf(sha, transactions)
      decreases |level|
    {
      var newLevel := [];
      var i := 0;
      while i < |level|
        invariant 0 <= i <= |level| + 1 && i % 2 == 0
        invariant |newLevel| == i / 2
        invariant forall k :: 0 <= k < |newLevel| ==> newLevel[k] == Parent(sha, level, 2 * k)
      {
        var left := level[i];
        var right := if i + 1 < |level| then level[i + 1] else left;
        newLevel := newLevel + [sha(left + right)];
        i := i + 2;
      }
      assert newLevel == NextLevel(sha, level);
      level := newLevel;
    }
    root := level[0];
    if |transactions| >= 2 {
      RootIsDigest(sha, transactions);
    }
  }
}
