// Proof of stake: `selectValidator` and `proofOfStake` (exercice3.cpp),
// `selectValidator` and `validateBlockPOS` (exercice4.cpp).

module Stake {
  import opened HashFn

  /** One entry `(name, stake)` of the `map<string, int>` of stakes. */
  type Entry = (string, int)

  /** A `std::map` visits its entries once per key, in ascending key order.
      The stakes are given as a sequence of entries in any order, which
      includes that one; distinct keys are required only where needed. */
  predicate DistinctKeys(s: seq<Entry>)
  {
    forall i, j :: 0 <= i < j < |s| ==> s[i].0 != s[j].0
  }

  predicate NonNegative(s: seq<Entry>)
  {
    forall i :: 0 <= i < |s| ==> s[i].1 >= 0
  }

  /** The sum of all stakes. */
  function Sum(s: seq<Entry>): int
  {
    if s == [] then 0 else s[0].1 + Sum(s[1..])
  }

  /** The stakes of the first i entries. */
  function Cum(s: seq<Entry>, i: nat): int
    requires i <= |s|
  {
    Sum(s[..i])
  }

  /** The running total through entry j. */
  function Through(s: seq<Entry>, j: nat): int
    requires j < |s|
  {
    Cum(s, j + 1)
  }

  /** The integers in [a, b). */
  function Range(a: int, b: int): (r: set<int>)
    decreases b - a
  {
    if b <= a then {} else Range(a, b - 1) + {b - 1}
  }

  /** The draws, among the `total` equally likely ones, that choose `name`. */
  function Draws(s: seq<Entry>, name: string): set<int>
  {
    set r | r in Range(0, Sum(s)) && Walk(s, r) == name
  }

  /** The walk of `selectValidator` for the draw r: the first entry whose
      stake exceeds what is left of r, or "" when r outlasts every entry. */
  function Walk(s: seq<Entry>, r: int): (name: string)
    ensures name == "" || exists i :: 0 <= i < |s| && name == s[i].0
  {
    if s == [] then ""
    else if r < s[0].1 then s[0].0
    else
      var name := Walk(s[1..], r - s[0].1);
      assert name != "" ==> exists i :: 0 <= i < |s| - 1 && name == s[1..][i].0;
      assert forall i :: 0 <= i < |s| - 1 ==> s[1..][i] == s[i + 1];
      name
  }

  // ---------------------------------------------------------------------
  // Lemmas about the specification

  lemma {:induction false} SumSnoc(s: seq<Entry>, e: Entry)
    ensures Sum(s + [e]) == Sum(s) + e.1
  {
    if s != [] {
      assert (s + [e])[1..] == s[1..] + [e];
      SumSnoc(s[1..], e);
    }
  }

  /** One more entry adds its stake to the running total. */
  lemma CumStep(s: seq<Entry>, i: nat)
    requires i < |s|
    ensures Cum(s, i + 1) == Cum(s, i) + s[i].1
  {
    assert s[..i + 1] == s[..i] + [s[i]];
    SumSnoc(s[..i], s[i]);
  }

  lemma CumTail(s: seq<Entry>, i: nat)
    requires i < |s|
    ensures Cum(s, i + 1) == s[0].1 + Cum(s[1..], i)
  {
    assert s[..i + 1][1..] == s[1..][..i];
  }

  lemma CumAll(s: seq<Entry>)
    ensures Cum(s, |s|) == Sum(s)
  {
    assert s[..|s|] == s;
  }

  /** With no negative stake the running total never decreases. */
  lemma {:induction false} CumMonotone(s: seq<Entry>, i: nat, j: nat)
    requires NonNegative(s) && i <= j <= |s|
    ensures 0 <= Cum(s, i) <= Cum(s, j)
    decreases j
  {
    if i == j {
      if i > 0 {
        CumMonotone(s, i - 1, i - 1);
        CumStep(s, i - 1);
      }
    } else {
      CumMonotone(s, i, j - 1);
      CumStep(s, j - 1);
    }
  }

  /** The walk stops at the first entry whose running total exceeds r. */
  lemma {:induction false} WalkFirstExceeding(s: seq<Entry>, r: int, i: nat)
    requires i < |s| && r < Through(s, i)
    requires forall j :: 0 <= j < i ==> Through(s, j) <= r
    ensures Walk(s, r) == s[i].0
  {
    CumTail(s, 0);
    if i > 0 {
      assert Through(s, 0) <= r;
      CumTail(s, i);
      forall j | 0 <= j < i - 1
        ensures Through(s[1..], j) <= r - s[0].1
      {
        assert Through(s, j + 1) <= r;
        CumTail(s, j + 1);
      }
      WalkFirstExceeding(s[1..], r - s[0].1, i - 1);
    }
  }

  /** When no running total exceeds r, nobody is chosen and the result is "". */
  lemma {:induction false} WalkExhausted(s: seq<Entry>, r: int)
    requires forall j :: 0 <= j < |s| ==> Through(s, j) <= r
    ensures Walk(s, r) == ""
  {
    if s != [] {
      CumTail(s, 0);
      assert Through(s, 0) <= r;
      forall j | 0 <= j < |s| - 1
        ensures Through(s[1..], j) <= r - s[0].1
      {
        assert Through(s, j + 1) <= r;
        CumTail(s, j + 1);
      }
      WalkExhausted(s[1..], r - s[0].1);
    }
  }

  /** Conversely, when no stake holder is named "", the walk returns ""
      only when no running total exceeds r. */
  lemma {:induction false} WalkEmptyOnlyExhausted(s: seq<Entry>, r: int)
    requires forall i :: 0 <= i < |s| ==> s[i].0 != ""
    requires Walk(s, r) == ""
    ensures forall j :: 0 <= j < |s| ==> Through(s, j) <= r
  {
    if s != [] {
      assert r >= s[0].1;
      WalkEmptyOnlyExhausted(s[1..], r - s[0].1);
      forall j | 0 <= j < |s|
        ensures Through(s, j) <= r
      {
        CumTail(s, j);
        if j > 0 {
          assert Through(s[1..], j - 1) <= r - s[0].1;
        }
      }
    }
  }

  /** A draw in [0, total - 1] always names one of the stake holders. */
  lemma {:induction false} WalkChoosesHolder(s: seq<Entry>, r: int)
    requires 0 <= r < Sum(s)
    ensures exists i :: 0 <= i < |s| && Walk(s, r) == s[i].0
  {
    if r >= s[0].1 {
      WalkChoosesHolder(s[1..], r - s[0].1);
      var i :| 0 <= i < |s| - 1 && Walk(s[1..], r - s[0].1) == s[1..][i].0;
      assert Walk(s, r) == s[i + 1].0;
    } else {
      assert Walk(s, r) == s[0].0;
    }
  }

  /** With non-negative stakes and distinct names, holder i is chosen
      exactly for the draws in [Cum(i), Cum(i+1)): a range of width equal
      to its stake. */
  lemma ChosenIff(s: seq<Entry>, r: int, i: nat)
    requires NonNegative(s) && DistinctKeys(s)
    requires i < |s| && 0 <= r < Sum(s)
    ensures Walk(s, r) == s[i].0 <==> Cum(s, i) <= r < Cum(s, i + 1)
  {
    CumAll(s);
    WalkChoosesHolder(s, r);
    // the first running total that exceeds r
    var k :| 0 <= k < |s| && r < Through(s, k) && forall j :: 0 <= j < k ==> Through(s, j) <= r by {
      FirstExceeding(s, r);
    }
    WalkFirstExceeding(s, r, k);
    if k > 0 {
      assert Through(s, k - 1) <= r;
    }
    // any other entry's range lies wholly below or above r
    if k < i {
      CumMonotone(s, k + 1, i);
    } else if i < k {
      assert Through(s, i) <= r;
    }
  }

  /** Some running total exceeds a draw below the total, and there is a
      first one. */
  lemma FirstExceeding(s: seq<Entry>, r: int)
    requires 0 <= r < Sum(s)
    ensures exists k :: 0 <= k < |s| && r < Through(s, k) && forall j :: 0 <= j < k ==> Through(s, j) <= r
  {
    CumAll(s);
    var k := 0;
    while Through(s, k) <= r
      invariant 0 <= k < |s|
      invariant forall j :: 0 <= j < k ==> Through(s, j) <= r
      decreases |s| - k
    {
      k := k + 1;
    }
  }

  lemma {:induction false} RangeSize(a: int, b: int)
    requires a <= b
    ensures |Range(a, b)| == b - a
    ensures forall r :: r in Range(a, b) <==> a <= r < b
    decreases b - a
  {
    if a < b {
      RangeSize(a, b - 1);
    }
  }

  /** Stake-weighted choice: of the `total` equally likely draws, exactly
      `stake` of them choose a holder. */
  lemma ChancesProportional(s: seq<Entry>, i: nat)
    requires NonNegative(s) && DistinctKeys(s) && i < |s|
    ensures |Draws(s, s[i].0)| == s[i].1
  {
    CumStep(s, i);
    CumMonotone(s, i + 1, |s|);
    CumAll(s);
    CumMonotone(s, i, i + 1);
    RangeSize(0, Sum(s));
    RangeSize(Cum(s, i), Cum(s, i + 1));
    forall r
      ensures r in Draws(s, s[i].0) <==> r in Range(Cum(s, i), Cum(s, i + 1))
    {
      if r in Range(0, Sum(s)) {
        ChosenIff(s, r, i);
      }
    }
    assert Draws(s, s[i].0) == Range(Cum(s, i), Cum(s, i + 1));
  }

  // ---------------------------------------------------------------------
  // The C++ functions

  /** The first loop of `selectValidator`: the total of all stakes. */
  method TotalStake(stakes: seq<Entry>) returns (total: int)
    ensures total == Sum(stakes)
  {
    total := 0;
    for i := 0 to |stakes|
      invariant total == Cum(stakes, i)
    {
      CumStep(stakes, i);
      total := total + stakes[i].1;
    }
    CumAll(stakes);
  }

  /** `selectValidator` with `r`, the value drawn uniformly from
      [0, total - 1], as a parameter. */
  method SelectValidator(stakes: seq<Entry>, r: int) returns (validator: string)
    requires 0 <= r < Sum(stakes)
    ensures validator == Walk(stakes, r)
    ensures exists i :: 0 <= i < |stakes| && validator == stakes[i].0
  {
    var total := TotalStake(stakes);
    assert 0 <= r <= total - 1;
    var left := r;
    for i := 0 to |stakes|
      invariant Walk(stakes[i..], left) == Walk(stakes, r)
    {
      assert stakes[i..][1..] == stakes[i + 1..];
      if left < stakes[i].1 {
        WalkChoosesHolder(stakes, r);
        return stakes[i].0;
      }
      left := left - stakes[i].1;
    }
    assert stakes[|stakes|..] == [];
    WalkChoosesHolder(stakes, r);
    return "";
  }

  /** `proofOfStake` (exercice3.cpp) and `validateBlockPOS`
      (exercice4.cpp): the chosen validator's name is appended to the
      block data and hashed once. */
  method ProofOfStake(sha: Sha256Fn, previousHash: string, data: string, stakes: seq<Entry>, r: int)
    returns (validator: string, hash: string)
    requires 0 <= r < Sum(stakes)
    ensures validator == Walk(stakes, r)
    ensures exists i :: 0 <= i < |stakes| && validator == stakes[i].0
    ensures hash == sha(previousHash + data + validator)
  {
    validator := SelectValidator(stakes, r);
    hash := sha(previousHash + data + validator);
  }
}
