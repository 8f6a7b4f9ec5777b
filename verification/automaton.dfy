/** The one-dimensional, radius-1, binary cellular automaton of
    atelier2/main.cpp (`CellularAutomaton1D`), on a ring of cells. */
module Automaton {
  import opened BitCodec

  /** A `uint32_t` value. */
  type Word32 = x: int | 0 <= x < 0x1_0000_0000

  function Or(a: Bit, b: Bit): Bit
  {
    if a == 1 || b == 1 then 1 else 0
  }

  /** `next_cell`: the neighbourhood (L, C, R) read as the three-bit number
      4L + 2C + R selects one bit of the Wolfram rule number, so the low
      byte of the rule, written most significant bit first, is the rule's
      table for the neighbourhoods 111, 110, ..., 000. */
  function NextCell(l: Bit, c: Bit, r: Bit, rule: Word32): (cell: Bit)
    ensures cell == BitsOf(rule, 8)[7 - (4 * l + 2 * c + r)]
  {
    BitOf(rule, 4 * l + 2 * c + r)
  }

  /** The left neighbour `(i + n - 1) % n` of cell i on a ring of n. */
  function Left(i: nat, n: nat): (j: nat)
    requires i < n
    ensures j == if i == 0 then n - 1 else i - 1
  {
    if i == 0 then ModBelow(n - 1, n); (i + n - 1) % n
    else ModWrap(i + n - 1, n); (i + n - 1) % n
  }

  /** The right neighbour `(i + 1) % n` of cell i on a ring of n. */
  function Right(i: nat, n: nat): (j: nat)
    requires i < n
    ensures j == if i == n - 1 then 0 else i + 1
  {
    if i + 1 < n then ModBelow(i + 1, n); (i + 1) % n
    else ModWrap(i + 1, n); (i + 1) % n
  }

  lemma ModBelow(a: int, n: int)
    requires 0 <= a < n
    ensures a % n == a
  {
  }

  lemma ModWrap(a: int, n: int)
    requires 0 < n <= a < 2 * n
    ensures a % n == a - n
  {
    ModBelow(a - n, n);
    assert a == (a - n) + n;
  }

  /** One synchronous update of every cell of the ring: cell i looks at
      cells i-1 and i+1, wrapping around at both ends. */
  function Step(s: seq<Bit>, rule: Word32): (r: seq<Bit>)
    ensures |r| == |s|
  {
    var n := |s|;
    seq(n, i requires 0 <= i < n => NextCell(s[Left(i, n)], s[i], s[Right(i, n)], rule))
  }

  /** Position i + k of a ring of n, for a shift k of at most n. */
  function Shift(i: nat, k: nat, n: nat): (j: nat)
    requires i < n && k <= n
    ensures j < n
  {
    if i + k < n then i + k else i + k - n
  }

  /** The ring read from position k onwards. */
  function Rotate(s: seq<Bit>, k: nat): (r: seq<Bit>)
    requires k <= |s|
    ensures |r| == |s|
  {
    seq(|s|, i requires 0 <= i < |s| => s[Shift(i, k, |s|)])
  }

  class CellularAutomaton1D {
    var state: seq<Bit>

    constructor (init: seq<Bit>)
      ensures state == init
    {
      state := init;
    }

    /** `evolve`: every cell is computed from the old state into a fresh
        vector, which then replaces the state. */
    method Evolve(rule: Word32)
      modifies this
      ensures |state| == |old(state)|
      ensures state == Step(old(state), rule)
    {
      var n := |state|;
      var next: seq<Bit> := [];
      for i := 0 to n
        invariant |next| == i
        invariant forall j :: 0 <= j < i ==> next[j] == Step(state, rule)[j]
      {
        var l := state[Left(i, n)];
        var c := state[i];
        var r := state[Right(i, n)];
        next := next + [NextCell(l, c, r, rule)];
      }
      state := next;
    }
  }

  // ---------------------------------------------------------------------
  // Properties of the update rule

  /** Rule 30, the rule `ac_hash` is run with by default, is
      L xor (C or R). */
  lemma Rule30Formula(l: Bit, c: Bit, r: Bit)
    ensures NextCell(l, c, r, 30) == Xor(l, Or(c, r))
  {
    assert BitOf(30, 0) == 0 && BitOf(30, 1) == 1 && BitOf(30, 2) == 1 && BitOf(30, 3) == 1;
    assert BitOf(30, 4) == 1 && BitOf(30, 5) == 0 && BitOf(30, 6) == 0 && BitOf(30, 7) == 0;
  }

  /** Rule 90 is L xor R: the centre cell is ignored. */
  lemma Rule90Formula(l: Bit, c: Bit, r: Bit)
    ensures NextCell(l, c, r, 90) == Xor(l, r)
  {
    assert BitOf(90, 0) == 0 && BitOf(90, 1) == 1 && BitOf(90, 2) == 0 && BitOf(90, 3) == 1;
    assert BitOf(90, 4) == 1 && BitOf(90, 5) == 0 && BitOf(90, 6) == 1 && BitOf(90, 7) == 0;
  }

  /** Rule 204 copies the centre cell. */
  lemma Rule204Cell(l: Bit, c: Bit, r: Bit)
    ensures NextCell(l, c, r, 204) == c
  {
    assert BitOf(204, 0) == 0 && BitOf(204, 1) == 0 && BitOf(204, 2) == 1 && BitOf(204, 3) == 1;
    assert BitOf(204, 4) == 0 && BitOf(204, 5) == 0 && BitOf(204, 6) == 1 && BitOf(204, 7) == 1;
  }

  /** So under rule 204 a step changes nothing. */
  lemma Rule204Identity(s: seq<Bit>)
    ensures Step(s, 204) == s
  {
    var r := Step(s, 204);
    forall i | 0 <= i < |s| ensures r[i] == s[i] {
      var n := |s|;
      Rule204Cell(s[Left(i, n)], s[i], s[Right(i, n)]);
    }
  }

  /** A ring of zeros stays zero under any rule whose bit 0 is clear. */
  lemma ZeroFixed(n: nat, rule: Word32)
    requires rule % 2 == 0
    ensures Step(seq(n, _ => 0), rule) == seq(n, _ => 0)
  {
  }

  /** The ring has no distinguished origin: stepping a rotated ring is
      rotating the stepped ring. */
  lemma StepRotate(s: seq<Bit>, k: nat, rule: Word32)
    requires k <= |s|
    ensures Step(Rotate(s, k), rule) == Rotate(Step(s, rule), k)
  {
    var n := |s|;
    var rs := Rotate(s, k);
    var a := Step(rs, rule);
    var b := Rotate(Step(s, rule), k);
    forall i | 0 <= i < n ensures a[i] == b[i] {
      var j := Shift(i, k, n);
      assert rs[Left(i, n)] == s[Left(j, n)];
      assert rs[Right(i, n)] == s[Right(j, n)];
      assert b[i] == Step(s, rule)[j];
    }
  }
}
