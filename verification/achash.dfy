/** The cellular-automaton hash `ac_hash` of atelier2/main.cpp and its
    helpers `fold_to_256` and `init_state_from_bits`. */
module ACHash {
  import opened BitCodec
  import opened Automaton

  datatype Option<T> = None | Some(value: T)

  /** Width of the digest in bits. */
  const DigestBits: nat := 256

  /** The offset stride of the accumulation: round t reads the folded
      state shifted by 13t positions. */
  const Stride: nat := 13

  function Zeros(n: nat): (z: seq<Bit>)
    ensures |z| == n
  {
    seq(n, _ => 0)
  }

  function Max(a: nat, b: nat): nat
  {
    if a < b then b else a
  }

  // ---------------------------------------------------------------------
  // fold_to_256

  /** The parity of the bits of `s` whose position is j modulo 256. */
  function Column(s: seq<Bit>, j: nat): Bit
    requires j < DigestBits
  {
    if s == [] then 0
    else
      var last := |s| - 1;
      if last % DigestBits == j then Xor(Column(s[..last], j), s[last])
      else Column(s[..last], j)
  }

  /** `fold_to_256`: the state wrapped onto 256 columns and XOR-ed down. */
  function Fold(s: seq<Bit>): (f: seq<Bit>)
    ensures |f| == DigestBits
  {
    seq(DigestBits, j requires 0 <= j < DigestBits => Column(s, j))
  }

  /** Folding one more bit flips exactly its own column. */
  lemma FoldSnoc(s: seq<Bit>, i: nat)
    requires i < |s|
    ensures Fold(s[..i + 1]) == Fold(s[..i])[i % DigestBits := Xor(Fold(s[..i])[i % DigestBits], s[i])]
  {
    var a := s[..i + 1];
    assert a[..i] == s[..i];
    forall j | 0 <= j < DigestBits
      ensures Column(a, j) == Fold(s[..i])[i % DigestBits := Xor(Fold(s[..i])[i % DigestBits], s[i])][j]
    {
      assert Column(a, j) == if i % DigestBits == j then Xor(Column(s[..i], j), s[i]) else Column(s[..i], j);
    }
  }

  /** A state of at most 256 bits folds to itself, padded with zeros. */
  lemma {:induction false} ColumnShort(s: seq<Bit>, j: nat)
    requires |s| <= DigestBits && j < DigestBits
    ensures Column(s, j) == if j < |s| then s[j] else 0
  {
    if s != [] {
      var last := |s| - 1;
      var init := s[..last];
      ColumnShort(init, j);
      assert last % DigestBits == last;
      if j < last {
        assert init[j] == s[j];
      }
    }
  }

  lemma FoldShort(s: seq<Bit>)
    requires |s| <= DigestBits
    ensures Fold(s) == s + Zeros(DigestBits - |s|)
  {
    forall j | 0 <= j < DigestBits ensures Fold(s)[j] == (s + Zeros(DigestBits - |s|))[j] {
      ColumnShort(s, j);
    }
  }

  /** Folding a 256-bit state is the identity. */
  lemma FoldIdentity(s: seq<Bit>)
    requires |s| == DigestBits
    ensures Fold(s) == s
  {
    FoldShort(s);
    assert s + Zeros(0) == s;
  }

  method FoldTo256(s: seq<Bit>) returns (out: seq<Bit>)
    ensures |out| == DigestBits
    ensures forall j :: 0 <= j < DigestBits ==> out[j] == Column(s, j)
  {
    out := Zeros(DigestBits);
    assert out == Fold(s[..0]);
    for i := 0 to |s|
      invariant out == Fold(s[..i])
    {
      FoldSnoc(s, i);
      out := out[i % DigestBits := Xor(out[i % DigestBits], s[i])];
    }
    assert s[..|s|] == s;
  }

  // ---------------------------------------------------------------------
  // init_state_from_bits

  /** The bit string repeated cyclically to width w. */
  function Replicate(bits: seq<Bit>, w: nat): (st: seq<Bit>)
    requires |bits| > 0
    ensures |st| == w
  {
    seq(w, i requires 0 <= i < w => bits[i % |bits|])
  }

  /** The first |bits| cells of the initial state are the bits themselves. */
  lemma ReplicatePrefix(bits: seq<Bit>, w: nat)
    requires 0 < |bits| <= w
    ensures Replicate(bits, w)[..|bits|] == bits
  {
  }

  /** At width |bits| the state is exactly the input bits. */
  lemma ReplicateSelf(bits: seq<Bit>)
    requires |bits| > 0
    ensures Replicate(bits, |bits|) == bits
  {
    ReplicatePrefix(bits, |bits|);
  }

  /** `init_state_from_bits`; the source divides by `bits.size()`, so an
      empty input is outside its domain. */
  method InitStateFromBits(bits: seq<Bit>, w: nat) returns (st: seq<Bit>)
    requires |bits| > 0
    ensures |st| == w
    ensures forall i :: 0 <= i < w ==> st[i] == bits[i % |bits|]
  {
    st := Zeros(w);
    for i := 0 to w
      invariant |st| == w
      invariant forall k :: 0 <= k < i ==> st[k] == bits[k % |bits|]
    {
      st := st[i := bits[i % |bits|]];
    }
  }

  // ---------------------------------------------------------------------
  // The accumulation index

  /** The read position of main.cpp:89 as written, `i + (t*13)%256`, which
      can run past the 256 folded bits. */
  function AsWrittenIndex(i: nat, t: nat): nat
  {
    i + (t * Stride) % DigestBits
  }

  /** The read of main.cpp:89 as written: `None` when it falls outside
      the folded vector. */
  function AsWrittenRead(folded: seq<Bit>, i: nat, t: nat): (r: Option<Bit>)
    ensures r.Some? <==> AsWrittenIndex(i, t) < |folded|
  {
    var k := AsWrittenIndex(i, t);
    if k < |folded| then Some(folded[k]) else None
  }

  /** In round t = 1 the read for i = 243 is at position 256, one past the
      last folded bit. */
  lemma AsWrittenReadsPastEnd(folded: seq<Bit>)
    requires |folded| == DigestBits
    ensures AsWrittenIndex(243, 1) == DigestBits
    ensures AsWrittenRead(folded, 243, 1).None?
  {
  }

  /** Every read of round t stays in bounds exactly when the offset
      13t is a multiple of 256. */
  lemma AsWrittenInBoundsIff(t: nat)
    ensures (forall i: nat :: i < DigestBits ==> AsWrittenIndex(i, t) < DigestBits)
        <==> (t * Stride) % DigestBits == 0
  {
    if (t * Stride) % DigestBits != 0 {
      assert AsWrittenIndex(DigestBits - 1, t) >= DigestBits;
    }
  }

  /** The read position with the offset taken modulo 256: the folded
      state rotated by 13t. */
  function ReadIndex(i: nat, t: nat): (k: nat)
    ensures k < DigestBits
  {
    (i + (t * Stride) % DigestBits) % DigestBits
  }

  /** Where the as-written read is in bounds, the corrected read agrees. */
  lemma ReadIndexAgrees(folded: seq<Bit>, i: nat, t: nat)
    requires |folded| == DigestBits
    requires AsWrittenRead(folded, i, t).Some?
    ensures AsWrittenRead(folded, i, t).value == folded[ReadIndex(i, t)]
  {
  }

  /** The corrected read is a rotation: every folded bit is read exactly
      once per round. */
  lemma ReadIndexBijective(t: nat)
    ensures forall i: nat, i': nat :: i < DigestBits && i' < DigestBits && ReadIndex(i, t) == ReadIndex(i', t) ==> i == i'
    ensures forall k: nat :: k < DigestBits ==> ReadIndex(Unrotate(k, t), t) == k
  {
  }

  /** The position round t reads digest bit k from, run backwards. */
  function Unrotate(k: nat, t: nat): nat
  {
    (k + DigestBits - (t * Stride) % DigestBits) % DigestBits
  }

  // ---------------------------------------------------------------------
  // ac_hash

  /** One accumulation round: every digest bit XOR-ed with a bit of the
      folded state, read at the rotated position. */
  function Mix(acc: seq<Bit>, folded: seq<Bit>, t: nat): (r: seq<Bit>)
    requires |acc| == DigestBits && |folded| == DigestBits
    ensures |r| == DigestBits
  {
    seq(DigestBits, i requires 0 <= i < DigestBits => Xor(acc[i], folded[ReadIndex(i, t)]))
  }

  /** The automaton state after t evolutions. */
  function StateAt(s0: seq<Bit>, rule: Word32, t: nat): (s: seq<Bit>)
    ensures |s| == |s0|
  {
    if t == 0 then s0 else Step(StateAt(s0, rule, t - 1), rule)
  }

  /** The accumulator after t rounds. */
  function Digest(s0: seq<Bit>, rule: Word32, t: nat): (d: seq<Bit>)
    ensures |d| == DigestBits
  {
    if t == 0 then Zeros(DigestBits)
    else Mix(Digest(s0, rule, t - 1), Fold(StateAt(s0, rule, t - 1)), t - 1)
  }

  /** The initial automaton: the input's bits repeated to width
      max(256, 8|input|). */
  function InitialState(input: string): (s: seq<Bit>)
    requires |input| > 0
    ensures |s| == Max(DigestBits, 8 * |input|)
  {
    Replicate(TextToBits(input), Max(DigestBits, 8 * |input|))
  }

  function AcHashSpec(input: string, rule: Word32, steps: nat): (h: string)
    requires |input| > 0
    ensures |h| == 64
  {
    BitsToHex(Digest(InitialState(input), rule, steps))
  }

  /** The inner loop of `ac_hash`: one accumulation round, bit by bit. */
  method MixRound(acc0: seq<Bit>, folded: seq<Bit>, t: nat) returns (acc: seq<Bit>)
    requires |acc0| == DigestBits && |folded| == DigestBits
    ensures acc == Mix(acc0, folded, t)
  {
    acc := acc0;
    for i := 0 to DigestBits
      invariant |acc| == DigestBits
      invariant forall k :: 0 <= k < i ==> acc[k] == Mix(acc0, folded, t)[k]
      invariant forall k :: i <= k < DigestBits ==> acc[k] == acc0[k]
    {
      acc := acc[i := Xor(acc[i], folded[ReadIndex(i, t)])];
    }
  }

  /** One pass of the main loop of `ac_hash`: fold the automaton,
      accumulate the folded bits, evolve the automaton. */
  method Round(ca: CellularAutomaton1D, acc0: seq<Bit>, rule: Word32, t: nat) returns (acc: seq<Bit>)
    requires |acc0| == DigestBits
    modifies ca
    ensures ca.state == Step(old(ca.state), rule)
    ensures acc == Mix(acc0, Fold(old(ca.state)), t)
  {
    var folded := FoldTo256(ca.state);
    assert folded == Fold(ca.state);
    acc := MixRound(acc0, folded, t);
    ca.Evolve(rule);
  }

  /** The main loop of `ac_hash`: `steps` rounds of folding the automaton,
      accumulating the folded bits and evolving the automaton. */
  method Accumulate(st: seq<Bit>, rule: Word32, steps: nat) returns (acc: seq<Bit>)
    ensures acc == Digest(st, rule, steps)
  {
    var ca := new CellularAutomaton1D(st);
    acc := Zeros(DigestBits);
    for t := 0 to steps
      invariant ca.state == StateAt(st, rule, t)
      invariant acc == Digest(st, rule, t)
    {
      acc := Round(ca, acc, rule, t);
    }
  }

  /** `ac_hash`, with the accumulation read taken modulo 256. */
  method AcHash(input: string, rule: Word32, steps: nat) returns (h: string)
    requires |input| > 0
    ensures |h| == 64 && IsLowerHexString(h)
    ensures h == AcHashSpec(input, rule, steps)
  {
    var bits := TextToBitsOf(input);
    var w := Max(DigestBits, |bits|);
    var st := InitStateFromBits(bits, w);
    assert st == InitialState(input);
    var acc := Accumulate(st, rule, steps);
    var r := ToHex(acc);
    h := r.value;
  }

  // ---------------------------------------------------------------------
  // Properties of the hash

  lemma {:induction false} ValueZeros(n: nat)
    ensures Value(Zeros(n)) == 0
  {
    if n > 0 {
      assert Zeros(n)[..n - 1] == Zeros(n - 1);
      ValueZeros(n - 1);
    }
  }

  lemma BitsToHexZeros(n: nat)
    ensures BitsToHex(Zeros(4 * n)) == seq(n, _ => '0')
  {
    var h := BitsToHex(Zeros(4 * n));
    forall k | 0 <= k < n
      ensures h[k] == '0'
    {
      assert Zeros(4 * n)[4 * k .. 4 * k + 4] == Zeros(4);
      ValueZeros(4);
    }
  }

  /** With no evolution steps the digest is 64 zero digits, whatever the
      input. */
  lemma AcHashNoSteps(input: string, rule: Word32)
    requires |input| > 0
    ensures AcHashSpec(input, rule, 0) == seq(64, _ => '0')
  {
    BitsToHexZeros(64);
  }

  /** With a single step the digest is the folded initial state: the rule
      is never applied to what is accumulated. */
  lemma DigestOneStep(s0: seq<Bit>, rule: Word32)
    ensures Digest(s0, rule, 1) == Fold(s0)
  {
    var z, f := Zeros(DigestBits), Fold(s0);
    assert Digest(s0, rule, 1) == Mix(z, f, 0);
    var m := Mix(z, f, 0);
    forall i | 0 <= i < DigestBits
      ensures m[i] == f[i]
    {
      assert ReadIndex(i, 0) == i && z[i] == 0;
    }
    assert m == f;
  }

  /** For a 32-byte input one step hashes the input to its own hex
      rendering, independently of the rule. */
  lemma AcHashOneStepBlock(input: string, rule: Word32)
    requires |input| == 32
    ensures AcHashSpec(input, rule, 1) == BitsToHex(TextToBits(input))
  {
    var bits := TextToBits(input);
    ReplicateSelf(bits);
    DigestOneStep(InitialState(input), rule);
    FoldIdentity(bits);
  }
}
