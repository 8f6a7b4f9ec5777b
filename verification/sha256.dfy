/** The SHA-256 implementation of atelier2/sha256.h: the streaming context
    `Ctx` with `process`, `update` and `finalize`, and the one-shot `hash`.
    The specification functions follow FIPS 180-4 (sections 4.1.2, 4.2.2,
    5.1.1, 5.3.3 and 6.2). */
module Sha256 {
  import opened BitCodec

  // ---------------------------------------------------------------------
  // Section 4.1.2 of FIPS 180-4: the word functions

  /** `rotr`, for the shift amounts 1..31 the code uses (a shift by 32
      would be undefined in C). */
  function Rotr(x: bv32, n: bv32): bv32
    requires 0 < n < 32
  {
    (x >> n) | (x << (32 - n))
  }

  /** `ch` */
  function Ch(x: bv32, y: bv32, z: bv32): bv32
  {
    (x & y) ^ (!x & z)
  }

  /** `maj` */
  function Maj(x: bv32, y: bv32, z: bv32): bv32
  {
    (x & y) ^ (x & z) ^ (y & z)
  }

  /** `ch` chooses: where x has a one the result takes y's bit, elsewhere
      z's. */
  lemma ChChooses(x: bv32, y: bv32, z: bv32)
    ensures Ch(x, y, z) & x == y & x
    ensures Ch(x, y, z) & !x == z & !x
  {
  }

  /** `maj` takes the majority: a bit is set when at least two of the
      three inputs have it set. */
  lemma MajMajority(x: bv32, y: bv32, z: bv32)
    ensures Maj(x, y, z) == (x & y) | (x & z) | (y & z)
  {
  }

  /** `uint32_t` addition, wrapping modulo 2^32. */
  function Add(x: bv32, y: bv32): bv32
  {
    x + y
  }

  /** Four bytes as one word, the first byte most significant. */
  function Be32(b0: bv8, b1: bv8, b2: bv8, b3: bv8): bv32
  {
    (b0 as bv32 << 24) | (b1 as bv32 << 16) | (b2 as bv32 << 8) | b3 as bv32
  }

  function Big0(x: bv32): bv32 { Rotr(x, 2) ^ Rotr(x, 13) ^ Rotr(x, 22) }

  function Big1(x: bv32): bv32 { Rotr(x, 6) ^ Rotr(x, 11) ^ Rotr(x, 25) }

  function Sm0(x: bv32): bv32 { Rotr(x, 7) ^ Rotr(x, 18) ^ (x >> 3) }

  function Sm1(x: bv32): bv32 { Rotr(x, 17) ^ Rotr(x, 19) ^ (x >> 10) }

  /** At every shift amount `big0`, `big1`, `sm0` and `sm1` use, `rotr`
      is the rotation ROTR of section 2.2.2 of FIPS 180-4, so those four
      are the functions of equations 4.4 to 4.7. */
  lemma RotrRotates(x: bv32)
    ensures Rotr(x, 2) == x.RotateRight(2) && Rotr(x, 13) == x.RotateRight(13) && Rotr(x, 22) == x.RotateRight(22)
    ensures Rotr(x, 6) == x.RotateRight(6) && Rotr(x, 11) == x.RotateRight(11) && Rotr(x, 25) == x.RotateRight(25)
    ensures Rotr(x, 7) == x.RotateRight(7) && Rotr(x, 18) == x.RotateRight(18)
    ensures Rotr(x, 17) == x.RotateRight(17) && Rotr(x, 19) == x.RotateRight(19)
  {
  }

  // ---------------------------------------------------------------------
  // Constants (sections 4.2.2 and 5.3.3 of FIPS 180-4)

  const K: seq<bv32> := [
    0x428a2f98, 0x71374491, 0xb5c0fbcf, 0xe9b5dba5, 0x3956c25b, 0x59f111f1, 0x923f82a4, 0xab1c5ed5,
    0xd807aa98, 0x12835b01, 0x243185be, 0x550c7dc3, 0x72be5d74, 0x80deb1fe, 0x9bdc06a7, 0xc19bf174,
    0xe49b69c1, 0xefbe4786, 0x0fc19dc6, 0x240ca1cc, 0x2de92c6f, 0x4a7484aa, 0x5cb0a9dc, 0x76f988da,
    0x983e5152, 0xa831c66d, 0xb00327c8, 0xbf597fc7, 0xc6e00bf3, 0xd5a79147, 0x06ca6351, 0x14292967,
    0x27b70a85, 0x2e1b2138, 0x4d2c6dfc, 0x53380d13, 0x650a7354, 0x766a0abb, 0x81c2c92e, 0x92722c85,
    0xa2bfe8a1, 0xa81a664b, 0xc24b8b70, 0xc76c51a3, 0xd192e819, 0xd6990624, 0xf40e3585, 0x106aa070,
    0x19a4c116, 0x1e376c08, 0x2748774c, 0x34b0bcb5, 0x391c0cb3, 0x4ed8aa4a, 0x5b9cca4f, 0x682e6ff3,
    0x748f82ee, 0x78a5636f, 0x84c87814, 0x8cc70208, 0x90befffa, 0xa4506ceb, 0xbef9a3f7, 0xc67178f2
  ]

  const H0: seq<bv32> := [
    0x6a09e667, 0xbb67ae85, 0x3c6ef372, 0xa54ff53a,
    0x510e527f, 0x9b05688c, 0x1f83d9ab, 0x5be0cd19
  ]

  /** One round constant per round and one initial word per working
      variable, with the first and last initial words. */
  lemma ConstantsShape()
    ensures |K| == 64
    ensures |H0| == 8
    ensures H0[0] == 0x6a09e667
    ensures H0[7] == 0x5be0cd19
  {
  }

  /** 2^64: `Ctx::len` and the bit length are `uint64_t`. */
  const Two64: nat := 0x1_0000_0000_0000_0000

  // ---------------------------------------------------------------------
  // Section 6.2.2 of FIPS 180-4: one 64-byte block

  /** Word t of a block, read big-endian from bytes 4t..4t+3. */
  function BlockWord(block: seq<bv8>, t: nat): bv32
    requires |block| == 64 && t < 16
  {
    Be32(block[4 * t], block[4 * t + 1], block[4 * t + 2], block[4 * t + 3])
  }

  /** The message schedule W_t of section 6.2.2, step 1. */
  function W(block: seq<bv8>, t: nat): bv32
    requires |block| == 64 && t < 64
  {
    if t < 16 then BlockWord(block, t)
    else Add(Add(Add(Sm1(W(block, t - 2)), W(block, t - 7)), Sm0(W(block, t - 15))), W(block, t - 16))
  }

  /** Eight words: the working variables a..h, or a hash value H0..H7. */
  datatype Vars = Vars(a: bv32, b: bv32, c: bv32, d: bv32, e: bv32, f: bv32, g: bv32, h: bv32)

  function VarsOf(hs: seq<bv32>): Vars
    requires |hs| == 8
  {
    Vars(hs[0], hs[1], hs[2], hs[3], hs[4], hs[5], hs[6], hs[7])
  }

  function VarsSeq(v: Vars): (s: seq<bv32>)
    ensures |s| == 8
  {
    [v.a, v.b, v.c, v.d, v.e, v.f, v.g, v.h]
  }

  /** Word-wise wrapping sum. */
  function AddVars(x: Vars, y: Vars): Vars
  {
    Vars(Add(x.a, y.a), Add(x.b, y.b), Add(x.c, y.c), Add(x.d, y.d),
         Add(x.e, y.e), Add(x.f, y.f), Add(x.g, y.g), Add(x.h, y.h))
  }

  /** One round (section 6.2.2, step 3). */
  function Round(v: Vars, k: bv32, w: bv32): Vars
  {
    var t1 := Add(Add(Add(Add(v.h, Big1(v.e)), Ch(v.e, v.f, v.g)), k), w);
    var t2 := Add(Big0(v.a), Maj(v.a, v.b, v.c));
    Vars(Add(t1, t2), v.a, v.b, v.c, Add(v.d, t1), v.e, v.f, v.g)
  }

  /** The working variables after the first i rounds over `block`. */
  function Rounds(v0: Vars, block: seq<bv8>, i: nat): Vars
    requires |block| == 64 && i <= 64
  {
    if i == 0 then v0 else Round(Rounds(v0, block, i - 1), K[i - 1], W(block, i - 1))
  }

  /** The new hash value after one block (section 6.2.2, step 4). */
  function Compress(hv: Vars, block: seq<bv8>): Vars
    requires |block| == 64
  {
    AddVars(hv, Rounds(hv, block, 64))
  }

  /** The hash value after every whole block of `m`, starting from H0. */
  function HashBlocks(m: seq<bv8>): Vars
    requires |m| % 64 == 0
    decreases |m|, 1
  {
    if m == [] then VarsOf(H0) else HashLast(m)
  }

  /** The hash value of a non-empty run of blocks: the last block
      compressed into the hash value of the others. (Kept apart from
      `HashBlocks` so that one unfolding of `HashBlocks` does not expose
      the 64 rounds.) */
  function HashLast(m: seq<bv8>): Vars
    requires |m| % 64 == 0 && |m| >= 64
    decreases |m|, 0
  {
    Compress(HashBlocks(m[..|m| - 64]), m[|m| - 64..])
  }

  // ---------------------------------------------------------------------
  // Section 5.1.1 of FIPS 180-4: padding

  function Pow256(i: nat): (p: nat)
    ensures p >= 1
  {
    if i == 0 then 1 else 256 * Pow256(i - 1)
  }

  /** The number of zero bytes that bring a length n to 56 modulo 64. */
  function ZerosTo56(n: nat): (k: nat)
    ensures k < 64 && (n + k) % 64 == 56
  {
    (56 - n % 64) % 64
  }

  /** The number of zero bytes after the 0x80 byte. */
  function PadZeros(n: nat): (k: nat)
    ensures k < 64
  {
    ZerosTo56(n + 1)
  }

  /** A 64-bit value as eight bytes, most significant first. */
  function LengthBytes(l: nat): (r: seq<bv8>)
    ensures |r| == 8
  {
    seq(8, j requires 0 <= j < 8 => ((l / Pow256(7 - j)) % 256) as bv8)
  }

  /** The bit length `len * 8` as the `uint64_t` arithmetic computes it. */
  function BitLength(n: nat): nat
  {
    (n * 8) % Two64
  }

  function Padding(n: nat): (p: seq<bv8>)
  {
    [0x80] + seq(PadZeros(n), _ => 0) + LengthBytes(BitLength(n))
  }

  function Digest(m: seq<bv8>): Vars
  {
    PaddedLength(|m|);
    HashBlocks(m + Padding(|m|))
  }

  // ---------------------------------------------------------------------
  // Output: eight words as eight zero-padded lowercase hex digits each

  function WordHex(w: bv32): (s: string)
    ensures |s| == 8
  {
    BitsToHex(BitsOf(w as int, 32))
  }

  function HexOfWords(ws: seq<bv32>): (s: string)
    ensures |s| == 8 * |ws|
  {
    if ws == [] then "" else HexOfWords(ws[..|ws| - 1]) + WordHex(ws[|ws| - 1])
  }

  function DigestHex(m: seq<bv8>): (s: string)
    ensures |s| == 64
  {
    HexOfWords(VarsSeq(Digest(m)))
  }

  /** The bytes `s.data()` points at. */
  function StringBytes(s: string): (b: seq<bv8>)
    ensures |b| == |s|
  {
    seq(|s|, i requires 0 <= i < |s| => CharByte(s[i]) as bv8)
  }

  // ---------------------------------------------------------------------
  // Lemmas about the specification

  /** The padded message is a whole number of blocks. */
  lemma PaddedLength(n: nat)
    ensures |Padding(n)| == 9 + PadZeros(n)
    ensures (n + |Padding(n)|) % 64 == 0
  {
  }

  /** The padded message is built by appending 0x80, the zeros and the
      length field in turn. */
  lemma PaddingSteps(m: seq<bv8>)
    ensures ((m + [0x80]) + seq(PadZeros(|m|), _ => 0)) + LengthBytes(BitLength(|m|)) == m + Padding(|m|)
  {
  }

  /** No shorter run of zeros reaches 56 modulo 64. */
  lemma ZerosTo56Least(n: nat, k: nat)
    requires k < ZerosTo56(n)
    ensures (n + k) % 64 != 56
  {
  }

  /** The padded message starts with the message, then the 0x80 byte,
      then zeros, and ends with the 64-bit bit length. */
  lemma PaddingLayout(m: seq<bv8>)
    ensures (m + Padding(|m|))[..|m|] == m
    ensures (m + Padding(|m|))[|m|] == 0x80
    ensures forall i :: |m| < i <= |m| + PadZeros(|m|) ==> (m + Padding(|m|))[i] == 0
    ensures (m + Padding(|m|))[|m| + 1 + PadZeros(|m|)..] == LengthBytes(BitLength(|m|))
  {
  }

  /** Hex output round trip: every word's digits decode back to its bits. */
  lemma WordHexBits(w: bv32)
    ensures IsLowerHexString(WordHex(w))
    ensures HexToBits(WordHex(w)) == BitsOf(w as int, 32)
  {
    BitsToHexIsLowerHex(BitsOf(w as int, 32));
    HexToBitsOfBitsToHex(BitsOf(w as int, 32));
  }

  lemma {:induction false} HexOfWordsLowerHex(ws: seq<bv32>)
    ensures IsLowerHexString(HexOfWords(ws))
  {
    if ws != [] {
      HexOfWordsLowerHex(ws[..|ws| - 1]);
      WordHexBits(ws[|ws| - 1]);
    }
  }

  /** Every digest prints as 64 lowercase hex digits. */
  lemma DigestHexLowerHex(m: seq<bv8>)
    ensures |DigestHex(m)| == 64 && IsLowerHexString(DigestHex(m))
  {
    HexOfWordsLowerHex(VarsSeq(Digest(m)));
  }

  /** Hex digit group i of the output is word i. */
  lemma {:induction false} HexOfWordsAt(ws: seq<bv32>, i: nat)
    requires i < |ws|
    ensures HexOfWords(ws)[8 * i .. 8 * i + 8] == WordHex(ws[i])
  {
    var init := ws[..|ws| - 1];
    var h := HexOfWords(ws);
    assert h == HexOfWords(init) + WordHex(ws[|ws| - 1]);
    if i < |ws| - 1 {
      assert h[8 * i .. 8 * i + 8] == HexOfWords(init)[8 * i .. 8 * i + 8];
      assert init[i] == ws[i];
      HexOfWordsAt(init, i);
    } else {
      assert h[8 * i .. 8 * i + 8] == WordHex(ws[|ws| - 1]);
    }
  }

  /** Hashing block by block: the hash of m + b is one more compression. */
  lemma HashBlocksSnoc(m: seq<bv8>, b: seq<bv8>)
    requires |m| % 64 == 0 && |b| == 64
    ensures HashBlocks(m + b) == Compress(HashBlocks(m), b)
  {
    var mb := m + b;
    assert mb[..|mb| - 64] == m;
    assert mb[|mb| - 64..] == b;
  }

  /** Counting bytes modulo 2^64 before or after adding gives the same
      `len`. */
  lemma WrapAdd(n: nat, k: nat)
    ensures (n % Two64 + k) % Two64 == (n + k) % Two64
  {
    var q := n / Two64;
    assert n == q * Two64 + n % Two64;
    assert n + k == q * Two64 + (n % Two64 + k);
  }

  /** The bit length computed from the wrapped byte count is the wrapped
      bit length of the whole message. */
  lemma WrapMul8(n: nat)
    ensures ((n % Two64) * 8) % Two64 == BitLength(n)
  {
    var q := n / Two64;
    assert n == q * Two64 + n % Two64;
    assert n * 8 == (q * 8) * Two64 + (n % Two64) * 8;
  }

  /** A chaining value that is the hash of the padded message prints as
      the message's digest. */
  lemma StateDigest(st: seq<bv32>, m: seq<bv8>, padded: seq<bv8>)
    requires |st| == 8 && |padded| % 64 == 0 && padded == m + Padding(|m|)
    requires VarsOf(st) == HashBlocks(padded)
    ensures HexOfWords(st) == DigestHex(m)
  {
    assert st == VarsSeq(VarsOf(st));
  }

  // ---------------------------------------------------------------------
  // The streaming context

  class Ctx {
    /** `len`: the number of bytes fed so far, modulo 2^64. */
    var len: nat
    /** `state[8]`: the chaining value H0..H7. */
    var state: seq<bv32>
    /** `buf[64]` and `buf_len`: the bytes not yet compressed. */
    var buf: seq<bv8>
    var bufLen: nat
    /** Every byte fed so far. */
    ghost var msg: seq<bv8>
    /** The bytes already compressed into `state`: whole blocks. */
    ghost var blocks: seq<bv8>

    /** The buffer invariant: the message is the compressed blocks followed
        by the buffered bytes, fewer than 64 bytes are buffered, and the
        state is the hash value of the compressed blocks. */
    ghost predicate Buffered()
      reads this
    {
      && |state| == 8 && |buf| == 64 && bufLen < 64
      && |blocks| % 64 == 0
      && VarsOf(state) == HashBlocks(blocks)
      && msg == blocks + buf[..bufLen]
    }

    ghost predicate Valid()
      reads this
    {
      Buffered() && len == |msg| % Two64
    }

    /** A fresh context: H0, nothing buffered, length 0. */
    constructor ()
      ensures Valid() && msg == []
    {
      len := 0;
      state := H0;
      buf := seq(64, _ => 0);
      bufLen := 0;
      msg := [];
      blocks := [];
    }

    /** `process`: compress one 64-byte block into the state. */
    method Process(b: seq<bv8>)
      requires |state| == 8 && |b| == 64
      modifies this`state
      ensures |state| == 8
      ensures VarsOf(state) == Compress(VarsOf(old(state)), b)
    {
      var w := Schedule(b);
      ghost var v0 := VarsOf(state);
      var a, b2, c2, d := state[0], state[1], state[2], state[3];
      var e, f, g, h := state[4], state[5], state[6], state[7];
      for i := 0 to 64
        modifies {}
        invariant Vars(a, b2, c2, d, e, f, g, h) == Rounds(v0, b, i)
      {
        var t1 := Add(Add(Add(Add(h, Big1(e)), Ch(e, f, g)), K[i]), w[i]);
        var t2 := Add(Big0(a), Maj(a, b2, c2));
        h := g; g := f; f := e; e := Add(d, t1); d := c2; c2 := b2; b2 := a; a := Add(t1, t2);
      }
      AddInto([a, b2, c2, d, e, f, g, h]);
    }

    /** The first two loops of `process`: the message schedule, the 16
        big-endian words of the block and then 48 derived words. */
    static method Schedule(b: seq<bv8>) returns (w: array<bv32>)
      requires |b| == 64
      ensures fresh(w) && w.Length == 64
      ensures forall j :: 0 <= j < 64 ==> w[j] == W(b, j)
    {
      w := new bv32[64];
      for i := 0 to 16
        invariant forall j :: 0 <= j < i ==> w[j] == W(b, j)
      {
        w[i] := Be32(b[i * 4], b[i * 4 + 1], b[i * 4 + 2], b[i * 4 + 3]);
      }
      for i := 16 to 64
        invariant forall j :: 0 <= j < i ==> w[j] == W(b, j)
      {
        w[i] := Add(Add(Add(Sm1(w[i - 2]), w[i - 7]), Sm0(w[i - 15])), w[i - 16]);
      }
    }

    /** The last loop of `process`: the working variables added into the
        state word by word. */
    method AddInto(st: seq<bv32>)
      requires |state| == 8 && |st| == 8
      modifies this`state
      ensures |state| == 8
      ensures VarsOf(state) == AddVars(VarsOf(old(state)), VarsOf(st))
    {
      ghost var hs := state;
      for i := 0 to 8
        invariant |state| == 8
        invariant forall j :: 0 <= j < i ==> state[j] == Add(hs[j], st[j])
        invariant forall j :: i <= j < 8 ==> state[j] == hs[j]
      {
        state := state[i := Add(state[i], st[i])];
      }
    }

    /** A full buffer is compressed into the state and emptied. */
    method Flush()
      requires |state| == 8 && |buf| == 64 && bufLen == 64
      requires |blocks| % 64 == 0 && VarsOf(state) == HashBlocks(blocks)
      requires msg == blocks + buf
      modifies this`bufLen, this`blocks, this`state
      ensures Buffered() && bufLen == 0 && msg == old(msg)
    {
      Process(buf);
      HashBlocksSnoc(blocks, buf);
      blocks := blocks + buf;
      bufLen := 0;
      assert msg == blocks + buf[..bufLen];
    }

    /** One pass of `update`'s loop: as many bytes as fit are copied into
        the buffer (the `memcpy`), and a full buffer is compressed and
        emptied. */
    method Absorb(data: seq<bv8>, p: nat) returns (take: nat)
      requires Buffered() && p < |data|
      modifies this`bufLen, this`buf, this`msg, this`blocks, this`state
      ensures Buffered()
      ensures take == if |data| - p < 64 - old(bufLen) then |data| - p else 64 - old(bufLen)
      ensures msg == old(msg) + data[p .. p + take]
    {
      take := if |data| - p < 64 - bufLen then |data| - p else 64 - bufLen;
      buf := buf[..bufLen] + data[p .. p + take] + buf[bufLen + take..];
      msg := msg + data[p .. p + take];
      bufLen := bufLen + take;
      assert buf[..bufLen] == old(buf[..bufLen]) + data[p .. p + take];
      if bufLen == 64 {
        assert buf[..bufLen] == buf;
        Flush();
      }
    }

    /** `update`: count the bytes, then feed them through the buffer. */
    method Update(data: seq<bv8>)
      requires Valid()
      modifies this
      ensures Valid()
      ensures msg == old(msg) + data
    {
      WrapAdd(|msg|, |data|);
      len := (len + |data|) % Two64;
      Feed(data);
    }

    /** The loop of `update`: the bytes of `data` appended to the message,
        each block compressed as soon as the buffer fills. */
    method Feed(data: seq<bv8>)
      requires Buffered()
      modifies this`bufLen, this`buf, this`msg, this`blocks, this`state
      ensures Buffered()
      ensures msg == old(msg) + data
    {
      var rest := |data|;
      var p := 0;
      while rest != 0
        invariant 0 <= p <= |data| && rest == |data| - p
        invariant Buffered()
        invariant msg == old(msg) + data[..p]
      {
        var take := Absorb(data, p);
        assert data[..p] + data[p .. p + take] == data[..p + take];
        p := p + take;
        rest := rest - take;
      }
      assert data[..p] == data;
    }

    /** With the buffer invariant, `buf_len` is the message length modulo
        64. */
    lemma BufferedLength()
      requires Buffered()
      ensures bufLen == |msg| % 64
    {
      assert |msg| == |blocks| + bufLen;
    }

    /** The zero loop of `finalize`: zero bytes fed one at a time until 56
        bytes are buffered. */
    method ZeroFill()
      requires Valid()
      modifies this
      ensures Valid()
      ensures msg == old(msg) + seq(ZerosTo56(|old(msg)|), _ => 0)
    {
      ghost var m := msg;
      ghost var k := 0;
      while bufLen != 56
        invariant Valid()
        invariant msg == m + seq(k, _ => 0)
        invariant k <= ZerosTo56(|m|)
        decreases ZerosTo56(|m|) - k
      {
        BufferedLength();
        Update([0]);
        k := k + 1;
        assert seq(k, _ => 0) == seq(k - 1, _ => 0) + [0];
      }
      BufferedLength();
      if k < ZerosTo56(|m|) {
        ZerosTo56Least(|m|, k);
      }
    }

    /** The output loop of `finalize`: each state word as eight zero-padded
        hex digits. */
    method StateHex() returns (hex: string)
      requires |state| == 8
      ensures hex == HexOfWords(state)
    {
      hex := "";
      for i := 0 to 8
        invariant hex == HexOfWords(state[..i])
      {
        assert state[..i + 1][..i] == state[..i];
        hex := hex + WordHex(state[i]);
      }
      assert state[..8] == state;
    }

    /** The padding half of `finalize`: 0x80, zeros up to 56 bytes modulo
        64, then the 64-bit bit length; afterwards every byte is compressed. */
    method Pad()
      requires Valid()
      modifies this
      ensures Valid() && bufLen == 0
      ensures msg == old(msg) + Padding(|old(msg)|) && msg == blocks
    {
      ghost var m := msg;
      var bitLen := (len * 8) % Two64;
      WrapMul8(|m|);
      Update([0x80]);
      ghost var marked := msg;
      ZeroFill();
      ghost var zeroed := msg;
      assert zeroed == marked + seq(PadZeros(|m|), _ => 0);
      var lenb := LengthField(bitLen);
      Update(lenb[..]);
      assert msg == zeroed + LengthBytes(BitLength(|m|));
      PaddingSteps(m);
      PaddedLength(|m|);
      BufferedLength();
    }

    /** `finalize`: pad the message and print the state as 64 hex digits.
        The context is left holding the padded message, a whole number of
        blocks, with nothing buffered. */
    method Finalize() returns (hex: string)
      requires Valid()
      modifies this
      ensures Valid() && bufLen == 0
      ensures msg == old(msg) + Padding(|old(msg)|) && |msg| % 64 == 0
      ensures hex == DigestHex(old(msg))
    {
      ghost var m := msg;
      Pad();
      hex := StateHex();
      StateDigest(state, m, blocks);
    }
  }

  /** The `lenb` loop of `finalize`: the bit length as eight big-endian
      bytes. */
  method LengthField(bitLen: nat) returns (lenb: array<bv8>)
    ensures fresh(lenb)
    ensures lenb[..] == LengthBytes(bitLen)
  {
    lenb := new bv8[8];
    for i := 0 to 8
      invariant forall j :: 7 - i < j < 8 ==> lenb[j] == LengthBytes(bitLen)[j]
    {
      lenb[7 - i] := ((bitLen / Pow256(i)) % 256) as bv8;
    }
  }

  /** `hash`: a fresh context fed the bytes of `s`, then finalised. */
  method Hash(s: string) returns (hex: string)
    ensures hex == DigestHex(StringBytes(s))
    ensures |hex| == 64 && IsLowerHexString(hex)
  {
    var data := StringBytes(s);
    var c := new Ctx();
    c.Update(data);
    assert c.msg == data;
    hex := c.Finalize();
    DigestHexLowerHex(data);
  }
}
