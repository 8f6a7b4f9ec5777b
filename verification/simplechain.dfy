/** The blockchain of atelier2/main.cpp (`SimpleBlockchain`): blocks whose
    hash is SHA-256 or the cellular-automaton hash of a text payload, sealed
    by a proof of work on the hash's leading hex zeros. */
module SimpleChain {
  import opened BitCodec
  import opened HashFn
  import opened Decimal
  import opened Automaton
  import Sha256
  import ACHash

  /** A `uint64_t`. */
  type U64 = x: int | 0 <= x < 0x1_0000_0000_0000_0000

  /** `struct Block`. */
  datatype Block = Block(
    index: int,
    prevHash: string,
    data: string,
    nonce: U64,
    timestamp: string,
    hash: string)

  /** `enum class HashMode`. */
  datatype HashMode = Sha256Mode | AcMode

  /** `block_payload`: every field but the hash, numbers in decimal,
      separated by '|'. */
  function Payload(b: Block): (p: string)
    ensures |p| >= 4
  {
    IntToString(b.index) + "|" + b.prevHash + "|" + b.data + "|" + NatToString(b.nonce) + "|" + b.timestamp
  }

  /** `compute_hash` under the given settings: SHA-256 (FIPS 180-4) or the
      cellular-automaton hash of the payload. */
  function HashBlock(mode: HashMode, rule: Word32, steps: nat, b: Block): string
  {
    var p := Payload(b);
    if mode == Sha256Mode then Fips180(p) else ACHash.AcHashSpec(p, rule, steps)
  }

  /** A block hash: `compute_hash` as a function of the block. */
  type BlockHash = Block -> string

  /** What mining and validation depend on: the block hash and the number
      of leading zero digits a hash needs. */
  datatype Rules = Rules(hash: BlockHash, difficulty: int)

  /** The hash reads the block only through its payload. */
  ghost predicate ReadsPayload(hash: BlockHash)
  {
    forall b, c :: Payload(b) == Payload(c) ==> hash(b) == hash(c)
  }

  /** The hash does not read the stored hash. */
  ghost predicate IgnoresStoredHash(hash: BlockHash)
  {
    forall b: Block, h: string :: hash(b.(hash := h)) == hash(b)
  }

  /** The hash is always 64 lowercase hex digits. */
  ghost predicate HexDigests(hash: BlockHash)
  {
    forall b :: |hash(b)| == 64 && IsLowerHexString(hash(b))
  }

  /** The hash of `b` with nonce n meets the difficulty. */
  predicate NonceQualifies(r: Rules, b: Block, n: U64)
  {
    ZeroPrefix(r.hash(b.(nonce := n)), r.difficulty)
  }

  /** n is the least nonce that qualifies for `b`. */
  predicate LeastNonce(r: Rules, b: Block, n: U64)
  {
    NonceQualifies(r, b, n) && forall k: U64 :: k < n ==> !NonceQualifies(r, b, k)
  }

  /** `b` with nonce n, carrying the hash of that block. */
  function Seal(r: Rules, b: Block, n: U64): Block
  {
    var c := b.(nonce := n);
    c.(hash := r.hash(c))
  }

  /** A block whose stored hash is its own hash and meets the difficulty. */
  predicate Sealed(r: Rules, b: Block)
  {
    b.hash == r.hash(b) && ZeroPrefix(b.hash, r.difficulty)
  }

  /** The checks `validate_chain` makes of a block and its predecessor. */
  predicate Links(r: Rules, prev: Block, cur: Block)
  {
    cur.prevHash == prev.hash && Sealed(r, cur)
  }

  /** What `validate_chain` accepts: every block after the first names its
      predecessor's hash and is sealed. The first block is not checked. */
  predicate ChainValid(r: Rules, chain: seq<Block>)
  {
    forall i :: 1 <= i < |chain| ==> Links(r, chain[i - 1], chain[i])
  }

  /** The genesis block before mining: index 0, 64 zero digits as the
      previous hash, data "Genesis". */
  function GenesisDraft(timestamp: string): Block
  {
    Block(0, seq(64, _ => '0'), "Genesis", 0, timestamp, "")
  }

  /** The block `mine_next` starts from. */
  function NextDraft(last: Block, index: int, data: string, timestamp: string): Block
  {
    Block(index, last.hash, data, 0, timestamp, "")
  }

  // ---------------------------------------------------------------------
  // Lemmas

  /** Every nonce gives a different payload, so the search never hashes
      the same text twice. */
  lemma PayloadNonceInjective(b: Block, n1: U64, n2: U64)
    ensures Payload(b.(nonce := n1)) == Payload(b.(nonce := n2)) ==> n1 == n2
  {
    var pre := IntToString(b.index) + "|" + b.prevHash + "|" + b.data + "|";
    var post := "|" + b.timestamp;
    var s1, s2 := NatToString(n1), NatToString(n2);
    assert Payload(b.(nonce := n1)) == pre + s1 + post;
    assert Payload(b.(nonce := n2)) == pre + s2 + post;
    if pre + s1 + post == pre + s2 + post {
      assert |s1| == |s2|;
      assert s1 == (pre + s1 + post)[|pre|..|pre| + |s1|];
      assert s2 == (pre + s2 + post)[|pre|..|pre| + |s2|];
      NatToStringInjective(n1, n2);
    }
  }

  /** The separator may occur inside the fields: two blocks that differ in
      their previous hash and data have the same payload. */
  lemma PayloadAmbiguous()
    ensures Payload(Block(1, "x|", "y", 0, "t", "")) == Payload(Block(1, "x", "|y", 0, "t", ""))
  {
    assert IntToString(1) == "1" && NatToString(0) == "0";
  }

  /** Hence any hash of the payload gives those two blocks the same hash:
      `validate_chain` cannot tell them apart. */
  lemma HashCollision(hash: BlockHash)
    requires ReadsPayload(hash)
    ensures hash(Block(1, "x|", "y", 0, "t", "")) == hash(Block(1, "x", "|y", 0, "t", ""))
  {
    PayloadAmbiguous();
  }

  /** Both hash modes produce 64 lowercase hex digits. */
  lemma HashShape(mode: HashMode, rule: Word32, steps: nat, b: Block)
    ensures |HashBlock(mode, rule, steps, b)| == 64
    ensures IsLowerHexString(HashBlock(mode, rule, steps, b))
  {
    var p := Payload(b);
    if mode == Sha256Mode {
      Sha256.DigestHexLowerHex(Sha256.StringBytes(p));
    } else {
      BitsToHexIsLowerHex(ACHash.Digest(ACHash.InitialState(p), rule, steps));
    }
  }

  /** `compute_hash` reads only the payload and prints 64 hex digits, in
      either mode. */
  lemma HashBlockFacts(mode: HashMode, rule: Word32, steps: nat, hash: BlockHash)
    requires forall b :: hash(b) == HashBlock(mode, rule, steps, b)
    ensures ReadsPayload(hash) && IgnoresStoredHash(hash) && HexDigests(hash)
  {
    forall b: Block, h: string
      ensures hash(b.(hash := h)) == hash(b)
    {
      assert Payload(b.(hash := h)) == Payload(b);
    }
    forall b
      ensures |hash(b)| == 64 && IsLowerHexString(hash(b))
    {
      HashShape(mode, rule, steps, b);
    }
  }

  /** A difficulty above 64 is never met: the mining loop would not end. */
  lemma NoNonceAbove64(r: Rules, b: Block, n: U64)
    requires HexDigests(r.hash) && r.difficulty > 64
    ensures !NonceQualifies(r, b, n)
  {
    assert |r.hash(b.(nonce := n))| == 64;
  }

  /** With a difficulty of zero or less the first nonce is taken. */
  lemma NoDifficultyFirstNonce(r: Rules, b: Block)
    requires r.difficulty <= 0
    ensures LeastNonce(r, b, 0)
  {
  }

  /** The least qualifying nonce is unique: mining is deterministic. */
  lemma LeastNonceUnique(r: Rules, b: Block, n: U64, m: U64)
    requires LeastNonce(r, b, n) && LeastNonce(r, b, m)
    ensures n == m
  {
    assert n < m ==> !NonceQualifies(r, b, n);
    assert m < n ==> !NonceQualifies(r, b, m);
  }

  /** The next attempt of the search: the sealed block with its nonce
      stepped, hashed again, is the block sealed with the next nonce. */
  lemma NextAttempt(r: Rules, draft: Block, n: U64)
    requires IgnoresStoredHash(r.hash)
    requires n + 1 < 0x1_0000_0000_0000_0000
    ensures var c := Seal(r, draft, n).(nonce := n + 1);
      c.(hash := r.hash(c)) == Seal(r, draft, n + 1)
  {
    var c := Seal(r, draft, n).(nonce := n + 1);
    var d := draft.(nonce := n + 1);
    assert c == d.(hash := c.hash);
  }

  /** Sealing with a qualifying nonce gives a sealed block. */
  lemma SealIsSealed(r: Rules, b: Block, n: U64)
    requires IgnoresStoredHash(r.hash)
    requires NonceQualifies(r, b, n)
    ensures Sealed(r, Seal(r, b, n))
    ensures Seal(r, b, n).nonce == n
  {
    var c := b.(nonce := n);
    assert r.hash(c.(hash := r.hash(c))) == r.hash(c);
  }

  /** A chain extended by one block is valid exactly when the chain was
      valid and the block links to its last block. */
  lemma ChainValidAppend(r: Rules, chain: seq<Block>, b: Block)
    requires |chain| > 0
    ensures ChainValid(r, chain + [b]) <==> ChainValid(r, chain) && Links(r, chain[|chain| - 1], b)
  {
    var c := chain + [b];
    if ChainValid(r, c) {
      forall i | 1 <= i < |chain|
        ensures Links(r, chain[i - 1], chain[i])
      {
        assert Links(r, c[i - 1], c[i]);
      }
      assert Links(r, c[|chain| - 1], c[|chain|]);
    }
    if ChainValid(r, chain) && Links(r, chain[|chain| - 1], b) {
      forall i | 1 <= i < |c|
        ensures Links(r, c[i - 1], c[i])
      {
        if i < |chain| {
          assert c[i - 1] == chain[i - 1] && c[i] == chain[i];
        }
      }
    }
  }

  /** Replacing a block that has a successor by one with another hash
      breaks the successor's link: the chain no longer validates. */
  lemma ChangedHashBreaksChain(r: Rules, chain: seq<Block>, i: nat, b: Block)
    requires ChainValid(r, chain) && i + 1 < |chain|
    requires b.hash != chain[i].hash
    ensures !ChainValid(r, chain[i := b])
  {
    var c := chain[i := b];
    assert Links(r, chain[i], chain[i + 1]);
    assert c[i + 1] == chain[i + 1];
    assert !Links(r, c[i], c[i + 1]);
  }

  /** Changing the previous hash a block names breaks its link to its
      predecessor, whatever else the block holds. */
  lemma ChangedPrevHashBreaksChain(r: Rules, chain: seq<Block>, i: nat, p: string)
    requires ChainValid(r, chain) && 1 <= i < |chain|
    requires p != chain[i].prevHash
    ensures !ChainValid(r, chain[i := chain[i].(prevHash := p)])
  {
    var c := chain[i := chain[i].(prevHash := p)];
    assert Links(r, chain[i - 1], chain[i]);
    assert c[i - 1] == chain[i - 1];
    assert !Links(r, c[i - 1], c[i]);
  }

  /** Changing the data or the nonce of a block after the first breaks the
      chain, provided the change changes the block's hash (no collision):
      either the stored hash is kept and no longer matches the block, or
      it is replaced and the successor no longer names it. */
  lemma ChangedDataOrNonceBreaksChain(r: Rules, chain: seq<Block>, i: nat, d: string, n: U64, h: string)
    requires ChainValid(r, chain) && 1 <= i < |chain|
    requires r.hash(chain[i].(data := d, nonce := n, hash := h)) != r.hash(chain[i])
    requires h == chain[i].hash || i + 1 < |chain|
    ensures !ChainValid(r, chain[i := chain[i].(data := d, nonce := n, hash := h)])
  {
    var b := chain[i].(data := d, nonce := n, hash := h);
    var c := chain[i := b];
    assert Links(r, chain[i - 1], chain[i]);
    if h == chain[i].hash {
      assert b.hash == r.hash(chain[i]) != r.hash(b);
      assert c[i] == b && !Links(r, c[i - 1], c[i]);
    } else {
      ChangedHashBreaksChain(r, chain, i, b);
    }
  }

  /** The first block is never checked: replacing it by any block with the
      same stored hash leaves a valid chain valid. */
  lemma ChangedGenesisUnnoticed(r: Rules, chain: seq<Block>, g: Block)
    requires ChainValid(r, chain) && |chain| >= 1
    requires g.hash == chain[0].hash
    ensures ChainValid(r, chain[0 := g])
  {
    var c := chain[0 := g];
    forall i | 1 <= i < |c|
      ensures Links(r, c[i - 1], c[i])
    {
      assert Links(r, chain[i - 1], chain[i]);
      assert c[i] == chain[i];
    }
  }

  // ---------------------------------------------------------------------
  // The C++ structure

  /** `struct SimpleBlockchain`. */
  class SimpleBlockchain {
    var chain: seq<Block>
    var mode: HashMode
    var acRule: Word32
    var acSteps: nat
    var difficulty: int
    /** `compute_hash` under the current settings, as a function. */
    ghost var hashFn: BlockHash

    /** `hashFn` is `compute_hash` under the current settings. The trigger
        keeps the two hash definitions out of proofs that only apply
        `hashFn`. */
    ghost predicate Valid()
      reads this
    {
      && (forall b {:trigger HashBlock(mode, acRule, acSteps, b)} :: hashFn(b) == HashBlock(mode, acRule, acSteps, b))
      && IgnoresStoredHash(hashFn)
    }

    ghost function CurrentRules(): Rules
      reads this
    {
      Rules(hashFn, difficulty)
    }

    /** The default member initialisers: SHA-256, rule 30, 128 steps,
        four leading zeros, no blocks. */
    constructor ()
      ensures Valid()
      ensures chain == [] && mode == Sha256Mode
      ensures acRule == 30 && acSteps == 128 && difficulty == 4
    {
      chain := [];
      mode := Sha256Mode;
      acRule := 30;
      acSteps := 128;
      difficulty := 4;
      hashFn := b => HashBlock(Sha256Mode, 30, 128, b);
      new;
      HashBlockFacts(mode, acRule, acSteps, hashFn);
    }

    /** Setting the public fields, as `main` does before mining. */
    method Configure(m: HashMode, rule: Word32, steps: nat, d: int)
      modifies this
      ensures Valid()
      ensures mode == m && acRule == rule && acSteps == steps && difficulty == d
      ensures chain == old(chain)
    {
      mode, acRule, acSteps, difficulty := m, rule, steps, d;
      hashFn := b => HashBlock(m, rule, steps, b);
      HashBlockFacts(mode, acRule, acSteps, hashFn);
    }

    /** `compute_hash` */
    method ComputeHash(b: Block) returns (h: string)
      requires Valid()
      ensures h == HashBlock(mode, acRule, acSteps, b) && h == hashFn(b)
      ensures |h| == 64 && IsLowerHexString(h)
    {
      HashShape(mode, acRule, acSteps, b);
      var payload := Payload(b);
      if mode == Sha256Mode {
        h := Sha256.Hash(payload);
      } else {
        h := ACHash.AcHash(payload, acRule, acSteps);
      }
      assert h == HashBlock(mode, acRule, acSteps, b);
    }

    /** `valid_hash`: the first `difficulty_prefix_zeros` characters are
        '0'. Reading position |h| yields the string's terminating NUL, so a
        hash shorter than the difficulty is rejected there, and nothing
        past it is read. */
    method ValidHash(h: string) returns (ok: bool)
      ensures ok <==> ZeroPrefix(h, difficulty)
    {
      var i := 0;
      while i < difficulty
        invariant 0 <= i <= |h|
        invariant forall j :: 0 <= j < i ==> h[j] == '0'
      {
        var c := if i < |h| then h[i] else '\0';
        if c != '0' {
          return false;
        }
        i := i + 1;
      }
      return true;
    }

    /** One attempt of the search: hash the block, store the hash and
        test it. */
    method Try(b: Block) returns (sealed: Block, ok: bool)
      requires Valid()
      ensures sealed == b.(hash := hashFn(b))
      ensures ok <==> ZeroPrefix(sealed.hash, difficulty)
    {
      var h := ComputeHash(b);
      sealed := b.(hash := h);
      ok := ValidHash(sealed.hash);
    }

    /** The search shared by `add_genesis` and `mine_next`: hash, and while
        the hash does not qualify, step the nonce and hash again. `iters`
        counts the extra attempts. `stopAt` is a nonce known to qualify, so
        the `uint64_t` counters never wrap. */
    method Mine(draft: Block, ghost stopAt: U64) returns (b: Block, iters: U64)
      requires Valid()
      requires draft.nonce == 0
      requires NonceQualifies(CurrentRules(), draft, stopAt)
      ensures b.nonce == iters
      ensures LeastNonce(CurrentRules(), draft, iters) && b == Seal(CurrentRules(), draft, iters)
      ensures Sealed(CurrentRules(), b)
    {
      ghost var r := CurrentRules();
      iters := 0;
      var ok;
      assert draft.(nonce := 0) == draft;
      b, ok := Try(draft);
      while !ok
        invariant iters <= stopAt
        invariant b == Seal(r, draft, iters)
        invariant ok <==> NonceQualifies(r, draft, iters)
        invariant forall k: U64 :: k < iters ==> !NonceQualifies(r, draft, k)
        decreases stopAt - iters
      {
        NextAttempt(r, draft, iters);
        b, ok := Try(b.(nonce := b.nonce + 1));
        iters := iters + 1;
      }
      SealIsSealed(r, draft, iters);
    }

    /** `add_genesis`: mine the genesis block stamped `timestamp` and
        append it. */
    method AddGenesis(timestamp: string, ghost stopAt: U64)
      requires Valid()
      requires NonceQualifies(CurrentRules(), GenesisDraft(timestamp), stopAt)
      modifies this`chain
      ensures Valid()
      ensures |chain| == |old(chain)| + 1 && chain[..|old(chain)|] == old(chain)
      ensures var g := chain[|chain| - 1];
        && LeastNonce(CurrentRules(), GenesisDraft(timestamp), g.nonce)
        && g == Seal(CurrentRules(), GenesisDraft(timestamp), g.nonce)
        && Sealed(CurrentRules(), g)
    {
      var g, _ := Mine(GenesisDraft(timestamp), stopAt);
      chain := chain + [g];
      assert chain[..|old(chain)|] == old(chain);
    }

    /** `mine_next`: the next block, stamped `timestamp`, mined but not
        appended, with the number of extra attempts. The chain must not be
        empty. */
    method MineNext(data: string, timestamp: string, ghost stopAt: U64) returns (b: Block, iters: U64)
      requires Valid()
      requires |chain| > 0
      requires NonceQualifies(CurrentRules(), NextDraft(chain[|chain| - 1], |chain|, data, timestamp), stopAt)
      ensures b.nonce == iters
      ensures var draft := NextDraft(chain[|chain| - 1], |chain|, data, timestamp);
        LeastNonce(CurrentRules(), draft, iters) && b == Seal(CurrentRules(), draft, iters)
      ensures Links(CurrentRules(), chain[|chain| - 1], b)
      ensures ChainValid(CurrentRules(), chain) ==> ChainValid(CurrentRules(), chain + [b])
    {
      var draft := NextDraft(chain[|chain| - 1], |chain|, data, timestamp);
      b, iters := Mine(draft, stopAt);
      ChainValidAppend(CurrentRules(), chain, b);
    }

    /** `validate_chain` */
    method ValidateChain() returns (ok: bool)
      requires Valid()
      ensures ok <==> ChainValid(CurrentRules(), chain)
      ensures |chain| <= 1 ==> ok
    {
      var i := 1;
      while i < |chain|
        invariant 1 <= i && (|chain| == 0 ==> i == 1) && (|chain| > 0 ==> i <= |chain|)
        invariant forall j :: 1 <= j < i ==> Links(CurrentRules(), chain[j - 1], chain[j])
      {
        var prev := chain[i - 1];
        var cur := chain[i];
        if cur.prevHash != prev.hash {
          return false;
        }
        var h := ComputeHash(cur);
        if h != cur.hash {
          return false;
        }
        var valid := ValidHash(cur.hash);
        if !valid {
          return false;
        }
        i := i + 1;
      }
      return true;
    }
  }
}
