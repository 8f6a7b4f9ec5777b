// The blockchain of exercice4.cpp: transactions, their Merkle root, blocks
// sealed by proof of work or proof of stake, and the chain that links them.

module Ledger {
  import opened BitCodec
  import opened HashFn
  import opened Merkle
  import opened ProofOfWork
  import opened Stake

  /** `struct Transaction`; the `double` amount is a real number. */
  datatype Transaction = Transaction(sender: string, receiver: string, amount: real)

  /** `class Block`: the chain stores copies, so a block is a value. `hash`
      stays "" until the block is sealed. */
  datatype Block = Block(
    index: int,
    previousHash: string,
    hash: string,
    merkleRoot: string,
    transactions: seq<Transaction>,
    timestamp: int)

  /** The leaf of a transaction: `sha256(sender + receiver +
      to_string(amount))`, where `amountText` stands for `to_string` on a
      `double`. */
  function Leaf(sha: Sha256Fn, amountText: real -> string, t: Transaction): string
  {
    sha(t.sender + t.receiver + amountText(t.amount))
  }

  function Leaves(sha: Sha256Fn, amountText: real -> string, txs: seq<Transaction>): (leaves: seq<string>)
    ensures |leaves| == |txs|
    ensures forall i :: 0 <= i < |txs| ==> leaves[i] == Leaf(sha, amountText, txs[i])
  {
    seq(|txs|, i requires 0 <= i < |txs| => Leaf(sha, amountText, txs[i]))
  }

  /** The Merkle root of a block's transactions. */
  function TxRoot(sha: Sha256Fn, amountText: real -> string, txs: seq<Transaction>): string
  {
    RootOf(sha, Leaves(sha, amountText, txs))
  }

  const GenesisTx: Transaction := Transaction("System", "Genesis", 0.0)

  /** The first block: index 0, previous hash "0", one transaction from
      "System", hash `sha256("Genesis Block")`. */
  function Genesis(sha: Sha256Fn, amountText: real -> string, now: int): Block
  {
    Block(0, "0", sha("Genesis Block"), TxRoot(sha, amountText, [GenesisTx]), [GenesisTx], now)
  }

  /** Block `b` sits at position i after block `prev`: its index is i, it
      names the previous block's hash and its root is its transactions'. */
  predicate Follows(sha: Sha256Fn, amountText: real -> string, prev: Block, b: Block, i: int)
  {
    b.index == i && b.previousHash == prev.hash && b.merkleRoot == TxRoot(sha, amountText, b.transactions)
  }

  /** The chain starts with a genesis block and every later block follows
      the one before it. */
  predicate Linked(sha: Sha256Fn, amountText: real -> string, chain: seq<Block>)
  {
    && |chain| >= 1
    && chain[0] == Genesis(sha, amountText, chain[0].timestamp)
    && forall i :: 0 <= i < |chain| - 1 ==> Follows(sha, amountText, chain[i], chain[i + 1], i + 1)
  }

  // ---------------------------------------------------------------------
  // Lemmas

  /** A single transaction's root is its leaf; more than one give a digest
      of 64 hex digits when `sha256` prints one. */
  lemma TxRootShape(sha: Sha256Fn, amountText: real -> string, txs: seq<Transaction>)
    requires PrintsHexDigest(sha) && |txs| >= 1
    ensures |txs| == 1 ==> TxRoot(sha, amountText, txs) == Leaf(sha, amountText, txs[0])
    ensures |TxRoot(sha, amountText, txs)| == 64 && IsLowerHexString(TxRoot(sha, amountText, txs))
  {
    if |txs| >= 2 {
      RootIsHexDigest(sha, Leaves(sha, amountText, txs));
    }
  }

  /** Appending a block that follows the last one keeps the chain linked. */
  lemma LinkedAppend(sha: Sha256Fn, amountText: real -> string, chain: seq<Block>, b: Block)
    requires Linked(sha, amountText, chain)
    requires Follows(sha, amountText, chain[|chain| - 1], b, |chain|)
    ensures Linked(sha, amountText, chain + [b])
  {
    var c := chain + [b];
    forall i | 0 <= i < |c| - 1
      ensures Follows(sha, amountText, c[i], c[i + 1], i + 1)
    {
      if i < |chain| - 1 {
        assert c[i] == chain[i] && c[i + 1] == chain[i + 1];
      }
    }
  }

  /** In a linked chain block i carries index i, and every block after
      the first names its predecessor's hash. */
  lemma LinkedIndices(sha: Sha256Fn, amountText: real -> string, chain: seq<Block>, i: nat)
    requires Linked(sha, amountText, chain) && i < |chain|
    ensures chain[i].index == i
    ensures i > 0 ==> chain[i].previousHash == chain[i - 1].hash
  {
    if i > 0 {
      assert Follows(sha, amountText, chain[i - 1], chain[i], i);
    }
  }

  // ---------------------------------------------------------------------
  // The C++ functions

  /** `computeMerkleRoot`: "" for no transactions, otherwise the leaves of
      the transactions combined pairwise up to a single root. */
  method ComputeMerkleRoot(sha: Sha256Fn, amountText: real -> string, txs: seq<Transaction>)
    returns (root: string)
    ensures root == TxRoot(sha, amountText, txs)
    ensures txs == [] ==> root == ""
    ensures |txs| == 1 ==> root == Leaf(sha, amountText, txs[0])
  {
    if |txs| == 0 {
      return "";
    }
    var hashes := [];
    for i := 0 to |txs|
      invariant |hashes| == i
      invariant forall k :: 0 <= k < i ==> hashes[k] == Leaf(sha, amountText, txs[k])
    {
      var t := txs[i];
      hashes := hashes + [sha(t.sender + t.receiver + amountText(t.amount))];
    }
    assert hashes == Leaves(sha, amountText, txs);
    root := MerkleRoot(sha, hashes);
  }

  /** The `Block` constructor: the time is a parameter; the Merkle root is
      computed and the hash left empty. */
  method NewBlock(sha: Sha256Fn, amountText: real -> string, idx: int, prev: string, txs: seq<Transaction>, now: int)
    returns (b: Block)
    ensures b == Block(idx, prev, "", TxRoot(sha, amountText, txs), txs, now)
  {
    var root := ComputeMerkleRoot(sha, amountText, txs);
    b := Block(idx, prev, "", root, txs, now);
  }

  /** `class Blockchain`. */
  class Blockchain {
    const sha: Sha256Fn
    const amountText: real -> string
    var chain: seq<Block>

    ghost predicate Valid()
      reads this
    {
      Linked(sha, amountText, chain)
    }

    /** The constructor: a chain holding only the genesis block, created
        at time `now`. */
    constructor (sha: Sha256Fn, amountText: real -> string, now: int)
      ensures this.sha == sha && this.amountText == amountText
      ensures chain == [Genesis(sha, amountText, now)]
      ensures Valid()
    {
      this.sha := sha;
      this.amountText := amountText;
      var genesisTx := [Transaction("System", "Genesis", 0.0)];
      var g := NewBlock(sha, amountText, 0, "0", genesisTx, now);
      chain := [g];
      new;
      chain := chain[0 := chain[0].(hash := sha("Genesis Block"))];
    }

    /** `createBlock`: a block at the next index that names the hash of
        the last block; not yet sealed and not yet added. */
    method CreateBlock(txs: seq<Transaction>, now: int) returns (b: Block)
      requires Valid()
      ensures b.index == |chain| && b.previousHash == chain[|chain| - 1].hash
      ensures b.merkleRoot == TxRoot(sha, amountText, txs) && b.transactions == txs
      ensures b.timestamp == now && b.hash == ""
      ensures Follows(sha, amountText, chain[|chain| - 1], b, |chain|)
    {
      b := NewBlock(sha, amountText, |chain|, chain[|chain| - 1].hash, txs, now);
    }

    /** `addBlockPOW`: the new block is sealed with the first hash of
        `previousHash + merkleRoot + nonce` that starts with `difficulty`
        zeros; `stopAt` is a nonce known to qualify. */
    method AddBlockPOW(txs: seq<Transaction>, difficulty: nat, now: int, ghost stopAt: nat)
      requires Valid()
      requires Qualifies(sha, chain[|chain| - 1].hash + TxRoot(sha, amountText, txs), difficulty, stopAt)
      requires stopAt < 0x7fff_ffff
      modifies this
      ensures Valid()
      ensures |chain| == |old(chain)| + 1 && chain[..|old(chain)|] == old(chain)
      ensures var b := chain[|chain| - 1];
        && b.index == |old(chain)| && b.previousHash == old(chain)[|old(chain)| - 1].hash
        && b.transactions == txs && b.timestamp == now
        && b.merkleRoot == TxRoot(sha, amountText, txs)
        && ZeroPrefix(b.hash, difficulty)
        && exists k :: 0 <= k <= stopAt && b.hash == Attempt(sha, b.previousHash + b.merkleRoot, k)
             && forall j :: 0 <= j < k ==> !Qualifies(sha, b.previousHash + b.merkleRoot, difficulty, j)
    {
      var b := CreateBlock(txs, now);
      var hash, nonce := MineBlock(sha, b.previousHash, b.merkleRoot, difficulty, stopAt);
      b := b.(hash := hash);
      LinkedAppend(sha, amountText, chain, b);
      chain := chain + [b];
      assert chain[..|old(chain)|] == old(chain);
    }

    /** `addBlockPOS`: the new block is sealed with the hash of
        `previousHash + merkleRoot + validator`, for the validator the draw
        `r` selects. */
    method AddBlockPOS(txs: seq<Transaction>, stakes: seq<Entry>, r: int, now: int)
      requires Valid()
      requires 0 <= r < Sum(stakes)
      modifies this
      ensures Valid()
      ensures |chain| == |old(chain)| + 1 && chain[..|old(chain)|] == old(chain)
      ensures var b := chain[|chain| - 1];
        && b.index == |old(chain)| && b.previousHash == old(chain)[|old(chain)| - 1].hash
        && b.transactions == txs && b.timestamp == now
        && b.merkleRoot == TxRoot(sha, amountText, txs)
        && b.hash == sha(b.previousHash + b.merkleRoot + Walk(stakes, r))
    {
      var b := CreateBlock(txs, now);
      var validator, hash := ProofOfStake(sha, b.previousHash, b.merkleRoot, stakes, r);
      b := b.(hash := hash);
      LinkedAppend(sha, amountText, chain, b);
      chain := chain + [b];
      assert chain[..|old(chain)|] == old(chain);
    }
  }
}
