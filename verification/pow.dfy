// The exercises' SHA-256 as an abstract function, and the proof-of-work
// nonce search shared by `mineBlock` (exercice2.cpp, exercice4.cpp) and
// `proofOfWork` (exercice3.cpp).

module HashFn {
  import opened BitCodec
  import Sha256

  /** The exercises' `sha256(data)`: the OpenSSL digest of the bytes of
      `data`, printed in hex. It is left abstract. */
  type Sha256Fn = string -> string

  /** What is known of its output: always 64 lowercase hex digits. */
  ghost predicate PrintsHexDigest(sha: Sha256Fn)
  {
    forall s :: |sha(s)| == 64 && IsLowerHexString(sha(s))
  }

  /** SHA-256 as defined in FIPS 180-4 (and computed by `SHA256::hash` of
      atelier2/sha256.h), applied to the bytes of a string. */
  function Fips180(s: string): string
  {
    Sha256.DigestHex(Sha256.StringBytes(s))
  }

  /** The standard's digest has the shape assumed of `sha256`. */
  lemma Fips180PrintsHexDigest()
    ensures PrintsHexDigest(Fips180)
  {
    forall s
      ensures |Fips180(s)| == 64 && IsLowerHexString(Fips180(s))
    {
      Sha256.DigestHexLowerHex(Sha256.StringBytes(s));
    }
  }

  /** `h` starts with `d` '0' characters (and is at least that long). */
  predicate ZeroPrefix(h: string, d: int)
  {
    d <= |h| && forall i :: 0 <= i < d ==> h[i] == '0'
  }
}

module ProofOfWork {
  import opened HashFn
  import opened Decimal

  /** `string prefix(difficulty, '0')`. */
  function Prefix(d: nat): (p: string)
    ensures |p| == d
  {
    seq(d, _ => '0')
  }

  /** `s.substr(0, n)`: the first n characters, or all of a shorter `s`. */
  function Substr0(s: string, n: nat): (r: string)
    ensures |r| == if n < |s| then n else |s|
  {
    if n < |s| then s[..n] else s
  }

  /** The hash tried with nonce k: `sha256(base + to_string(k))`. */
  function Attempt(sha: Sha256Fn, base: string, k: nat): string
  {
    sha(base + IntToString(k))
  }

  /** Nonce k meets the difficulty: its hash starts with d zeros. */
  predicate Qualifies(sha: Sha256Fn, base: string, d: nat, k: nat)
  {
    ZeroPrefix(Attempt(sha, base, k), d)
  }

  /** The loop's exit test says exactly that the hash starts with d zeros. */
  lemma ExitTestIsZeroPrefix(h: string, d: nat)
    ensures Substr0(h, d) == Prefix(d) <==> ZeroPrefix(h, d)
  {
    if ZeroPrefix(h, d) {
      assert Substr0(h, d) == h[..d];
    }
  }

  /** `substr` never yields more than the 64 digits of a hash, so a
      difficulty above 64 is never met and the search never ends. */
  lemma NoNonceAbove64(sha: Sha256Fn, base: string, d: nat, k: nat)
    requires PrintsHexDigest(sha) && d > 64
    ensures Substr0(Attempt(sha, base, k), d) != Prefix(d)
  {
    assert |Substr0(Attempt(sha, base, k), d)| == 64;
  }

  /** Difficulty 0 is met by the first attempt. */
  lemma ZeroDifficultyFirst(sha: Sha256Fn, base: string)
    ensures Qualifies(sha, base, 0, 0)
    ensures Attempt(sha, base, 0) == sha(base + "0")
  {
    assert IntToString(0) == "0";
  }

  /** The do-while search of `mineBlock` / `proofOfWork`: hash
      `previousHash + data + to_string(nonce)` for nonce = 0, 1, ... until
      the hash starts with `difficulty` zeros. `nonce` is the value the
      function prints afterwards. The loop is known to stop at `stopAt`,
      a nonce below the `int` limit that qualifies. */
  method MineBlock(sha: Sha256Fn, previousHash: string, data: string, difficulty: nat, ghost stopAt: nat)
    returns (hash: string, nonce: nat)
    requires Qualifies(sha, previousHash + data, difficulty, stopAt)
    requires stopAt < 0x7fff_ffff
    ensures 1 <= nonce <= stopAt + 1
    ensures hash == Attempt(sha, previousHash + data, nonce - 1)
    ensures ZeroPrefix(hash, difficulty)
    ensures forall k :: 0 <= k < nonce - 1 ==> !Qualifies(sha, previousHash + data, difficulty, k)
    ensures difficulty == 0 ==> nonce == 1 && hash == sha(previousHash + data + "0")
  {
    var prefix := Prefix(difficulty);
    nonce := 0;
    // the first pass of the do-while
    hash := sha(previousHash + data + IntToString(nonce));
    nonce := nonce + 1;
    assert hash == Attempt(sha, previousHash + data, 0);
    while Substr0(hash, difficulty) != prefix
      invariant 1 <= nonce <= stopAt + 1
      invariant hash == Attempt(sha, previousHash + data, nonce - 1)
      invariant forall k :: 0 <= k < nonce - 1 ==> !Qualifies(sha, previousHash + data, difficulty, k)
      decreases stopAt + 1 - nonce
    {
      ExitTestIsZeroPrefix(hash, difficulty);
      hash := sha(previousHash + data + IntToString(nonce));
      nonce := nonce + 1;
    }
    ExitTestIsZeroPrefix(hash, difficulty);
    if difficulty == 0 {
      ZeroDifficultyFirst(sha, previousHash + data);
      assert nonce == 1;
    }
  }
}
