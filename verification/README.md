# A verified model of a teaching blockchain

This project is a Dafny model of a small C++ teaching blockchain. It proves the promises that code makes. The model has five parts.

- **A cellular-automaton hash** (`atelier2/main.cpp`). A text is expanded to bits, replicated cyclically over a circular one-dimensional automaton and evolved under an 8-bit Wolfram rule. At each step the state is folded to 256 bits and XOR-accumulated at a rotating offset. The result is printed as 64 hex digits.
- **The `SimpleBlockchain`** that uses it (also `atelier2/main.cpp`):
  - a '|'-separated block payload;
  - a hash that is either SHA-256 or the automaton hash;
  - a leading-zero difficulty test;
  - the genesis and next-block mining loops;
  - chain validation.
- **`bit_diff`**, the Hamming distance between two digests.
- **A hand-written SHA-256** (`atelier2/sha256.h`), following FIPS 180-4. It is a streaming context with `update` and `finalize` over a 64-byte buffer.
- **The OpenSSL-based exercises** (`exercice2.cpp`, `exercice3.cpp`, `exercice4.cpp`, `atelier1/exercice1.cpp`):
  - a proof-of-work nonce search;
  - a stake-weighted validator draw;
  - the pairwise Merkle fold;
  - an append-only chain of blocks sealed by either consensus.

  There, `sha256` is a parameter of type `HashFn.Sha256Fn`. Lemmas that need its output shape assume `PrintsHexDigest`: every output is 64 lowercase hex digits. `HashFn.Fips180` is the FIPS 180-4 digest of the `Sha256` module. `HashFn.Fips180PrintsHexDigest` shows it is such a function.

Modules, one per file, in dependency order:

| File | Module | What it covers |
|---|---|---|
| `codec.dfy` | `BitCodec` | bits, hex and text codecs |
| `decimal.dfy` | `Decimal` | `to_string` on integers |
| `automaton.dfy` | `Automaton` | the automaton |
| `achash.dfy` | `ACHash` | the automaton hash |
| `sha256.dfy` | `Sha256` | SHA-256 |
| `pow.dfy` | `HashFn`, `ProofOfWork` | proof-of-work search |
| `merkle.dfy` | `Merkle` | Merkle fold |
| `stake.dfy` | `Stake` | proof-of-stake draw |
| `ledger.dfy` | `Ledger` | `exercice4.cpp` chain |
| `simplechain.dfy` | `SimpleChain` | `SimpleBlockchain` |
| `analysis.dfy` | `Analysis` | `bit_diff` |

Where the code and its documentation disagree, the model follows the code:

- `to_hex` rejects every input that is not exactly 256 bits, not merely lengths that are not a multiple of 8.
- `hex_to_bits` never rejects a character. A non-hex character gives `10 + (tolower(c) - 'a')`, which can be outside 0..15; its low four bits are kept, as the shifts do.
- `validate_chain` never checks the first block, so a changed genesis block with its stored hash kept goes unnoticed (`ChangedGenesisUnnoticed`).
- `ac_hash` reads past the end of the folded state; see Findings.

`SimpleChain` keeps the block hash behind a ghost field, `SimpleBlockchain.hashFn`. `SimpleBlockchain.Valid` ties it to `compute_hash` under the current settings. The mining and validation contracts speak of `hashFn` through `Rules`. `HashBlockFacts` shows that this hash reads only the payload and always prints 64 hex digits.

## Model

| member | source | states |
|---|---|---|
| BitCodec.TextToBits | atelier2/main.cpp:31-37 | `text_to_bits` as a function: 8 bits per character |
| BitCodec.TextToBitsOf | atelier2/main.cpp:31-37 | the loop yields 8·\|s\| bits; bits 8k..8k+8 are the bits of byte k, most significant first; the result is `TextToBits(s)` |
| BitCodec.TextToBitsGroup | atelier2/main.cpp:32-35 | group k of the output is the 8 bits of character k |
| BitCodec.TextToBitsBytes | atelier2/main.cpp:33-35 | group k read as a binary number is byte k (the char's code modulo 256) |
| BitCodec.TextToBitsSnoc | atelier2/main.cpp:33-35 | appending a character appends its 8 bits |
| BitCodec.NibbleDigit | atelier2/main.cpp:8-13 | four bits become one digit of "0123456789abcdef" |
| BitCodec.BitsToHex | atelier2/main.cpp:6-17 | the hex text of a bit string: one digit per 4 bits |
| BitCodec.ToHex | atelier2/main.cpp:6-17 | an error exactly when the input is not 256 bits long; otherwise 64 lowercase hex digits, two per byte, high nibble first, equal to `BitsToHex` |
| BitCodec.PackByte | atelier2/main.cpp:10-11 | the shift-or loop packs 8 bits into their binary value, below 256 |
| BitCodec.ToHexByte | atelier2/main.cpp:12-13 | `lut[(v >> 4) & 0xF]` and `lut[v & 0xF]` are the digits of the byte's high and low nibble |
| BitCodec.ByteNibbles | atelier2/main.cpp:12-13 | a byte's value divided and reduced by 16 are the values of its two nibbles |
| BitCodec.HexToBits | atelier2/main.cpp:19-29 | `hex_to_bits` as a function: 4 bits per character |
| BitCodec.HexToBitsOf | atelier2/main.cpp:19-29 | the loops yield 4·\|h\| bits, equal to `HexToBits(h)` |
| BitCodec.HexToBitsSnoc | atelier2/main.cpp:21-27 | appending a character appends the four low bits of its value, most significant first |
| BitCodec.HexToBitsOfBitsToHex | atelier2/main.cpp:6-29 | round trip: decoding the hex text of any bit string whose length is a multiple of 4 gives the bits back (so `hex_to_bits(to_hex(b)) == b` for 256 bits) |
| BitCodec.BitsToHexOfHexToBits | atelier2/main.cpp:6-29 | round trip the other way: encoding the bits of a lowercase hex string gives the string back |
| BitCodec.BitsToHexIsLowerHex | atelier2/main.cpp:8 | every digit produced comes from the lowercase table |
| BitCodec.HexValueOfHexDigit | atelier2/main.cpp:20-25 | a table digit decodes to its own value |
| BitCodec.HexDigitOfHexValue | atelier2/main.cpp:20-25 | a lowercase hex character has a value below 16 and is the table digit of that value |
| BitCodec.BitsOfValue | atelier2/main.cpp:26 | reading a bit string as a number and taking its bits back with `(v >> i) & 1` gives the bit string |
| BitCodec.ValueOfBitsOf | atelier2/main.cpp:11 | taking n bits of a number below 2^n and packing them gives the number |
| BitCodec.BitOfValue | atelier2/main.cpp:26 | bit i from the left of a bit string is bit \|s\|-1-i of its value |
| BitCodec.ValueAppend | atelier2/main.cpp:11 | the value of a concatenation: the left part shifted by the right part's length, plus the right part |
| BitCodec.ValueBound | atelier2/main.cpp:11 | n bits have a value below 2^n |
| Decimal.NatToString | atelier2/main.cpp:124 | `to_string` of a non-negative number: at least one digit, digits only |
| Decimal.IntToString | exercice2.cpp:29 | `to_string` of an `int`: a '-' before the digits of a negative number; at least one character |
| Decimal.ParseNatToString | atelier2/main.cpp:124 | reading the decimal text back gives the number |
| Decimal.NoLeadingZero | atelier2/main.cpp:124 | the text starts with '0' only for zero |
| Decimal.NatToStringInjective | atelier2/main.cpp:124 | different numbers print differently |
| Decimal.IntToStringInjective | atelier2/main.cpp:124 | the same for signed numbers |
| Automaton.Left | atelier2/main.cpp:55 | `(i + n - 1) % n` is the left neighbour on the circle |
| Automaton.Right | atelier2/main.cpp:57 | `(i + 1) % n` is the right neighbour on the circle |
| Automaton.NextCell | atelier2/main.cpp:46-49 | the new cell is the entry of the rule's 8-bit Wolfram table for the neighbourhood (L, C, R), the table read from 111 down to 000 |
| Automaton.Step | atelier2/main.cpp:51-61 | one synchronous update keeps the width |
| Automaton.CellularAutomaton1D.constructor | atelier2/main.cpp:44 | the automaton starts in the given state |
| Automaton.CellularAutomaton1D.Evolve | atelier2/main.cpp:51-61 | the new state is `Step` of the old one, every cell computed from the pre-update state; the width is unchanged |
| Automaton.Rule30Formula | atelier2/main.cpp:46-49 | `next_cell` under rule 30 is L xor (C or R) |
| Automaton.Rule90Formula | atelier2/main.cpp:46-49 | under rule 90 it is L xor R |
| Automaton.Rule204Cell | atelier2/main.cpp:46-49 | under rule 204 a cell keeps its value |
| Automaton.Rule204Identity | atelier2/main.cpp:51-61 | so `evolve(204)` changes nothing |
| Automaton.ZeroFixed | atelier2/main.cpp:46-61 | under an even rule the all-zero state is fixed |
| Automaton.StepRotate | atelier2/main.cpp:51-61 | evolving commutes with rotating the circle |
| Automaton.Shift | atelier2/main.cpp:55-57 | a shifted index stays on the circle |
| Automaton.Rotate | atelier2/main.cpp:51-61 | rotating keeps the width |
| ACHash.Fold | atelier2/main.cpp:66-71 | the folded state has 256 entries |
| ACHash.FoldTo256 | atelier2/main.cpp:66-71 | `fold_to_256` returns 256 entries; entry j is the XOR of the bits at positions ≡ j (mod 256) |
| ACHash.FoldSnoc | atelier2/main.cpp:68-69 | one loop step XORs bit i into entry i mod 256 |
| ACHash.ColumnShort | atelier2/main.cpp:66-71 | for at most 256 bits, entry j is bit j or 0 |
| ACHash.FoldShort | atelier2/main.cpp:66-71 | folding at most 256 bits pads them with zeros |
| ACHash.FoldIdentity | atelier2/main.cpp:66-71 | folding exactly 256 bits changes nothing |
| ACHash.Replicate | atelier2/main.cpp:73-78 | cyclic replication to width w has w entries |
| ACHash.InitStateFromBits | atelier2/main.cpp:73-78 | needs a non-empty input (the index is taken modulo its size); returns W entries with `st[i] == bits[i % \|bits\|]` |
| ACHash.ReplicatePrefix | atelier2/main.cpp:73-78 | the state starts with the input bits |
| ACHash.ReplicateSelf | atelier2/main.cpp:73-78 | replicating to the input's own width returns it |
| ACHash.InitialState | atelier2/main.cpp:81-83 | the state is max(256, 8·\|input\|) cells wide |
| ACHash.AsWrittenRead | atelier2/main.cpp:89 | the read `folded[i + (t*13)%256]` as written: defined exactly when the index is below the size |
| ACHash.AsWrittenReadsPastEnd | atelier2/main.cpp:89 | at step t = 1 and i = 243 the index is 256: the read is past the end |
| ACHash.AsWrittenInBoundsIff | atelier2/main.cpp:86-89 | the reads of a step stay in bounds for every i exactly when 13t ≡ 0 (mod 256) |
| ACHash.ReadIndex | atelier2/main.cpp:89 | the corrected index `(i + 13t) % 256` is always below 256 |
| ACHash.ReadIndexAgrees | atelier2/main.cpp:89 | wherever the as-written read is in bounds, it reads the corrected index |
| ACHash.ReadIndexBijective | atelier2/main.cpp:88-89 | at every step the corrected indices are a rotation: each of the 256 entries is read exactly once |
| ACHash.Mix | atelier2/main.cpp:88-89 | one accumulation keeps 256 bits |
| ACHash.MixRound | atelier2/main.cpp:88-89 | the inner loop computes `Mix`: `acc[i] ^= folded[ReadIndex(i, t)]` for all i |
| ACHash.Round | atelier2/main.cpp:87-90 | one step: accumulates the fold of the old state, then evolves the automaton once |
| ACHash.StateAt | atelier2/main.cpp:86-91 | the automaton after t steps keeps its width |
| ACHash.Digest | atelier2/main.cpp:84-91 | the accumulator after `steps` steps has 256 bits |
| ACHash.Accumulate | atelier2/main.cpp:84-91 | the step loop computes `Digest` |
| ACHash.AcHashSpec | atelier2/main.cpp:80-94 | the hash is 64 characters |
| ACHash.AcHash | atelier2/main.cpp:80-94 | `ac_hash` returns 64 lowercase hex digits, equal to `AcHashSpec` (so it is deterministic); it needs a non-empty input |
| ACHash.ValueZeros | atelier2/main.cpp:84 | zero bits have value zero |
| ACHash.BitsToHexZeros | atelier2/main.cpp:84-93 | zero bits print as '0' digits |
| ACHash.AcHashNoSteps | atelier2/main.cpp:84-93 | with 0 steps the hash is 64 '0' digits |
| ACHash.DigestOneStep | atelier2/main.cpp:86-91 | after one step the accumulator is the fold of the initial state |
| ACHash.AcHashOneStepBlock | atelier2/main.cpp:80-94 | for a 32-character input and one step, the hash is the hex of the input's bits |
| Sha256.Rotr | atelier2/sha256.h:22 | `rotr` for the shift amounts 1 to 31; `RotrRotates` proves it a rotation at each amount used |
| Sha256.Ch | atelier2/sha256.h:23 | `ch`; `ChChooses` states its meaning |
| Sha256.Maj | atelier2/sha256.h:24 | `maj`; `MajMajority` states its meaning |
| Sha256.Big0 | atelier2/sha256.h:25 | `big0`, the XOR of the rotations by 2, 13 and 22 (Σ0 of FIPS 180-4) |
| Sha256.Big1 | atelier2/sha256.h:26 | `big1`, the XOR of the rotations by 6, 11 and 25 (Σ1) |
| Sha256.Sm0 | atelier2/sha256.h:27 | `sm0`, rotations by 7 and 18 and a shift by 3 (σ0) |
| Sha256.Sm1 | atelier2/sha256.h:28 | `sm1`, rotations by 17 and 19 and a shift by 10 (σ1) |
| Sha256.ConstantsShape | atelier2/sha256.h:30-46 | `K` has one constant per round (64) and the initial state one word per working variable (8), starting 0x6a09e667 and ending 0x5be0cd19 |
| Sha256.W | atelier2/sha256.h:53-56 | the message schedule: 16 big-endian words of the block, then `sm1(w[t-2]) + w[t-7] + sm0(w[t-15]) + w[t-16]` modulo 2^32; `Ctx.Schedule` is proved to fill its array with it |
| Sha256.Round | atelier2/sha256.h:60-62 | one round of the loop; `Ctx.Process` is proved to run 64 of them |
| Sha256.Compress | atelier2/sha256.h:57-65 | the 64 rounds from the old state, added word-wise into it; `Ctx.Process` is proved to compute it |
| Sha256.ChChooses | atelier2/sha256.h:23 | `ch` takes y's bits where x is set and z's elsewhere (Ch, section 4.1.2 of FIPS 180-4) |
| Sha256.MajMajority | atelier2/sha256.h:24 | `maj` is the bitwise majority (Maj, section 4.1.2 of FIPS 180-4) |
| Sha256.RotrRotates | atelier2/sha256.h:22-28 | at every shift amount used, `rotr` is ROTR of section 2.2.2 of FIPS 180-4, so `big0`, `big1`, `sm0`, `sm1` are Σ0, Σ1, σ0, σ1 |
| Sha256.VarsSeq | atelier2/sha256.h:64 | the working variables as eight words |
| Sha256.Pow256 | atelier2/sha256.h:90 | powers of 256 are positive |
| Sha256.ZerosTo56 | atelier2/sha256.h:86-88 | the zero count brings the length to 56 modulo 64 and is below 64 |
| Sha256.ZerosTo56Least | atelier2/sha256.h:87-88 | it is the least such count: the loop stops at the first length ≡ 56 |
| Sha256.PadZeros | atelier2/sha256.h:84-88 | the zeros after the 0x80 byte are fewer than 64 |
| Sha256.LengthBytes | atelier2/sha256.h:89-90 | the length field is 8 bytes |
| Sha256.PaddedLength | atelier2/sha256.h:82-91 | padding is 0x80, the zeros and 8 length bytes, and makes the total a multiple of 64 (section 5.1.1 of FIPS 180-4) |
| Sha256.PaddingLayout | atelier2/sha256.h:82-91 | the padded message is the message, then 0x80, then zeros, then the big-endian bit length |
| Sha256.PaddingSteps | atelier2/sha256.h:84-91 | the three `update` calls of `finalize` append exactly the padding |
| Sha256.WrapAdd | atelier2/sha256.h:70 | `c.len += len` modulo 2^64 is the total length modulo 2^64 |
| Sha256.WrapMul8 | atelier2/sha256.h:83 | `c.len * 8` in 64 bits is the bit length modulo 2^64 |
| Sha256.HashBlocksSnoc | atelier2/sha256.h:75-77 | compressing one more block extends the hash value of the blocks before it |
| Sha256.WordHex | atelier2/sha256.h:95 | one state word prints as 8 digits |
| Sha256.WordHexBits | atelier2/sha256.h:93-95 | `setw(8)` with `setfill('0')` in hex: the 8 digits are lowercase and encode the word's 32 bits, most significant first |
| Sha256.HexOfWords | atelier2/sha256.h:94-95 | the words print as 8 digits each |
| Sha256.HexOfWordsAt | atelier2/sha256.h:94-95 | digits 8i..8i+8 are word i, in order |
| Sha256.HexOfWordsLowerHex | atelier2/sha256.h:93-95 | all digits are lowercase hex |
| Sha256.DigestHex | atelier2/sha256.h:92-96 | the digest prints as 64 characters |
| Sha256.DigestHexLowerHex | atelier2/sha256.h:92-96 | the printed digest is 64 lowercase hex digits |
| Sha256.StringBytes | atelier2/sha256.h:101 | `s.data()` supplies one byte per character |
| Sha256.StateDigest | atelier2/sha256.h:92-96 | once the state is the hash value of the padded message, printing it gives the digest |
| Sha256.Ctx.constructor | atelier2/sha256.h:41-49 | a fresh context: H0, nothing buffered, length 0 |
| Sha256.Ctx.Process | atelier2/sha256.h:51-66 | `process` compresses one 64-byte block into the state (the schedule W, the 64 rounds with K, the word-wise addition of section 6.2.2 of FIPS 180-4) |
| Sha256.Ctx.Schedule | atelier2/sha256.h:52-56 | the two loops fill a fresh 64-word array with the schedule `W` of the block, word by word |
| Sha256.Ctx.AddInto | atelier2/sha256.h:64-65 | the state becomes the word-wise sum modulo 2^32 of the old state and the working variables; nothing else changes |
| Sha256.Ctx.Absorb | atelier2/sha256.h:72-74 | one pass copies `min(len, 64 - buf_len)` bytes into the buffer, in order |
| Sha256.Ctx.Flush | atelier2/sha256.h:75-78 | a full buffer is compressed once and emptied |
| Sha256.Ctx.Feed | atelier2/sha256.h:71-79 | the loop appends the input to the message, keeping the buffer invariant |
| Sha256.Ctx.Update | atelier2/sha256.h:68-80 | `update` appends the input bytes and keeps `len == \|msg\| mod 2^64` with fewer than 64 bytes buffered |
| Sha256.Ctx.BufferedLength | atelier2/sha256.h:68-80 | the buffered count is the message length modulo 64 |
| Sha256.Ctx.ZeroFill | atelier2/sha256.h:86-88 | the zero loop appends exactly `ZerosTo56` zeros |
| Sha256.Ctx.StateHex | atelier2/sha256.h:92-96 | the printing loop renders the state words in order |
| Sha256.Ctx.Pad | atelier2/sha256.h:83-91 | the message grows by exactly the FIPS 180-4 padding and the buffer ends empty |
| Sha256.Ctx.Finalize | atelier2/sha256.h:82-97 | `finalize` appends 0x80, zeros up to 56 mod 64 and the 8-byte big-endian bit length, so the message is a whole number of blocks, leaves nothing buffered, and returns the digest of everything fed |
| Sha256.LengthField | atelier2/sha256.h:89-90 | `lenb` is the bit length, big-endian |
| Sha256.Hash | atelier2/sha256.h:99-103 | `SHA256::hash(s)` is the FIPS 180-4 digest of the bytes of s: 64 lowercase hex digits |
| HashFn.Fips180PrintsHexDigest | atelier2/sha256.h:99-103 | the standard's digest prints 64 lowercase hex digits, the shape assumed of `sha256` |
| ProofOfWork.Prefix | exercice2.cpp:23 | `prefix` is `difficulty` characters long (all '0') |
| ProofOfWork.Substr0 | exercice2.cpp:31 | `substr(0, d)` truncates to the string's length |
| ProofOfWork.ExitTestIsZeroPrefix | exercice2.cpp:31 | the loop test fails exactly when the hash starts with `difficulty` '0' characters |
| ProofOfWork.NoNonceAbove64 | exercice2.cpp:31 | a 64-digit hash never passes a difficulty above 64, so the loop never ends |
| ProofOfWork.ZeroDifficultyFirst | exercice3.cpp:29-32 | with difficulty 0 the first attempt qualifies, and it hashes `previousHash + data + "0"` |
| ProofOfWork.MineBlock | exercice2.cpp:22-43 | the hash starts with `difficulty` zeros; it is the hash for the least qualifying nonce k; on exit `nonce == k + 1` (the printed nonce is one too many); `proofOfWork` of exercice3.cpp and `mineBlock` of exercice4.cpp (over `previousHash + merkleRoot`) are the same loop |
| Merkle.NextLevel | atelier1/exercice1.cpp:26-32 | a level of n entries becomes one of ⌈n/2⌉ entries; entry k is `sha256(t[2k] + t[2k+1])`, the last odd entry paired with itself |
| Merkle.NextLevelShrinks | atelier1/exercice1.cpp:25-33 | each pass strictly shrinks a level of two or more, so the loop ends |
| Merkle.RootOf | atelier1/exercice1.cpp:22-35 | the root as a recursion over levels; `MerkleRoot` is proved to compute it and the `Root…` lemmas state its properties |
| Merkle.MerkleRoot | atelier1/exercice1.cpp:22-35 | `merkleRoot` is `RootOf`: "" for no strings, the string itself for one, a `sha256` output otherwise |
| Merkle.RootIsDigest | atelier1/exercice1.cpp:30-34 | for two or more strings the root is a `sha256` output |
| Merkle.RootIsHexDigest | atelier1/exercice1.cpp:30-34 | then it is 64 lowercase hex digits |
| Merkle.NextLevelDuplicateLast | atelier1/exercice1.cpp:29 | duplicating the last of an odd level changes nothing in the next level |
| Merkle.DuplicateLastSameRoot | atelier1/exercice1.cpp:29 | so duplicating it gives the same root: two different lists share a root |
| Merkle.NextLevelAppend | atelier1/exercice1.cpp:27-31 | pairing works blockwise on an even-length prefix |
| Merkle.RootOfHalves | atelier1/exercice1.cpp:25-34 | for 2^k + 2^k leaves the root is the hash of the two halves' roots |
| Merkle.RootOfFour | atelier1/exercice1.cpp:25-34 | four leaves give `sha256(sha256(a+b) + sha256(c+d))` |
| Merkle.RootOfThree | atelier1/exercice1.cpp:29 | three leaves give `sha256(sha256(a+b) + sha256(c+c))` |
| Stake.CumStep | exercice3.cpp:54-57 | the cumulative stake grows by one entry's stake per step |
| Stake.CumAll | exercice3.cpp:47 | the cumulative stake over all entries is `total` |
| Stake.CumMonotone | exercice3.cpp:54-57 | with non-negative stakes the cumulative stake never decreases |
| Stake.Walk | exercice3.cpp:54-58 | the walk of the second loop; its result is "" or one of the map's keys |
| Stake.WalkFirstExceeding | exercice3.cpp:54-58 | the walk returns the first entry whose cumulative stake exceeds r |
| Stake.WalkExhausted | exercice3.cpp:58 | when no running total exceeds r, the walk falls through and returns "" |
| Stake.WalkEmptyOnlyExhausted | exercice3.cpp:54-58 | conversely, when no key is "", a result "" means no running total exceeds r |
| Stake.WalkChoosesHolder | exercice3.cpp:53-58 | for 0 ≤ r < total the result is a key of the map |
| Stake.ChosenIff | exercice3.cpp:53-58 | with non-negative stakes and distinct keys, entry i is chosen exactly when r lies in its cumulative interval |
| Stake.FirstExceeding | exercice3.cpp:53-58 | for 0 ≤ r < total some entry's cumulative stake exceeds r |
| Stake.RangeSize | exercice3.cpp:51 | the draw range 0..total-1 has `total` values |
| Stake.ChancesProportional | exercice3.cpp:51-58 | of the `total` equally likely draws, exactly an entry's stake select it |
| Stake.TotalStake | exercice3.cpp:46-47 | the first loop sums the stakes |
| Stake.SelectValidator | exercice3.cpp:45-59 | given the draw r in [0, total): the walk's choice, a key of the map; exercice4.cpp repeats the same function |
| Stake.ProofOfStake | exercice3.cpp:61-77 | the hash is `sha256(previousHash + data + validator)` for the selected validator; `validateBlockPOS` of exercice4.cpp is the same computation over the Merkle root |
| Ledger.Leaves | exercice4.cpp:34-36 | one leaf per transaction, in order: `sha256(sender + receiver + to_string(amount))` |
| Ledger.TxRootShape | exercice4.cpp:38-47 | one transaction's root is its leaf; otherwise the root is 64 hex digits |
| Ledger.ComputeMerkleRoot | exercice4.cpp:32-48 | `computeMerkleRoot` is the Merkle root of the leaves: "" for no transactions, the leaf for one |
| Ledger.NewBlock | exercice4.cpp:103-107 | the `Block` constructor stores index, previous hash and transactions, the time and their Merkle root; the hash is empty |
| Ledger.LinkedAppend | exercice4.cpp:121-135 | appending a block that follows the last block keeps the chain linked |
| Ledger.LinkedIndices | exercice4.cpp:121-135 | in a linked chain block i has index i and names block i-1's hash |
| Ledger.Blockchain.constructor | exercice4.cpp:115-119 | exactly one block: index 0, previous hash "0", hash `sha256("Genesis Block")` |
| Ledger.Blockchain.CreateBlock | exercice4.cpp:121-123 | the next index, the last block's hash, the transactions' root; nothing is added |
| Ledger.Blockchain.AddBlockPOW | exercice4.cpp:125-129 | appends exactly one block, at the next index, naming the last hash and carrying the transactions' Merkle root; its hash is `sha256(previousHash + merkleRoot + k)` for the least nonce k that gives the difficulty's zeros; earlier blocks unchanged; the chain stays linked |
| Ledger.Blockchain.AddBlockPOS | exercice4.cpp:131-135 | appends exactly one block, at the next index, naming the last hash and carrying the transactions' Merkle root, whose hash is `sha256(previousHash + merkleRoot + validator)`; earlier blocks unchanged; the chain stays linked |
| SimpleChain.Payload | atelier2/main.cpp:123-126 | the payload has at least the four separators |
| SimpleChain.PayloadNonceInjective | atelier2/main.cpp:123-126 | different nonces give different payloads: the search never hashes the same text twice |
| SimpleChain.PayloadAmbiguous | atelier2/main.cpp:123-126 | a '|' inside a field makes two different blocks share a payload |
| SimpleChain.HashCollision | atelier2/main.cpp:123-133 | so any hash of the payload gives those blocks the same hash |
| SimpleChain.HashBlock | atelier2/main.cpp:128-133 | `compute_hash` as a function of the settings: SHA-256 or `ac_hash` of the payload; `HashShape` and `HashBlockFacts` state its properties |
| SimpleChain.HashShape | atelier2/main.cpp:128-133 | in either mode `compute_hash` gives 64 lowercase hex digits |
| SimpleChain.HashBlockFacts | atelier2/main.cpp:123-133 | `compute_hash` reads only the payload (the stored hash is not part of it) and prints 64 hex digits |
| SimpleChain.NoNonceAbove64 | atelier2/main.cpp:135-139 | a difficulty above 64 is never met: mining would not end |
| SimpleChain.NoDifficultyFirstNonce | atelier2/main.cpp:135-139 | a difficulty of 0 or less is met by nonce 0 |
| SimpleChain.LeastNonceUnique | atelier2/main.cpp:141-164 | the least qualifying nonce is unique, so mining is deterministic |
| SimpleChain.NextAttempt | atelier2/main.cpp:159-161 | stepping the sealed block's nonce and rehashing gives the block sealed with the next nonce |
| SimpleChain.SealIsSealed | atelier2/main.cpp:141-164 | a block sealed with a qualifying nonce carries its own hash, which meets the difficulty |
| SimpleChain.ChainValid | atelier2/main.cpp:166-175 | every block after the first links to its predecessor; `ValidateChain` is proved to decide it |
| SimpleChain.ChainValidAppend | atelier2/main.cpp:166-175 | a chain plus one block validates exactly when the chain does and the block links to its last block |
| SimpleChain.ChangedHashBreaksChain | atelier2/main.cpp:166-175 | changing the hash of any block but the last makes validation fail |
| SimpleChain.ChangedPrevHashBreaksChain | atelier2/main.cpp:170 | changing the previous hash named by any block after the first makes validation fail |
| SimpleChain.ChangedDataOrNonceBreaksChain | atelier2/main.cpp:166-175 | changing the data or nonce of a block after the first makes validation fail when the change changes its hash: with the stored hash kept the block fails its own check, and with a new stored hash its successor fails its link |
| SimpleChain.ChangedGenesisUnnoticed | atelier2/main.cpp:167 | any replacement of the first block that keeps its stored hash leaves a valid chain valid |
| SimpleChain.SimpleBlockchain.constructor | atelier2/main.cpp:108-113 | the defaults: SHA-256, rule 30, 128 steps, 4 zeros, no blocks |
| SimpleChain.SimpleBlockchain.Configure | atelier2/main.cpp:231-232 | assigning the public settings, as `main` does, keeps `hashFn` in step |
| SimpleChain.SimpleBlockchain.ComputeHash | atelier2/main.cpp:128-133 | the hash of the payload in the current mode; 64 lowercase hex digits |
| SimpleChain.SimpleBlockchain.ValidHash | atelier2/main.cpp:135-139 | true exactly when the hash starts with `difficulty_prefix_zeros` '0' characters |
| SimpleChain.SimpleBlockchain.Try | atelier2/main.cpp:145-147 | one attempt: the block carries its hash, and the flag is the difficulty test |
| SimpleChain.SimpleBlockchain.Mine | atelier2/main.cpp:143-162 | the loop stops at the least qualifying nonce; the result is the block sealed with it, which carries its own hash meeting the difficulty; `iters` equals the nonce; the same loop serves `add_genesis` and `mine_next` |
| SimpleChain.SimpleBlockchain.AddGenesis | atelier2/main.cpp:141-149 | appends exactly one block, index 0, 64 '0' digits as previous hash, data "Genesis", mined with the least nonce; earlier blocks unchanged; the settings invariant still holds |
| SimpleChain.SimpleBlockchain.MineNext | atelier2/main.cpp:151-164 | index = chain size, previous hash = last block's hash, least nonce, `iters == nonce`; the chain is not modified; the block links to the last one, so appending it keeps a valid chain valid |
| SimpleChain.SimpleBlockchain.ValidateChain | atelier2/main.cpp:166-175 | true exactly when every block after the first names its predecessor's hash, carries its own recomputed hash and meets the difficulty; chains of length ≤ 1 are valid |
| Analysis.Differences | atelier2/main.cpp:189-195 | the count of differing positions is at most n and is zero only for equal prefixes |
| Analysis.DifferencesCountsPositions | atelier2/main.cpp:189-195 | the count is the size of the set of differing positions |
| Analysis.DifferencesZero | atelier2/main.cpp:189-195 | zero exactly when the prefixes agree |
| Analysis.DifferencesSymmetric | atelier2/main.cpp:189-195 | the distance is symmetric |
| Analysis.DifferencesTriangle | atelier2/main.cpp:189-195 | the distance obeys the triangle inequality |
| Analysis.BitDiff | atelier2/main.cpp:189-195 | `bit_diff` is the number of differing bits among the first 256 of the decoded digests, between 0 and 256; both strings need at least 64 characters |
| Analysis.BitDiffZeroIffEqual | atelier2/main.cpp:189-195 | for 64-digit lowercase digests `bit_diff` is 0 exactly when they are equal |

## Left out

- Console output, timing and `main`: `cout`, `Timer`, the `chrono` measurements, `showChain` and the three `main` functions. `main`'s settings assignments are `SimpleBlockchain.Configure`.
- `now_iso8601`, `time(nullptr)` and `ctime`: the clock. Timestamps are parameters (a string in `SimpleChain`, an integer in `Ledger`).
- `random_device`/`mt19937` in `selectValidator`: the draw r is a parameter in [0, total). `ChancesProportional` states how many draws select each validator.
- `avalanche_test` and `bit_distribution`: averages and percentages in floating point over pseudo-random or sampled inputs. `bit_diff` beneath them is modelled.
- OpenSSL's `sha256`: a foreign call. It is the parameter `sha`. `PrintsHexDigest` gives it the 64-hex-digit output shape where needed.
- `to_string` on the `double` amount: floating-point formatting. It is the parameter `amountText`.
- Termination of the mining loops: they are unbounded searches. Each mining method takes a ghost nonce `stopAt` known to qualify; the loops are proved to stop by then and to return the least qualifying nonce. Runs where no nonce qualifies (for example a difficulty above 64, see `NoNonceAbove64`) are not modelled.
- Integer widths:
  - the counters of the mining loops never wrap, because `stopAt` is below the `int` and `uint64_t` limits;
  - `int` sums of stakes and the `size_t` index of `chain.size()` are unbounded;
  - `SHA256::Ctx::len` and the bit length do wrap modulo 2^64, as in the source.
- Memory layout: `memcpy`, pointers and the fixed C arrays `buf[64]` and `state[8]` are sequences reassigned by the methods of `Ctx`; only the schedule `w[64]` is an array (`Ctx.Schedule`). `process` takes the block as a sequence rather than a pointer into the buffer.
- `mine_next` and `add_genesis` share their search loop as the method `SimpleBlockchain.Mine`. The source writes the loop twice.
- `chain.back()` on an empty chain is undefined behaviour in `mine_next` and `createBlock`: a non-empty chain is a precondition.
- `valid_hash` reads `h[i]` for i up to the difficulty. The model reads the string's terminating NUL at position |h| and stops there. It does not model the undefined reads further on, which are never reached for the 64-digit hashes `compute_hash` returns.
- BitCodec.TextToBits, Sha256.StringBytes, Sha256.Hash and HashFn.Fips180: a character is one byte, its code modulo 256. C++ hashes the bytes of the string's encoding, where a character outside ASCII is several bytes; the model agrees with it on ASCII text only.
- ProofOfWork.MineBlock and Ledger.Blockchain.AddBlockPOW: the difficulty is a `nat`. With a negative `int` difficulty, `string prefix(difficulty, '0')` throws `length_error` in the source; that exception is not modelled.
- Stake.SelectValidator and Stake.ProofOfStake: the `std::map` is a sequence of entries taken in any order, not only ascending key order, and distinct keys are assumed only where a lemma says so (`ChosenIff`, `ChancesProportional`). Every result holds for the map's own order as a special case.
- SimpleChain.ChangedDataOrNonceBreaksChain: tamper evidence for the data and the nonce assumes the changed block hashes differently. That is collision resistance of the hash, which the model does not prove. `HashCollision` shows that a '|' in the data gives two blocks the same payload, and so the same hash.
- Bits as 0 or 1: a bit is the subset type `Bit`, so the `& 1` masks of `to_hex` and `fold_to_256` do nothing in the model. Vectors holding other integers are outside the model; the program never builds one.
- BitCodec.HexToBitsOf: for characters outside ASCII the model uses the character's code, where C++ sees a signed byte of its encoding. Only the digests' own lowercase digits are decoded in the program.
- `ac_hash` on an empty input: `init_state_from_bits` takes an index modulo zero. A non-empty input is a precondition; block payloads are never empty.
- Plain assignment to `mode`, `ac_rule` or `ac_steps`: the settings change only through `Configure`, which keeps the ghost field `hashFn` equal to `compute_hash`.

## Findings

| source | as written | input that shows it | evidently intended | confidence | as-written member | corrected member |
|---|---|---|---|---|---|---|
| atelier2/main.cpp:89 | `acc[i] ^= folded[(i + (t*13)%256)]` reads index i + 13t mod 256, up to 510, of a 256-entry vector | any input, any step count of 2 or more: at step t = 1, i = 243 reads `folded[256]` | the index taken modulo 256, `folded[(i + t*13) % 256]`, a rotation of the folded state | not executed | ACHash.AsWrittenReadsPastEnd | ACHash.ReadIndexBijective |
