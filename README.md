# Block integrity and modular arithmetic of the snailnote node

This project models two sequential parts of a minimal blockchain node and proves properties about them.

The first part is the `Block` of the `rblock` crate. A block records a height, a hash, a timestamp, the previous block's hash, a nonce, a 32-bit difficulty, a Merkle root and a list of transactions. It is modelled as a class with those fields (`block.dfy`). Every way of creating or changing a block ends by storing `sha256(get_message())` in `hash`, and the contracts prove this. They also say exactly which fields each mutator changes. The block has three validators:

- `verify_hash` is a predicate.
- `verify_difficulty` is a loop over the shifts 0, 4, …, 28 with an early return, proved equal to a nibble-wise bound (`difficulty.dfy`).
- `verify_transactions` is a loop with an early return, proved equal to a size limit plus per-transaction signature checks.

Hex parsing and nibbles are in `hex.dfy`.

The second part is the big-integer arithmetic of the `ecdsa` crate (`math.dfy`):

- `modulo` is built on the truncating `%`, which is written out explicitly.
- The tail-recursive extended Euclidean algorithm `modular_multiplicative_inverse` is a recursive function with a `decreases n + b` measure.
- Its Bézout and gcd invariants are proved. So is what its result is on each of the two ways the recursion can stop.

The code the block calls but whose text is not part of this model is in `externals.dfy`. Each piece below is an uninterpreted constant or an abstract type, so every proof holds for every choice of them:

- the SHA-256 digest itself
- `functions::get_merkel_root`
- the decimal rendering of numbers
- `Transaction::verify`
- the body of `Transaction::reward_transaction`, whose sender is `Point::identity()`
- `Point`

One assumption about that code is fixed rather than left open: `sha256::hash` renders the digest as 64 lower-case hex digits (see `Externals.Sha256` under "## Left out").

The clock (`functions::get_unix_time`) is the `now` parameter of the two constructors. The getters (`get_hash`, `get_merkel_root`, …) are one-line functions reading the field.

## Model

| member | source | states |
|---|---|---|
| `Block.Block.NewGenesis` | rblock/src/block/block.rs:40-55 | genesis has height 0, timestamp `now`, empty previous hash and Merkle root, no transactions, nonce 0, difficulty 0xffffffff, and a hash that verifies |
| `Block.Block.New` | rblock/src/block/block.rs:61-76 | the successor has height prev+1 (prev's height must be below u64::MAX), prev's hash as previous hash, prev's difficulty, nonce 0, the given transactions, their Merkle root, and a hash that verifies |
| `Block.Block.RewardMiner` | rblock/src/block/block.rs:83-96 | with a reward already present the block is unchanged; otherwise exactly the reward is appended, the Merkle root is recomputed over the new list, the hash verifies, and height, timestamp, previous hash, nonce and difficulty are kept; afterwards a reward is present (so a second call is a no-op) and the reward count is max(old count, 1) |
| `Block.Block.SetDifficulty` | rblock/src/block/block.rs:102-105 | the difficulty becomes the argument and the hash verifies; all other fields are kept |
| `Block.Block.IncrementAndHash` | rblock/src/block/block.rs:110-118 | at nonce u32::MAX the block is left entirely unchanged (no wrap); otherwise the nonce grows by exactly 1, the hash verifies, and all other fields are kept |
| `Block.Block.GetHash` | rblock/src/block/block.rs:123-125 | returns the stored hash and changes nothing |
| `Block.Block.GetMerkelRoot` | rblock/src/block/block.rs:130-132 | returns the stored Merkle root and changes nothing |
| `Block.Block.GetPrevHash` | rblock/src/block/block.rs:137-139 | returns the previous block's hash as stored and changes nothing |
| `Block.Block.GetTransactions` | rblock/src/block/block.rs:144-146 | returns the transaction list and changes nothing |
| `Block.Block.GetDifficulty` | rblock/src/block/block.rs:151-153 | returns the difficulty and changes nothing |
| `Block.Block.GetTimestamp` | rblock/src/block/block.rs:158-160 | returns the timestamp and changes nothing |
| `Block.MessageLayout` | rblock/src/block/block.rs:173-179 | the message is the six renderings laid end to end with no separator: its length is the sum of theirs, it starts with the height, the previous hash sits right after height and timestamp, and it ends with the Merkle root |
| `Block.Block.GetMessage` | rblock/src/block/block.rs:172-180 | the message of the block's height, timestamp, previous hash, nonce, difficulty and Merkle root; the stored hash and the transaction list themselves are not hashed |
| `Block.Block.VerifyHash` | rblock/src/block/block.rs:261-263 | holds exactly when the stored hash is the hash of the current message; a block that passes has a 64-character hash that `verify_difficulty` can parse |
| `Block.Block.SetHash` | rblock/src/block/block.rs:165-167 | only `hash` changes, and afterwards it equals the hash of the message |
| `Block.Block.VerifyDifficulty` | rblock/src/block/block.rs:222-238 | the shift loop with early return answers exactly whether every one of the eight nibbles of the parsed hash tail is at most the same nibble of the difficulty; it requires what the `unwrap` needs, a tail of eight characters that parses |
| `Block.Block.VerifyTransactions` | rblock/src/block/block.rs:243-259 | the loop answers exactly: at most 5000 transactions, and every transaction whose sender is not the identity point verifies |
| `Block.OversizedRejected` | rblock/src/block/block.rs:244-247 | more than 5000 transactions are rejected whatever they contain |
| `Block.RewardsNotChecked` | rblock/src/block/block.rs:249-256 | identity-sender transactions are never checked: lists that differ only in their rewards get the same verdict |
| `Block.AppendedRewardVerdict` | rblock/src/block/block.rs:243-259 | appending a reward keeps every signature accepted but counts toward the limit: the verdict becomes "fewer than 5000 before, and valid before" |
| `Block.RewardCountPositive` | rblock/src/block/block.rs:84-89 | a reward count above 0 is the same as a reward being present, which is the scan `reward_miner` performs |
| `Block.BlockHashesParse` | rblock/src/block/block.rs:222-230 | every block hash meets the precondition of `verify_difficulty`, and nibble k of its tail value is digest digit 63-k |
| `Block.StaleHashRejected` | rblock/src/block/block.rs:261-263 | changing exactly one of nonce, difficulty or Merkle root so that its rendering changes makes the message change; barring a SHA-256 collision on the two messages, the stored hash stops verifying |
| `Block.GenesisNeedsNoMining` | rblock/src/block/block.rs:40-55 | the genesis hash passes the genesis difficulty 0xffffffff |
| `Difficulty.MaxDifficultyAcceptsAll` | rblock/src/block/block.rs:228-237 | difficulty 0xffffffff accepts every tail value |
| `Difficulty.ZeroDifficultyAcceptsOnlyZero` | rblock/src/block/block.rs:228-237 | difficulty 0 accepts a tail value exactly when it is 0 |
| `Difficulty.ZeroDifficultyTail` | rblock/src/block/block.rs:225-237 | difficulty 0 accepts a hash exactly when its last eight characters are "00000000" or "+0000000" (the parser accepts a leading '+') |
| `Difficulty.MonotoneInDifficulty` | rblock/src/block/block.rs:228-237 | raising every nibble of the difficulty keeps an accepted hash accepted |
| `Difficulty.WithinTargetIsAtMost` | rblock/src/block/block.rs:228-237 | an accepted tail value is numerically at most the difficulty |
| `Difficulty.NotNumericComparison` | rblock/src/block/block.rs:228-237 | the test is not numeric `<`: tail 0x0F is below target 0x10 and is rejected |
| `Difficulty.TopNibbleDifficulty` | rblock/src/block/block.rs:228-237 | difficulty 0x1FFFFFFF accepts exactly the tails whose top nibble is at most 1 |
| `Hex.ParseHexU32` | rblock/src/block/block.rs:225 | `u32::from_str_radix(_, 16)` succeeds only with a value below 2^32 |
| `Hex.NibbleOfDigits` | rblock/src/block/block.rs:225-230 | `(value >> 4k) & 0xf` of a parsed digit string is its k-th digit from the right, and 0 beyond its length |
| `Externals.Sha256` | rblock/src/block/block.rs:166 | a block hash is 64 hex digits |
| `ModularArithmetic.TruncRem` | ecdsa/src/secp256k1/math.rs:9 | the big-integer `%`: strictly inside (-abs(m), abs(m)), with the sign of the dividend, and x minus it is a multiple of m |
| `ModularArithmetic.TruncDiv` | ecdsa/src/secp256k1/math.rs:30 | the big-integer `/`: its magnitude is the number of whole abs(m) in abs(x), and it is non-negative exactly when the signs agree (zero aside) |
| `ModularArithmetic.TruncDivRem` | ecdsa/src/secp256k1/math.rs:9 | the truncating `/` and `%` satisfy x = q·m + r, with r strictly inside (-abs(m), abs(m)) and carrying the dividend's sign; on non-negative operands they agree with the Euclidean ones |
| `ModularArithmetic.Modulo` | ecdsa/src/secp256k1/math.rs:8-10 | for m > 0 the result is in [0, m) and is x mod m, negative x included; for m < 0 it is in (m, 0] and congruent to x |
| `ModularArithmetic.ModuloOfNegative` | ecdsa/src/secp256k1/math.rs:5-7 | -21 % 4 is -1 but modulo(-21, 4) is 3 |
| `ModularArithmetic.ModuloIdentityInRange` | ecdsa/src/secp256k1/math.rs:8-10 | modulo is the identity on [0, m) |
| `ModularArithmetic.Step` | ecdsa/src/secp256k1/math.rs:30-41 | one activation, defined for all non-zero operands, updates the larger operand (n on a tie) with its coefficient pair and leaves the other side alone; for positive operands the new value is the remainder modulo the smaller, so both stay non-negative and n + b strictly decreases |
| `ModularArithmetic.Run` | ecdsa/src/secp256k1/math.rs:43-47 | the recursion terminates from n, b > 0 in a state where exactly one of n, b is 0 and neither has grown |
| `ModularArithmetic.ModularMultiplicativeInverse` | ecdsa/src/secp256k1/math.rs:17-48 | absent coefficients default to (1, 0, 0, 1) and the result is the t1 of Run's final state, whichever side reached zero; for a top-level call, n times the result is congruent modulo b to the final n (the gcd when b reached zero, 0 when n did) |
| `ModularArithmetic.StepKeepsBezout` | ecdsa/src/secp256k1/math.rs:33-41 | one step keeps n = t1·n0 + t2·b0 and b = s1·n0 + s2·b0 |
| `ModularArithmetic.RunKeepsBezout` | ecdsa/src/secp256k1/math.rs:25-47 | the final state keeps both Bézout relations that held at the start |
| `ModularArithmetic.StepKeepsCommonDivisors` | ecdsa/src/secp256k1/math.rs:30-41 | one step keeps the common divisors of n and b, in both directions |
| `ModularArithmetic.RunKeepsCommonDivisors` | ecdsa/src/secp256k1/math.rs:30-47 | the whole run keeps the common divisors of n and b |
| `ModularArithmetic.FinalRemainderIsGcd` | ecdsa/src/secp256k1/math.rs:43-47 | the remainder that did not reach zero is gcd(n0, b0) |
| `ModularArithmetic.CongruentToGcdWhenBReachesZero` | ecdsa/src/secp256k1/math.rs:43-44 | when b reached 0, n is gcd(n0, b0) and n0 times the result is congruent to it modulo b0 |
| `ModularArithmetic.InverseWhenBReachesZero` | ecdsa/src/secp256k1/math.rs:12-47 | when b reached 0, for coprime n0 and b0 > 1, n0 times the result is 1 modulo b0 |
| `ModularArithmetic.NoInverseWhenNReachesZero` | ecdsa/src/secp256k1/math.rs:43-44 | when n reached 0, the returned t1 satisfies t1·n0 + t2·b0 = 0, so n0 times the result is 0 modulo b0 |
| `ModularArithmetic.InverseOfFiveModSeven` | ecdsa/src/secp256k1/math.rs:15 | the inverse of 5 modulo 7 is 3 |
| `ModularArithmetic.EqualOperandsGiveOne` | ecdsa/src/secp256k1/math.rs:30-44 | with n = b the first step zeroes n and the result is 1 |
| `ModularArithmetic.CoprimeButNotInverted` | ecdsa/src/secp256k1/math.rs:43-44 | 2 and 5 are coprime, yet the code returns 5, and 2·5 mod 5 is not 1 |
| `ModularArithmetic.CongruentToGcdWhenNReachesZero` | ecdsa/src/secp256k1/math.rs:43-44 | when n reached 0, b is gcd(n0, b0) and n0·s1 is congruent to it modulo b0 |
| `ModularArithmetic.ModularInverse` | ecdsa/src/secp256k1/math.rs:43-44 | corrected inverse: for coprime n0 and b0 > 1, n0 times the result is 1 modulo b0, whichever side reached zero |
| `ModularArithmetic.CorrectedInverseOfTwoModFive` | ecdsa/src/secp256k1/math.rs:43-44 | the corrected inverse of 2 modulo 5 is an inverse |
| `ModularArithmetic.NegativeOperandStalls` | ecdsa/src/secp256k1/math.rs:30-47 | from (-3, 5) one step reaches (-3, -1) with coefficients (1, 0, 1, 1), and that state steps to itself with neither remainder zero, so the recursion never ends |
| `ModularArithmetic.NegativeOperandNotInverted` | ecdsa/src/secp256k1/math.rs:30-44 | from (-1, 5) the first step zeroes b and the result is 1, although the inverse of -1 modulo 5 is 4 |

## Left out

- `store_block` and `get_block_from_file` (rblock/src/block/block.rs:185-217) are not modelled. They are file-system I/O with JSON (de)serialisation.
- The `Display` implementation and every `eprintln!` diagnostic are not modelled. They only produce output.
- The internals of SHA-256, `functions::get_merkel_root`, `Transaction`, `Transaction::verify` and `Point` are not modelled. They are not part of this model; each is an uninterpreted constant or an abstract type.
- The decimal rendering inside `get_message` is not modelled either. It is an uninterpreted function, and the model never assumes that the concatenated message is injective.
- `functions::get_unix_time` is not called. Its reading is the `now` parameter.
- `REWARD`, `BLOCK_SPEED`, the `Blockchain` type and the rest of `lib.rs` are not modelled. They are unused constants and module wiring whose code is not part of this model.
- Hashes are sequences of characters, and the model treats each character as one byte. Rust measures and slices `hash` in bytes, so a non-ASCII hash that would panic at a character boundary is not modelled. Every hash that `sha256::hash` produces is ASCII.
- `Block.StaleHashRejected`: the source's promise that a stale hash fails `verify_hash` is proved only under two conditions: SHA-256 does not collide on the old and new messages, and the rendering of the changed field changes. Neither can be proved about an uninterpreted digest or renderer.
- `Block.Block.New` requires the predecessor's height to be below u64::MAX. The addition `prev_block.height + 1` would overflow there.
- `Block.Block.New` does not enforce at most one reward per block; it takes the list as given, as the code does. `RewardMiner` leaves the reward count at max(old count, 1).
- There is no error for non-coprime operands and no step bound, because the code has neither; the model follows the code, and the result is always `t1`.
- `ModularArithmetic.ModularMultiplicativeInverse` (and `Run`) require n > 0 and b > 0, while the code accepts any big integers. With n = 0 or b = 0 the code divides by zero at math.rs:30 (and `modulo` at math.rs:9) and panics. With a negative operand the recursion need not end: from (-3, 5) it reaches a state that maps to itself (`NegativeOperandStalls`). Where it does end, the result need not be an inverse: (-1, 5) returns 1 (`NegativeOperandNotInverted`). A total recursive function cannot express the non-ending case, so only positive operands are modelled as whole runs; `Step` itself is modelled for every non-zero operand. For positive operands the recursion always ends, as `Run`'s `decreases n + b` proves.
- `Externals.Sha256`: the rendering of the digest as exactly 64 lower-case hex digits is an assumption about `sha256::hash`, whose code is not part of this model. It is supported by the comment at rblock/src/block/block.rs:224, which reads the last 8 characters of the hash as 4 bytes. `Externals.Sha256`'s own ensures, `Block.BlockHashesParse`, `Block.GenesisNeedsNoMining`, `Block.StaleHashRejected` (through the injectivity of the rendering) and the ensures of `Block.Block.VerifyHash` rest on it.
- A mid-recursion call with explicit `Some` coefficients is modelled. The lemmas speak about the top-level call with `None` for all four.

## Findings

| source | as written | input that shows it | evidently intended | confidence | as-written member | corrected member |
|---|---|---|---|---|---|---|
| ecdsa/src/secp256k1/math.rs:43-44 | returns `t1` whichever remainder reached zero | n = 2, b = 5 (coprime): the second step zeroes n, the call returns 5, and 2·5 mod 5 = 0 | return the coefficient of n on the side that did not reach zero (`s1` when n reached 0, here -2, and 2·(-2) ≡ 1 mod 5) | high; not executed | `ModularArithmetic.CoprimeButNotInverted` | `ModularArithmetic.ModularInverse` |
