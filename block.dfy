/**
 * The block of the chain: a record of height, hash, timestamp, previous hash,
 * nonce, difficulty, Merkle root and transactions whose `hash` is kept equal
 * to the SHA-256 of its message by every constructor and mutator, together
 * with its three validators.
 */
module Block {
  import opened Externals
  import opened Wrappers
  import opened Hex
  import Difficulty

  type u32 = Difficulty.u32
  type u64 = x: int | 0 <= x < 0x1_0000_0000_0000_0000

  const U32Max: u32 := 0xffff_ffff
  const U64Max: u64 := 0xffff_ffff_ffff_ffff

  /** TRANSACTION_LIMIT_PER_BLOCK. */
  const TransactionLimitPerBlock: nat := 5000

  /** `get_message`: height, timestamp, previous hash, nonce, difficulty and
      Merkle root, numbers in decimal, concatenated without separators. */
  function Message(height: u64, timestamp: u64, prevHash: string, nonce: u32,
                   difficulty: u32, merkelRoot: string): string
  {
    Decimal(height) + Decimal(timestamp) + prevHash + Decimal(nonce) + Decimal(difficulty) + merkelRoot
  }

  /** The message lays the six renderings end to end with no separator. */
  lemma MessageLayout(height: u64, timestamp: u64, prevHash: string, nonce: u32,
                      difficulty: u32, merkelRoot: string)
    ensures var m := Message(height, timestamp, prevHash, nonce, difficulty, merkelRoot);
      && |m| == |Decimal(height)| + |Decimal(timestamp)| + |prevHash|
                + |Decimal(nonce)| + |Decimal(difficulty)| + |merkelRoot|
      && m[..|Decimal(height)|] == Decimal(height)
      && m[|Decimal(height)| + |Decimal(timestamp)|..][..|prevHash|] == prevHash
      && m[|m| - |merkelRoot|..] == merkelRoot
  {
  }

  // ---------------------------------------------------------------------------
  // Rewards and signatures
  // ---------------------------------------------------------------------------

  /** A miner reward: a transaction sent by the identity point. */
  predicate IsReward(t: Transaction) { t.sender == Identity }

  predicate HasReward(txs: seq<Transaction>) {
    exists i :: 0 <= i < |txs| && IsReward(txs[i])
  }

  /** The number of reward transactions. */
  function RewardCount(txs: seq<Transaction>): nat {
    if txs == [] then 0
    else RewardCount(txs[..|txs| - 1]) + (if IsReward(txs[|txs| - 1]) then 1 else 0)
  }

  lemma {:induction false} RewardCountPositive(txs: seq<Transaction>)
    ensures RewardCount(txs) > 0 <==> HasReward(txs)
  {
    if txs != [] {
      var init := txs[..|txs| - 1];
      RewardCountPositive(init);
      if HasReward(init) {
        var i :| 0 <= i < |init| && IsReward(init[i]);
        assert IsReward(txs[i]);
      }
      if HasReward(txs) && !IsReward(txs[|txs| - 1]) {
        var i :| 0 <= i < |txs| && IsReward(txs[i]);
        assert IsReward(init[i]);
      }
    }
  }

  /** The per-transaction test of `verify_transactions`: rewards are exempt
      from the signature check. */
  predicate SignatureAccepted(t: Transaction) {
    t.sender == Identity || Verify(t)
  }

  /** The verdict of `verify_transactions` on a transaction list. */
  predicate TransactionsValid(txs: seq<Transaction>) {
    |txs| <= TransactionLimitPerBlock &&
    forall i :: 0 <= i < |txs| ==> SignatureAccepted(txs[i])
  }

  /** More than 5000 transactions are rejected whatever they contain. */
  lemma OversizedRejected(txs: seq<Transaction>)
    requires |txs| > TransactionLimitPerBlock
    ensures !TransactionsValid(txs)
  {
  }

  /** Reward transactions are never checked: two lists of equal length that
      differ only in which rewards they hold get the same verdict. */
  lemma RewardsNotChecked(txs: seq<Transaction>, txs': seq<Transaction>)
    requires |txs| == |txs'|
    requires forall i :: 0 <= i < |txs| ==> txs[i] == txs'[i] || (IsReward(txs[i]) && IsReward(txs'[i]))
    ensures TransactionsValid(txs) <==> TransactionsValid(txs')
  {
  }

  /** Appending a reward keeps the signatures valid but counts toward the
      limit: a block of 5000 valid transactions fails once rewarded. */
  lemma AppendedRewardVerdict(txs: seq<Transaction>, minerAddress: Point)
    ensures TransactionsValid(txs + [RewardTransaction(minerAddress)])
            <==> |txs| < TransactionLimitPerBlock && TransactionsValid(txs)
  {
    var txs' := txs + [RewardTransaction(minerAddress)];
    if TransactionsValid(txs') {
      forall i | 0 <= i < |txs| ensures SignatureAccepted(txs[i]) {
        assert txs'[i] == txs[i];
      }
    }
  }

  // ---------------------------------------------------------------------------
  // Hashes
  // ---------------------------------------------------------------------------

  /** Every block hash is a valid argument of `verify_difficulty`: its last
      eight characters are digits of the digest, with no sign. */
  lemma BlockHashesParse(message: string)
    ensures Difficulty.TailParses(Sha256(message))
    ensures forall k :: 0 <= k < 8 ==>
      Nibble(Difficulty.TailValue(Sha256(message)), k) == Sha256Digest(message)[63 - k]
  {
    var h := Sha256(message);
    var t := h[|h| - 8..];
    assert AllHexDigits(t) && t[0] != '+';
    DigitsValueBound(t);
    assert Pow16(8) == U32Limit;
    assert ParseHexU32(t) == Some(DigitsValue(t));
    forall k | 0 <= k < 8
      ensures Nibble(Difficulty.TailValue(h), k) == Sha256Digest(message)[63 - k]
    {
      NibbleOfDigits(t, k);
      assert t[|t| - 1 - k] == h[63 - k];
    }
  }

  /** Equal renderings come from equal digests. */
  lemma EncodeInjective(d1: Digest, d2: Digest)
    requires Encode(d1) == Encode(d2)
    ensures d1 == d2
  {
  }

  lemma SpliceCancel(a: string, x: string, y: string, c: string)
    requires a + x + c == a + y + c
    ensures x == y
  {
    assert |x| == |y|;
    forall i | 0 <= i < |x| ensures x[i] == y[i] {
      assert (a + x + c)[|a| + i] == x[i];
      assert (a + y + c)[|a| + i] == y[i];
    }
  }

  /**
   * Changing exactly one of the hashed fields that the mutators touch (nonce,
   * difficulty, Merkle root) in a way that changes its rendering changes the
   * message; unless SHA-256 collides on the two messages, the stored hash
   * then no longer verifies.
   */
  lemma StaleHashRejected(height: u64, timestamp: u64, prevHash: string,
                          nonce: u32, difficulty: u32, merkelRoot: string,
                          nonce': u32, difficulty': u32, merkelRoot': string)
    requires || (Decimal(nonce) != Decimal(nonce') && difficulty == difficulty' && merkelRoot == merkelRoot')
             || (nonce == nonce' && Decimal(difficulty) != Decimal(difficulty') && merkelRoot == merkelRoot')
             || (nonce == nonce' && difficulty == difficulty' && merkelRoot != merkelRoot')
    requires var m := Message(height, timestamp, prevHash, nonce, difficulty, merkelRoot);
             var m' := Message(height, timestamp, prevHash, nonce', difficulty', merkelRoot');
             m != m' ==> Sha256Digest(m) != Sha256Digest(m')
    ensures Sha256(Message(height, timestamp, prevHash, nonce, difficulty, merkelRoot))
            != Sha256(Message(height, timestamp, prevHash, nonce', difficulty', merkelRoot'))
  {
    var m := Message(height, timestamp, prevHash, nonce, difficulty, merkelRoot);
    var m' := Message(height, timestamp, prevHash, nonce', difficulty', merkelRoot');
    var front := Decimal(height) + Decimal(timestamp) + prevHash;
    if Decimal(nonce) != Decimal(nonce') {
      var back := Decimal(difficulty) + merkelRoot;
      assert m == front + Decimal(nonce) + back;
      assert m' == front + Decimal(nonce') + back;
      if m == m' { SpliceCancel(front, Decimal(nonce), Decimal(nonce'), back); }
    } else if nonce == nonce' && Decimal(difficulty) != Decimal(difficulty') {
      var front' := front + Decimal(nonce);
      assert m == front' + Decimal(difficulty) + merkelRoot;
      assert m' == front' + Decimal(difficulty') + merkelRoot;
      if m == m' { SpliceCancel(front', Decimal(difficulty), Decimal(difficulty'), merkelRoot); }
    } else {
      var front' := front + Decimal(nonce) + Decimal(difficulty);
      assert m == front' + merkelRoot + [];
      assert m' == front' + merkelRoot' + [];
      if m == m' { SpliceCancel(front', merkelRoot, merkelRoot', []); }
    }
    if Sha256(m) == Sha256(m') {
      EncodeInjective(Sha256Digest(m), Sha256Digest(m'));
    }
  }

  /** The genesis difficulty accepts the genesis hash, so genesis needs no mining. */
  lemma GenesisNeedsNoMining(now: u64)
    ensures Difficulty.TailParses(Sha256(Message(0, now, "", 0, Difficulty.MaxDifficulty, "")))
    ensures Difficulty.WithinTarget(
              Difficulty.TailValue(Sha256(Message(0, now, "", 0, Difficulty.MaxDifficulty, ""))),
              Difficulty.MaxDifficulty)
  {
    var m := Message(0, now, "", 0, Difficulty.MaxDifficulty, "");
    BlockHashesParse(m);
    Difficulty.MaxDifficultyAcceptsAll(Difficulty.TailValue(Sha256(m)));
  }

  // ---------------------------------------------------------------------------
  // The block
  // ---------------------------------------------------------------------------

  class Block {
    var height: u64
    var hash: string
    var timestamp: u64
    var prevHash: string
    var nonce: u32
    var difficulty: u32
    var merkelRoot: string
    var transactions: seq<Transaction>

    /** `new_genesis`; the clock reading is the parameter `now`. */
    constructor NewGenesis(now: u64)
      ensures height == 0 && timestamp == now && prevHash == "" && nonce == 0
      ensures difficulty == Difficulty.MaxDifficulty && merkelRoot == "" && transactions == []
      ensures VerifyHash()
    {
      height := 0;
      hash := "";
      timestamp := now;
      nonce := 0;
      difficulty := Difficulty.MaxDifficulty;
      prevHash := "";
      merkelRoot := "";
      transactions := [];
      new;
      SetHash();
    }

    /** `new(prev_block, transactions)`: the successor of `prevBlock`, not yet
        mined; the clock reading is the parameter `now`. */
    constructor New(prevBlock: Block, txs: seq<Transaction>, now: u64)
      requires prevBlock.height < U64Max
      ensures height == prevBlock.height + 1 && timestamp == now && nonce == 0
      ensures difficulty == prevBlock.difficulty && prevHash == prevBlock.hash
      ensures merkelRoot == MerkelRootOf(txs) && transactions == txs
      ensures VerifyHash()
    {
      height := prevBlock.height + 1;
      hash := "";
      timestamp := now;
      nonce := 0;
      difficulty := prevBlock.difficulty;
      prevHash := prevBlock.hash;
      merkelRoot := MerkelRootOf(txs);
      transactions := txs;
      new;
      SetHash();
    }

    /** `reward_miner`: append one reward to `minerAddress` unless the block
        already holds a reward; the block then holds exactly one more reward
        than before only if it held none. */
    method RewardMiner(minerAddress: Point)
      modifies this
      ensures old(HasReward(transactions)) ==> unchanged(this)
      ensures !old(HasReward(transactions)) ==>
        && transactions == old(transactions) + [RewardTransaction(minerAddress)]
        && merkelRoot == MerkelRootOf(transactions)
        && VerifyHash()
        && height == old(height) && timestamp == old(timestamp) && prevHash == old(prevHash)
        && nonce == old(nonce) && difficulty == old(difficulty)
      ensures HasReward(transactions)
      ensures RewardCount(transactions) == if old(RewardCount(transactions)) == 0 then 1 else old(RewardCount(transactions))
    {
      RewardCountPositive(transactions);
      for i := 0 to |transactions|
        invariant forall j :: 0 <= j < i ==> !IsReward(transactions[j])
      {
        if transactions[i].sender == Identity {
          return;
        }
      }
      var oldTransactions := transactions;
      var reward := RewardTransaction(minerAddress);
      transactions := transactions + [reward];
      assert transactions[..|transactions| - 1] == oldTransactions;
      assert IsReward(transactions[|transactions| - 1]);
      merkelRoot := MerkelRootOf(transactions);
      SetHash();
    }

    /** `set_difficulty`: replace the difficulty and rehash; nothing else changes. */
    method SetDifficulty(diff: u32)
      modifies this
      ensures difficulty == diff && VerifyHash()
      ensures height == old(height) && timestamp == old(timestamp) && prevHash == old(prevHash)
      ensures nonce == old(nonce) && merkelRoot == old(merkelRoot) && transactions == old(transactions)
    {
      difficulty := diff;
      SetHash();
    }

    /** `increment_and_hash`: the mining step. A nonce at u32::MAX is not
        wrapped: the block is left exactly as it was. */
    method IncrementAndHash()
      modifies this
      ensures old(nonce) == U32Max ==> unchanged(this)
      ensures old(nonce) < U32Max ==>
        && nonce == old(nonce) + 1 && VerifyHash()
        && height == old(height) && timestamp == old(timestamp) && prevHash == old(prevHash)
        && difficulty == old(difficulty) && merkelRoot == old(merkelRoot)
        && transactions == old(transactions)
    {
      if nonce == U32Max {
        return;
      }
      nonce := nonce + 1;
      SetHash();
    }

    /** The getters hand out a copy of one field and change nothing. */
    function GetHash(): (h: string) reads this ensures h == hash { hash }
    function GetMerkelRoot(): (r: string) reads this ensures r == merkelRoot { merkelRoot }
    function GetPrevHash(): (h: string) reads this ensures h == prevHash { prevHash }
    function GetTransactions(): (txs: seq<Transaction>) reads this ensures txs == transactions { transactions }
    function GetDifficulty(): (d: u32) reads this ensures d == difficulty { difficulty }
    function GetTimestamp(): (t: u64) reads this ensures t == timestamp { timestamp }

    /** `set_hash`: store the hash of the current message. */
    method SetHash()
      modifies this`hash
      ensures VerifyHash()
    {
      hash := Sha256(GetMessage());
    }

    /** `get_message`: the hashed fields of this block; the hash itself and
        the transactions (other than through the Merkle root) are not part of it. */
    function GetMessage(): (m: string) reads this
      ensures m == Message(height, timestamp, prevHash, nonce, difficulty, merkelRoot)
    {
      Message(height, timestamp, prevHash, nonce, difficulty, merkelRoot)
    }

    /**
     * `verify_difficulty(hash, difficulty)`: walk the shifts 0, 4, ..., 28 and
     * reject as soon as a nibble of the hash tail exceeds the nibble of the
     * difficulty; the hash must have a parseable tail (the source unwraps the
     * parse).
     */
    static method VerifyDifficulty(hash: string, difficulty: u32) returns (ok: bool)
      requires Difficulty.TailParses(hash)
      ensures ok == Difficulty.WithinTarget(Difficulty.TailValue(hash), difficulty)
    {
      var hashU32 := ParseHexU32(hash[|hash| - 8..]).value;
      var i := 0;
      while i <= 28
        invariant 0 <= i <= 32 && i % 4 == 0
        invariant forall k :: 0 <= k < i / 4 ==> Nibble(hashU32, k) <= Nibble(difficulty, k)
      {
        // The nibbles at shift i of the difficulty and of the hash tail.
        var difficultyBits := Nibble(difficulty, i / 4);
        var hashBits := Nibble(hashU32, i / 4);
        if hashBits > difficultyBits {
          return false;
        }
        i := i + 4;
      }
      return true;
    }

    /** `verify_transactions`: at most 5000 transactions, and every one not
        sent by the identity point carries a valid signature. */
    method VerifyTransactions() returns (ok: bool)
      ensures ok == TransactionsValid(transactions)
    {
      if |transactions| > TransactionLimitPerBlock {
        return false;
      }
      for i := 0 to |transactions|
        invariant forall j :: 0 <= j < i ==> SignatureAccepted(transactions[j])
      {
        var transaction := transactions[i];
        if transaction.sender != Identity && !Verify(transaction) {
          return false;
        }
      }
      return true;
    }

    /** `verify_hash`: the stored hash is the hash of the current message. A
        block that passes has a 64-digit hash that `verify_difficulty` can parse. */
    predicate VerifyHash() reads this
      ensures VerifyHash() ==> |hash| == 64 && Difficulty.TailParses(hash)
    {
      BlockHashesParse(GetMessage());
      GetHash() == Sha256(GetMessage())
    }
  }
}
