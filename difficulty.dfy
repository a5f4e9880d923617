/**
 * The proof-of-work test of `Block::verify_difficulty`: the last eight
 * characters of the hash, read as a hexadecimal u32, must be at most the
 * difficulty word nibble by nibble — a per-digit bound, not a numeric
 * comparison.
 */
module Difficulty {
  import opened Wrappers
  import opened Hex

  type u32 = x: int | 0 <= x < 0x1_0000_0000

  /** The difficulty of the genesis block, which accepts every hash. */
  const MaxDifficulty: u32 := 0xffff_ffff

  /** The last eight characters of a hash. */
  function Tail(hash: string): string
    requires |hash| >= 8
  {
    hash[|hash| - 8..]
  }

  /** What `verify_difficulty` needs of its argument in order not to panic:
      the slice of the last eight characters exists and parses. */
  predicate TailParses(hash: string) {
    |hash| >= 8 && ParseHexU32(Tail(hash)).Some?
  }

  /** The u32 the last eight characters denote. */
  function TailValue(hash: string): u32
    requires TailParses(hash)
  {
    ParseHexU32(Tail(hash)).value
  }

  /** Each of the eight nibbles of `h` is at most the same nibble of `d`. */
  predicate WithinTarget(h: nat, d: nat) {
    forall k :: 0 <= k < 8 ==> Nibble(h, k) <= Nibble(d, k)
  }

  // ---------------------------------------------------------------------------
  // Properties of the nibble-wise target
  // ---------------------------------------------------------------------------

  lemma AllOnesNibble(k: nat)
    requires k < 8
    ensures Nibble(0xffff_ffff, k) == 15
  {
    assert Nibble(0xffff_ffff, 0) == 15;
    assert Nibble(0xffff_ffff, 1) == 15;
    assert Nibble(0xffff_ffff, 2) == 15;
    assert Nibble(0xffff_ffff, 3) == 15;
    assert Nibble(0xffff_ffff, 4) == 15;
    assert Nibble(0xffff_ffff, 5) == 15;
    assert Nibble(0xffff_ffff, 6) == 15;
    assert Nibble(0xffff_ffff, 7) == 15;
  }

  /** The all-ones difficulty accepts every hash. */
  lemma MaxDifficultyAcceptsAll(h: u32)
    ensures WithinTarget(h, MaxDifficulty)
  {
    forall k | 0 <= k < 8 ensures Nibble(h, k) <= Nibble(MaxDifficulty, k) {
      NibbleBound(h, k);
      AllOnesNibble(k);
    }
  }

  /** The all-zero difficulty accepts exactly the value 0. */
  lemma ZeroDifficultyAcceptsOnlyZero(h: u32)
    ensures WithinTarget(h, 0) <==> h == 0
  {
    forall k | 0 <= k < 8 ensures Nibble(0, k) == 0 { NibbleOfZero(k); }
    if WithinTarget(h, 0) {
      assert Pow16(8) == 0x1_0000_0000;
      ZeroNibblesZeroValue(h, 8);
    }
  }

  /**
   * In terms of the hash text: the all-zero difficulty accepts a hash exactly
   * when its last eight characters are "00000000" — or "+0000000", which the
   * parser also reads as 0.
   */
  lemma ZeroDifficultyTail(hash: string)
    requires TailParses(hash)
    ensures WithinTarget(TailValue(hash), 0) <==> Tail(hash) == "00000000" || Tail(hash) == "+0000000"
  {
    var t := Tail(hash);
    var u := Unsigned(t);
    assert AllHexDigits(u) && TailValue(hash) == DigitsValue(u);
    assert t == u || t == ['+'] + u;
    assert |u| <= 8;
    forall k | 0 <= k < 8 ensures Nibble(0, k) == 0 { NibbleOfZero(k); }
    if WithinTarget(TailValue(hash), 0) {
      forall i | 0 <= i < |u| ensures u[i] == '0' {
        NibbleOfDigits(u, |u| - 1 - i);
      }
      if t == u {
        assert t == "00000000";
      } else {
        assert u == "0000000";
      }
    } else {
      var k :| 0 <= k < 8 && Nibble(TailValue(hash), k) > 0;
      NibbleOfDigits(u, k);
      assert u[|u| - 1 - k] != '0';
    }
  }

  /** Raising every nibble of the difficulty keeps a hash accepted. */
  lemma MonotoneInDifficulty(h: nat, d: nat, d': nat)
    requires forall k :: 0 <= k < 8 ==> Nibble(d, k) <= Nibble(d', k)
    ensures WithinTarget(h, d) ==> WithinTarget(h, d')
  {
  }

  /** An accepted value is numerically at most the difficulty. */
  lemma WithinTargetIsAtMost(h: u32, d: u32)
    ensures WithinTarget(h, d) ==> h <= d
  {
    if WithinTarget(h, d) {
      assert Pow16(8) == 0x1_0000_0000;
      NibblewiseLeImpliesLe(h, d, 8);
    }
  }

  /** The converse fails: 0x0F is below 0x10 but its low nibble is too large. */
  lemma NotNumericComparison()
    ensures 0x0F < 0x10 && !WithinTarget(0x0F, 0x10)
  {
    assert Nibble(0x0F, 0) > Nibble(0x10, 0);
  }

  /** Difficulty 0x1FFFFFFF bounds only the top nibble, by 1. */
  lemma TopNibbleDifficulty(h: u32)
    ensures WithinTarget(h, 0x1fff_ffff) <==> Nibble(h, 7) <= 1
  {
    assert Nibble(0x1fff_ffff, 7) == 1;
    forall k | 0 <= k < 7 ensures Nibble(h, k) <= Nibble(0x1fff_ffff, k) {
      NibbleBound(h, k);
      assert Nibble(0x1fff_ffff, 0) == 15;
      assert Nibble(0x1fff_ffff, 1) == 15;
      assert Nibble(0x1fff_ffff, 2) == 15;
      assert Nibble(0x1fff_ffff, 3) == 15;
      assert Nibble(0x1fff_ffff, 4) == 15;
      assert Nibble(0x1fff_ffff, 5) == 15;
      assert Nibble(0x1fff_ffff, 6) == 15;
    }
  }
}
