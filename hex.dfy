/**
 * Hexadecimal text and 4-bit digits: the lower-case encoding a SHA-256 digest
 * is rendered in, `u32::from_str_radix(s, 16)`, and the nibbles `(x >> 4k) & 0xf`
 * of an unsigned number.
 */
module Hex {
  import opened Wrappers

  const U32Limit: nat := 0x1_0000_0000

  predicate IsHexDigit(c: char) {
    '0' <= c <= '9' || 'a' <= c <= 'f' || 'A' <= c <= 'F'
  }

  /** The value of one hex digit, either case. */
  function DigitValue(c: char): (v: nat)
    requires IsHexDigit(c)
    ensures v < 16
    ensures v == 0 <==> c == '0'
  {
    if '0' <= c <= '9' then c as nat - '0' as nat
    else if 'a' <= c <= 'f' then c as nat - 'a' as nat + 10
    else c as nat - 'A' as nat + 10
  }

  /** The lower-case digit for a value below 16. */
  function DigitChar(v: nat): (c: char)
    requires v < 16
    ensures IsHexDigit(c) && DigitValue(c) == v
  {
    if v < 10 then ('0' as nat + v) as char else ('a' as nat + v - 10) as char
  }

  predicate AllHexDigits(s: string) {
    forall i :: 0 <= i < |s| ==> IsHexDigit(s[i])
  }

  /** The number a string of hex digits denotes, most significant first. */
  function DigitsValue(s: string): nat
    requires AllHexDigits(s)
  {
    if s == [] then 0 else DigitsValue(s[..|s| - 1]) * 16 + DigitValue(s[|s| - 1])
  }

  lemma {:induction false} DigitsValueBound(s: string)
    requires AllHexDigits(s)
    ensures DigitsValue(s) < Pow16(|s|)
  {
    if s != [] { DigitsValueBound(s[..|s| - 1]); }
  }

  /**
   * `u32::from_str_radix(s, 16)`: an optional leading '+' (not on its own),
   * then one or more hex digits of either case, whose value must fit in 32
   * bits. Anything else is an error.
   */
  function ParseHexU32(s: string): (r: Option<nat>)
    ensures r.Some? ==> r.value < U32Limit
  {
    if |s| == 0 then None
    else if s[0] == '+' then (if |s| == 1 then None else ParseDigits(s[1..]))
    else ParseDigits(s)
  }

  function ParseDigits(s: string): Option<nat> {
    if AllHexDigits(s) && DigitsValue(s) < U32Limit then Some(DigitsValue(s)) else None
  }

  /** The digits that `ParseHexU32` reads: the text without its '+' sign. */
  function Unsigned(s: string): string {
    if |s| > 0 && s[0] == '+' then s[1..] else s
  }

  /** Lower-case hex rendering of a sequence of 4-bit values. */
  function Encode(ds: seq<nat>): (s: string)
    requires forall i :: 0 <= i < |ds| ==> ds[i] < 16
    ensures |s| == |ds| && AllHexDigits(s)
    ensures forall i :: 0 <= i < |ds| ==> s[i] != '+' && DigitValue(s[i]) == ds[i]
  {
    if ds == [] then [] else Encode(ds[..|ds| - 1]) + [DigitChar(ds[|ds| - 1])]
  }

  // ---------------------------------------------------------------------------
  // Nibbles
  // ---------------------------------------------------------------------------

  function Pow16(k: nat): (p: nat)
    ensures p >= 1
  {
    if k == 0 then 1 else 16 * Pow16(k - 1)
  }

  /** Nibble `k` of `x`, i.e. `(x >> 4k) & 0xf`: hex digit `k` counted from the
      least significant end. */
  function Nibble(x: nat, k: nat): nat {
    if k == 0 then x % 16 else Nibble(x / 16, k - 1)
  }

  lemma {:induction false} NibbleBound(x: nat, k: nat)
    ensures Nibble(x, k) < 16
  {
    if k > 0 { NibbleBound(x / 16, k - 1); }
  }

  lemma {:induction false} NibbleOfZero(k: nat)
    ensures Nibble(0, k) == 0
  {
    if k > 0 { NibbleOfZero(k - 1); }
  }

  /** Nibble `k` of a parsed digit string is its `k`-th digit from the right,
      and 0 beyond its length. */
  lemma {:induction false} NibbleOfDigits(s: string, k: nat)
    requires AllHexDigits(s)
    ensures k < |s| ==> Nibble(DigitsValue(s), k) == DigitValue(s[|s| - 1 - k])
    ensures k >= |s| ==> Nibble(DigitsValue(s), k) == 0
  {
    if s == [] {
      NibbleOfZero(k);
    } else {
      var init := s[..|s| - 1];
      var v := DigitsValue(s);
      assert v / 16 == DigitsValue(init) && v % 16 == DigitValue(s[|s| - 1]);
      if k > 0 {
        NibbleOfDigits(init, k - 1);
        if k < |s| {
          assert init[|init| - 1 - (k - 1)] == s[|s| - 1 - k];
        }
      }
    }
  }

  /** A number below 16^m whose m low nibbles are all 0 is 0. */
  lemma {:induction false} ZeroNibblesZeroValue(x: nat, m: nat)
    requires x < Pow16(m)
    requires forall k :: 0 <= k < m ==> Nibble(x, k) == 0
    ensures x == 0
  {
    if m > 0 {
      forall k | 0 <= k < m - 1 ensures Nibble(x / 16, k) == 0 {
        assert Nibble(x, k + 1) == Nibble(x / 16, k);
      }
      ZeroNibblesZeroValue(x / 16, m - 1);
      assert Nibble(x, 0) == x % 16;
    }
  }

  /** Nibble-wise `<=` over the m low nibbles implies numeric `<=` below 16^m. */
  lemma {:induction false} NibblewiseLeImpliesLe(x: nat, y: nat, m: nat)
    requires x < Pow16(m) && y < Pow16(m)
    requires forall k :: 0 <= k < m ==> Nibble(x, k) <= Nibble(y, k)
    ensures x <= y
  {
    if m > 0 {
      forall k | 0 <= k < m - 1 ensures Nibble(x / 16, k) <= Nibble(y / 16, k) {
        assert Nibble(x, k + 1) == Nibble(x / 16, k);
        assert Nibble(y, k + 1) == Nibble(y / 16, k);
      }
      NibblewiseLeImpliesLe(x / 16, y / 16, m - 1);
      assert Nibble(x, 0) == x % 16 && Nibble(y, 0) == y % 16;
    }
  }
}
