/**
 * Modular arithmetic of the secp256k1 crate: a sign-correcting `modulo` built on
 * the truncating remainder of arbitrary-precision integers, and the extended
 * Euclidean algorithm `modular_multiplicative_inverse`, which carries its state
 * through tail recursion.
 *
 * Dafny's `/` and `%` are Euclidean; the big-integer `/` and `%` of the source
 * truncate toward zero and are written out as TruncDiv and TruncRem.
 */
module ModularArithmetic {
  import opened Wrappers

  function Abs(x: int): int { if x < 0 then -x else x }

  // ---------------------------------------------------------------------------
  // Division facts used throughout
  // ---------------------------------------------------------------------------

  /** Euclidean division is unique: any quotient/remainder pair with the
      remainder in range is the one Dafny's `/` and `%` give. */
  lemma DivModUnique(x: int, m: int, q: int, r: int)
    requires m > 0 && 0 <= r < m && x == q * m + r
    ensures x / m == q && x % m == r
  {
    var q0, r0 := x / m, x % m;
    assert x == q0 * m + r0;
    if q > q0 {
      assert (q - q0) * m >= m by { MulAtLeast(q - q0, m); }
      assert false;
    } else if q < q0 {
      assert (q0 - q) * m >= m by { MulAtLeast(q0 - q, m); }
      assert false;
    }
  }

  lemma MulAtLeast(c: int, m: int)
    requires c >= 1 && m > 0
    ensures c * m >= m
  {
  }

  /** Adding a multiple of `m` does not change the remainder modulo `m`. */
  lemma ModAddMultiple(x: int, k: int, m: int)
    requires m > 0
    ensures (x + k * m) % m == x % m
  {
    DivModUnique(x + k * m, m, x / m + k, x % m);
  }

  // ---------------------------------------------------------------------------
  // The big-integer operators of the source
  // ---------------------------------------------------------------------------

  /** `x % m` on big integers: the remainder truncated toward zero, which takes
      the sign of the dividend. */
  function TruncRem(x: int, m: int): (r: int)
    requires m != 0
    ensures -Abs(m) < r < Abs(m)
    ensures x >= 0 ==> r >= 0
    ensures x < 0 ==> r <= 0
    ensures (x - r) % Abs(m) == 0
  {
    if x >= 0 then
      WholeParts(x, Abs(m));
      x % Abs(m)
    else
      WholeParts(-x, Abs(m));
      -((-x) % Abs(m))
  }

  /** `x / m` on big integers: the quotient truncated toward zero, so its
      magnitude is the number of whole |m| in |x| and its sign is the product
      of the signs. */
  function TruncDiv(x: int, m: int): (q: int)
    requires m != 0
    ensures (x >= 0) == (m > 0) ==> q >= 0 && q * Abs(m) <= Abs(x) < (q + 1) * Abs(m)
    ensures (x >= 0) != (m > 0) ==> q <= 0 && -q * Abs(m) <= Abs(x) < (1 - q) * Abs(m)
  {
    var q := if (x >= 0) == (m > 0) then Abs(x) / Abs(m) else -(Abs(x) / Abs(m));
    TruncDivBounds(x, m, q);
    q
  }

  lemma TruncDivBounds(x: int, m: int, q: int)
    requires m != 0
    requires q == if (x >= 0) == (m > 0) then Abs(x) / Abs(m) else -(Abs(x) / Abs(m))
    ensures (x >= 0) == (m > 0) ==> q >= 0 && q * Abs(m) <= Abs(x) < (q + 1) * Abs(m)
    ensures (x >= 0) != (m > 0) ==> q <= 0 && -q * Abs(m) <= Abs(x) < (1 - q) * Abs(m)
  {
    var y, a := Abs(x), Abs(m);
    var k := y / a;
    WholeParts(y, a);
    if (x >= 0) == (m > 0) {
      assert q == k;
    } else {
      assert -q == k && 1 - q == k + 1;
    }
  }

  /** Removing the remainder of y by a leaves a multiple of a, made of y / a
      whole copies of a. */
  lemma WholeParts(y: int, a: int)
    requires y >= 0 && a > 0
    ensures (y / a) * a <= y < (y / a + 1) * a
    ensures (y - y % a) % a == 0 && (-(y - y % a)) % a == 0
  {
    var k := y / a;
    assert y - y % a == k * a;
    assert -(k * a) == (-k) * a;
    ModAddMultiple(0, k, a);
    ModAddMultiple(0, -k, a);
  }

  /** The truncating operators satisfy the division identity, keep the
      remainder strictly inside (-|m|, |m|) with the sign of the dividend, and
      agree with the Euclidean ones on non-negative operands. */
  lemma TruncDivRem(x: int, m: int)
    requires m != 0
    ensures x == TruncDiv(x, m) * m + TruncRem(x, m)
    ensures -Abs(m) < TruncRem(x, m) < Abs(m)
    ensures x >= 0 ==> TruncRem(x, m) >= 0
    ensures x < 0 ==> TruncRem(x, m) <= 0
    ensures x >= 0 && m > 0 ==> TruncDiv(x, m) == x / m && TruncRem(x, m) == x % m
  {
  }

  /**
   * `modulo(x, m)`: `((x % m) + m) % m` with the truncating `%`. For a positive
   * modulus it is the mathematical residue of `x` — in [0, m) even for a
   * negative `x`; for a negative modulus the residue lies in (m, 0].
   */
  function Modulo(x: int, m: int): (r: int)
    requires m != 0
    ensures m > 0 ==> 0 <= r < m && r == x % m
    ensures m < 0 ==> m < r <= 0 && (x - r) % Abs(m) == 0
  {
    ModuloResidue(x, m);
    TruncRem(TruncRem(x, m) + m, m)
  }

  lemma ModuloResidue(x: int, m: int)
    requires m != 0
    ensures var r := TruncRem(TruncRem(x, m) + m, m);
      (m > 0 ==> 0 <= r < m && r == x % m) &&
      (m < 0 ==> m < r <= 0 && (x - r) % Abs(m) == 0)
  {
    TruncDivRem(x, m);
    var t, q := TruncRem(x, m), TruncDiv(x, m);
    TruncDivRem(t + m, m);
    var r, q2 := TruncRem(t + m, m), TruncDiv(t + m, m);
    if m > 0 {
      ResiduePositive(x, m, q, t);
    } else {
      ResidueNegative(x, m, q, t, q2, r);
    }
  }

  lemma ResiduePositive(x: int, m: int, q: int, t: int)
    requires m > 0 && x == q * m + t && -m < t < m
    ensures (t + m) % m == x % m
  {
    assert t + m == x + (1 - q) * m;
    ModAddMultiple(x, 1 - q, m);
  }

  lemma ResidueNegative(x: int, m: int, q: int, t: int, q2: int, r: int)
    requires m < 0 && x == q * m + t && t + m == q2 * m + r
    ensures (x - r) % -m == 0
  {
    assert x - r == 0 + (1 - q - q2) * -m;
    ModAddMultiple(0, 1 - q - q2, -m);
  }

  /** The example of the source's comment: -21 mod 4 is 3, not -1. */
  lemma ModuloOfNegative()
    ensures TruncRem(-21, 4) == -1
    ensures Modulo(-21, 4) == 3
  {
  }

  /** Modulo is the identity on [0, m). */
  lemma ModuloIdentityInRange(x: int, m: int)
    requires 0 <= x < m
    ensures Modulo(x, m) == x
  {
  }

  // ---------------------------------------------------------------------------
  // Divisibility
  // ---------------------------------------------------------------------------

  /** `d` is a positive divisor of `x`. */
  predicate Divides(d: int, x: int) { d > 0 && x % d == 0 }

  /** `g` is the greatest common divisor of `a` and `b`: a common divisor that
      every common divisor divides. */
  ghost predicate IsGcd(g: int, a: int, b: int) {
    Divides(g, a) && Divides(g, b) &&
    forall d :: Divides(d, a) && Divides(d, b) ==> Divides(d, g)
  }

  /** The only common positive divisor of `a` and `b` is 1. */
  ghost predicate Coprime(a: int, b: int) {
    forall d :: Divides(d, a) && Divides(d, b) ==> d == 1
  }

  lemma DividesCombination(d: int, x: int, y: int, q: int)
    requires Divides(d, x) && Divides(d, y)
    ensures Divides(d, x - q * y)
  {
    var kx, ky := x / d, y / d;
    assert x == kx * d && y == ky * d;
    assert x - q * y == (kx - q * ky) * d;
    DivModUnique(x - q * y, d, kx - q * ky, 0);
  }

  // ---------------------------------------------------------------------------
  // The extended Euclidean algorithm
  // ---------------------------------------------------------------------------

  /** The local state of one activation: the two remainders and the two
      coefficient pairs that express them in the original operands. */
  datatype Euclid = Euclid(n: int, b: int, t1: int, t2: int, s1: int, s2: int)

  /**
   * One activation's update: the smaller remainder divides the larger one,
   * the larger is replaced by its `modulo` by the smaller, and its coefficient
   * pair loses `q` times the other pair. A tie counts as "n is the larger".
   * Any non-zero operands can be stepped (zero divides by zero); only
   * positive ones are guaranteed to make progress.
   */
  function Step(e: Euclid): (f: Euclid)
    requires e.n != 0 && e.b != 0
    ensures e.n < e.b ==> f.n == e.n && f.t1 == e.t1 && f.t2 == e.t2
    ensures e.n >= e.b ==> f.b == e.b && f.s1 == e.s1 && f.s2 == e.s2
    ensures 0 < e.n < e.b ==> 0 <= f.b < e.n && f.b == e.b % e.n
    ensures 0 < e.b <= e.n ==> 0 <= f.n < e.b && f.n == e.n % e.b
    ensures e.n > 0 && e.b > 0 ==> 0 <= f.n + f.b < e.n + e.b
  {
    var q := if e.n < e.b then TruncDiv(e.b, e.n) else TruncDiv(e.n, e.b);
    var r := if e.n < e.b then Modulo(e.b, e.n) else Modulo(e.n, e.b);
    if e.n < e.b then
      e.(b := r, s1 := e.s1 - e.t1 * q, s2 := e.s2 - e.t2 * q)
    else
      e.(n := r, t1 := e.t1 - e.s1 * q, t2 := e.t2 - e.s2 * q)
  }

  /**
   * The recursion of `modular_multiplicative_inverse`: step, then stop as
   * soon as either remainder is zero. It always stops because n + b
   * decreases, and exactly one remainder is zero in the final state.
   */
  function Run(e: Euclid): (f: Euclid)
    requires e.n > 0 && e.b > 0
    ensures f.n >= 0 && f.b >= 0
    ensures (f.n == 0) != (f.b == 0)
    ensures f.n <= e.n && f.b <= e.b
    decreases e.n + e.b
  {
    var g := Step(e);
    if g.n == 0 || g.b == 0 then g else Run(g)
  }

  /**
   * `modular_multiplicative_inverse(n, b, t1, t2, s1, s2)`: absent coefficients
   * default to the pairs (1, 0) and (0, 1); the result is always the `t1` of
   * the final state, whichever remainder reached zero. For a top-level call,
   * n times the result is congruent modulo b to the final n: the gcd when b
   * reached zero, and 0 when n did.
   */
  function ModularMultiplicativeInverse(
    n: int, b: int,
    t1: Option<int>, t2: Option<int>, s1: Option<int>, s2: Option<int>): (r: int)
    requires n > 0 && b > 0
    ensures t1 == None && t2 == None && s1 == None && s2 == None ==>
      (n * r) % b == Run(Start(n, b)).n % b
  {
    var f := Run(Euclid(n, b, t1.GetOr(1), t2.GetOr(0), s1.GetOr(0), s2.GetOr(1)));
    if t1 == None && t2 == None && s1 == None && s2 == None then
      RunKeepsBezout(Start(n, b), n, b);
      CongruentViaBezout(n, f.t1, f.t2, b, f.n);
      f.t1
    else
      f.t1
  }

  /** The state a top-level call starts from. */
  function Start(n: int, b: int): Euclid {
    Euclid(n, b, 1, 0, 0, 1)
  }

  // ---------------------------------------------------------------------------
  // Invariants of the recursion
  // ---------------------------------------------------------------------------

  /** Both remainders are the stated combinations of the original operands. */
  predicate Bezout(e: Euclid, n0: int, b0: int) {
    e.n == e.t1 * n0 + e.t2 * b0 && e.b == e.s1 * n0 + e.s2 * b0
  }

  lemma StepKeepsBezout(e: Euclid, n0: int, b0: int)
    requires e.n > 0 && e.b > 0 && Bezout(e, n0, b0)
    ensures Bezout(Step(e), n0, b0)
  {
    if e.n < e.b {
      TruncDivRem(e.b, e.n);
      SubtractMultiple(e.b, e.n, e.b / e.n, e.s1, e.s2, e.t1, e.t2, n0, b0);
    } else {
      TruncDivRem(e.n, e.b);
      SubtractMultiple(e.n, e.b, e.n / e.b, e.t1, e.t2, e.s1, e.s2, n0, b0);
    }
  }

  /** Subtracting q times one combination from another subtracts the
      coefficients. */
  lemma SubtractMultiple(x: int, y: int, q: int, a1: int, a2: int, c1: int, c2: int, n0: int, b0: int)
    requires x == a1 * n0 + a2 * b0 && y == c1 * n0 + c2 * b0
    ensures x - q * y == (a1 - c1 * q) * n0 + (a2 - c2 * q) * b0
  {
    assert q * y == (c1 * q) * n0 + (c2 * q) * b0;
    assert (a1 - c1 * q) * n0 == a1 * n0 - (c1 * q) * n0;
    assert (a2 - c2 * q) * b0 == a2 * b0 - (c2 * q) * b0;
  }

  /** The Bezout relations hold in the final state of every run that starts
      with them. */
  lemma {:induction false} RunKeepsBezout(e: Euclid, n0: int, b0: int)
    requires e.n > 0 && e.b > 0 && Bezout(e, n0, b0)
    ensures Bezout(Run(e), n0, b0)
    decreases e.n + e.b
  {
    StepKeepsBezout(e, n0, b0);
    var g := Step(e);
    if g.n != 0 && g.b != 0 {
      RunKeepsBezout(g, n0, b0);
    }
  }

  /** A step keeps the common divisors of the two remainders, in both
      directions; hence it keeps their gcd. */
  lemma StepKeepsCommonDivisors(e: Euclid, d: int)
    requires e.n > 0 && e.b > 0
    ensures Divides(d, e.n) && Divides(d, e.b) <==> Divides(d, Step(e).n) && Divides(d, Step(e).b)
  {
    if e.n < e.b {
      CommonDivisorsOfRemainder(d, e.b, e.n);
    } else {
      CommonDivisorsOfRemainder(d, e.n, e.b);
    }
  }

  /** x and y have the same common divisors as x % y and y. */
  lemma CommonDivisorsOfRemainder(d: int, x: int, y: int)
    requires y > 0
    ensures Divides(d, x) && Divides(d, y) <==> Divides(d, x % y) && Divides(d, y)
  {
    if d > 0 {
      var q := x / y;
      assert x % y == x - q * y;
      assert x == x % y - (-q) * y;
      if Divides(d, x) && Divides(d, y) { DividesCombination(d, x, y, q); }
      if Divides(d, x % y) && Divides(d, y) { DividesCombination(d, x % y, y, -q); }
    }
  }

  lemma {:induction false} RunKeepsCommonDivisors(e: Euclid, d: int)
    requires e.n > 0 && e.b > 0
    ensures Divides(d, e.n) && Divides(d, e.b) <==> Divides(d, Run(e).n) && Divides(d, Run(e).b)
    decreases e.n + e.b
  {
    StepKeepsCommonDivisors(e, d);
    var g := Step(e);
    if g.n != 0 && g.b != 0 {
      RunKeepsCommonDivisors(g, d);
    }
  }

  /** The remainder that survives is the gcd of the operands, whichever side
      reached zero. */
  lemma FinalRemainderIsGcd(n0: int, b0: int)
    requires n0 > 0 && b0 > 0
    ensures IsGcd(Run(Start(n0, b0)).n + Run(Start(n0, b0)).b, n0, b0)
  {
    var f := Run(Start(n0, b0));
    var g := f.n + f.b;
    assert g > 0 && g % g == 0 && 0 % g == 0;
    assert Divides(g, f.n) && Divides(g, f.b);
    RunKeepsCommonDivisors(Start(n0, b0), g);
    forall d | Divides(d, n0) && Divides(d, b0)
      ensures Divides(d, g)
    {
      RunKeepsCommonDivisors(Start(n0, b0), d);
    }
  }

  /** A Bezout relation g = t * a + u * m makes a * t congruent to g modulo m. */
  lemma CongruentViaBezout(a: int, t: int, u: int, m: int, g: int)
    requires m > 0 && g == t * a + u * m
    ensures (a * t) % m == g % m
  {
    assert a * t == g + (-u) * m;
    ModAddMultiple(g, -u, m);
  }

  // ---------------------------------------------------------------------------
  // What the result is
  // ---------------------------------------------------------------------------

  /**
   * When the run ends with b = 0, n0 * result is congruent modulo b0 to the
   * surviving n, which is gcd(n0, b0).
   */
  lemma CongruentToGcdWhenBReachesZero(n0: int, b0: int)
    requires n0 > 0 && b0 > 0 && Run(Start(n0, b0)).b == 0
    ensures IsGcd(Run(Start(n0, b0)).n, n0, b0)
    ensures (n0 * ModularMultiplicativeInverse(n0, b0, None, None, None, None)) % b0
            == Run(Start(n0, b0)).n % b0
  {
    var f := Run(Start(n0, b0));
    FinalRemainderIsGcd(n0, b0);
    RunKeepsBezout(Start(n0, b0), n0, b0);
    CongruentViaBezout(n0, f.t1, f.t2, b0, f.n);
  }

  /** For coprime operands with b0 > 1, a run that ends with b = 0 returns the
      inverse of n0 modulo b0. */
  lemma InverseWhenBReachesZero(n0: int, b0: int)
    requires n0 > 0 && b0 > 1 && Run(Start(n0, b0)).b == 0 && Coprime(n0, b0)
    ensures (n0 * ModularMultiplicativeInverse(n0, b0, None, None, None, None)) % b0 == 1
  {
    CongruentToGcdWhenBReachesZero(n0, b0);
    GcdOfCoprimeIsOne(Run(Start(n0, b0)).n, n0, b0);
    OneModulo(b0);
  }

  lemma OneModulo(m: int)
    requires m > 0
    ensures m > 1 ==> 1 % m == 1
  {
  }

  lemma GcdOfCoprimeIsOne(g: int, a: int, b: int)
    requires IsGcd(g, a, b)
    ensures Coprime(a, b) ==> g == 1
  {
  }

  /**
   * When the run ends with n = 0 instead, the returned t1 satisfies
   * t1 * n0 + t2 * b0 = 0: n0 * result is a multiple of b0, so for b0 > 1
   * the result is never an inverse.
   */
  lemma NoInverseWhenNReachesZero(n0: int, b0: int)
    requires n0 > 0 && b0 > 0 && Run(Start(n0, b0)).n == 0
    ensures Run(Start(n0, b0)).t1 * n0 + Run(Start(n0, b0)).t2 * b0 == 0
    ensures (n0 * ModularMultiplicativeInverse(n0, b0, None, None, None, None)) % b0 == 0
  {
    var f := Run(Start(n0, b0));
    RunKeepsBezout(Start(n0, b0), n0, b0);
    assert ModularMultiplicativeInverse(n0, b0, None, None, None, None) == f.t1;
    CongruentViaBezout(n0, f.t1, f.t2, b0, 0);
  }

  /** The example of the source's comment: 5 * 3 = 1 (mod 7). */
  lemma InverseOfFiveModSeven()
    ensures ModularMultiplicativeInverse(5, 7, None, None, None, None) == 3
    ensures (5 * 3) % 7 == 1
  {
  }

  /** Equal operands: the first step zeroes n and the result is 1. */
  lemma EqualOperandsGiveOne(n: int)
    requires n > 0
    ensures Run(Start(n, n)).n == 0
    ensures ModularMultiplicativeInverse(n, n, None, None, None, None) == 1
  {
  }

  /**
   * Coprime operands for which the source's answer is wrong: the run ends
   * with n = 0 and returns 5, and 2 * 5 = 0 (mod 5).
   */
  lemma CoprimeButNotInverted()
    ensures Coprime(2, 5)
    ensures ModularMultiplicativeInverse(2, 5, None, None, None, None) == 5
    ensures (2 * 5) % 5 != 1
  {
  }

  /**
   * The inverse as evidently intended: return the coefficient of n0 on the
   * side that did not reach zero.
   */
  function ModularInverse(n0: int, b0: int): (r: int)
    requires n0 > 0 && b0 > 0
    ensures Coprime(n0, b0) && b0 > 1 ==> (n0 * r) % b0 == 1
  {
    var f := Run(Start(n0, b0));
    if f.b == 0 then
      CongruentToGcdWhenBReachesZero(n0, b0);
      GcdOfCoprimeIsOne(f.n, n0, b0);
      OneModulo(b0);
      f.t1
    else
      CongruentToGcdWhenNReachesZero(n0, b0);
      GcdOfCoprimeIsOne(f.b, n0, b0);
      OneModulo(b0);
      f.s1
  }

  /** When the run ends with n = 0, it is s1 that n0 must be multiplied by to
      reach the gcd, now held by b. */
  lemma CongruentToGcdWhenNReachesZero(n0: int, b0: int)
    requires n0 > 0 && b0 > 0 && Run(Start(n0, b0)).n == 0
    ensures IsGcd(Run(Start(n0, b0)).b, n0, b0)
    ensures (n0 * Run(Start(n0, b0)).s1) % b0 == Run(Start(n0, b0)).b % b0
  {
    var f := Run(Start(n0, b0));
    FinalRemainderIsGcd(n0, b0);
    RunKeepsBezout(Start(n0, b0), n0, b0);
    CongruentViaBezout(n0, f.s1, f.s2, b0, f.b);
  }

  // ---------------------------------------------------------------------------
  // Operands outside the modelled domain
  // ---------------------------------------------------------------------------

  /**
   * A negative operand can stall the recursion: from (-3, 5) the first step
   * gives b = -1, and from there q = 0 and the remainder is -1 again, so the
   * state maps to itself with neither remainder zero.
   */
  lemma NegativeOperandStalls()
    ensures Step(Start(-3, 5)) == Euclid(-3, -1, 1, 0, 1, 1)
    ensures Step(Euclid(-3, -1, 1, 0, 1, 1)) == Euclid(-3, -1, 1, 0, 1, 1)
  {
  }

  /** From (-1, 5) the first step zeroes b and the call returns 1, which is
      not the inverse of -1 modulo 5 (that is 4). */
  lemma NegativeOperandNotInverted()
    ensures Step(Start(-1, 5)).b == 0 && Step(Start(-1, 5)).t1 == 1
    ensures Modulo(-1 * 1, 5) != 1 && Modulo(-1 * 4, 5) == 1
  {
  }

  /** The corrected inverse handles the case the source gets wrong. */
  lemma CorrectedInverseOfTwoModFive()
    ensures (2 * ModularInverse(2, 5)) % 5 == 1
  {
  }
}
