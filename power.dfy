/** Natural-number powers and the modular arithmetic facts the protocol needs.

    `Pow` is the specification of exponentiation over unbounded naturals; the
    library's modular exponentiation is `Pow(b, e) % m`.  `ModPowBySquaring` is a
    reference square-and-multiply algorithm, proved to compute the same value. */
module Power {

  /** b raised to the e-th power, with Pow(b, 0) == 1 (also for b == 0). */
  function Pow(b: nat, e: nat): (r: nat)
    decreases e
  {
    if e == 0 then 1 else b * Pow(b, e - 1)
  }

  lemma PowOne(b: nat)
    ensures Pow(b, 1) == b
  {
  }

  /** Exponents add under multiplication of powers. */
  lemma {:induction false} PowAdd(b: nat, e1: nat, e2: nat)
    ensures Pow(b, e1 + e2) == Pow(b, e1) * Pow(b, e2)
    decreases e1
  {
    if e1 > 0 {
      PowAdd(b, e1 - 1, e2);
      calc {
        Pow(b, e1 + e2);
        b * Pow(b, (e1 - 1) + e2);
        b * (Pow(b, e1 - 1) * Pow(b, e2));
        (b * Pow(b, e1 - 1)) * Pow(b, e2);
      }
    }
  }

  /** A power of a power multiplies the exponents. */
  lemma {:induction false} PowMul(b: nat, e1: nat, e2: nat)
    ensures Pow(Pow(b, e1), e2) == Pow(b, e1 * e2)
    decreases e2
  {
    if e2 > 0 {
      PowMul(b, e1, e2 - 1);
      assert e1 * e2 == e1 * (e2 - 1) + e1;
      PowAdd(b, e1 * (e2 - 1), e1);
    }
  }

  /** A positive multiple of m is at least m. */
  lemma MulAtLeast(k: int, m: int)
    requires k >= 1 && m >= 1
    ensures k * m >= m
  {
    assert k * m == (k - 1) * m + m;
  }

  /** Multiplication distributes over subtraction on the left factor. */
  lemma MulSub(a: int, b: int, m: int)
    ensures a * m - b * m == (a - b) * m
  {
  }

  /** Multiplication distributes over addition on the left factor. */
  lemma MulAdd(a: int, b: int, m: int)
    ensures a * m + b * m == (a + b) * m
  {
  }

  /** Quotient and remainder modulo m are unique. */
  lemma DivModUnique(x: int, d: int, r: int, m: int)
    requires m >= 1 && 0 <= r < m
    requires x == d * m + r
    ensures x / m == d && x % m == r
  {
    var q0, r0 := x / m, x % m;
    assert x == q0 * m + r0 && 0 <= r0 < m;
    MulSub(q0, d, m);
    var k := q0 - d;
    assert k * m == r - r0;
    if k >= 1 {
      MulAtLeast(k, m);
    } else if k <= -1 {
      MulAtLeast(-k, m);
    }
  }

  /** Adding a multiple of m does not change a residue modulo m. */
  lemma ModAddMultiple(a: nat, t: nat, m: nat)
    requires m >= 1
    ensures (t * m + a) % m == a % m
  {
    var d, r := a / m, a % m;
    assert a == d * m + r && 0 <= r < m;
    MulAdd(t, d, m);
    DivModUnique(t * m + a, t + d, r, m);
  }

  /** The product of two numbers written as quotient and remainder modulo m. */
  lemma MulExpand(qa: int, ra: int, qb: int, rb: int, m: int)
    ensures (qa * m + ra) * (qb * m + rb) == (qa * (qb * m + rb) + ra * qb) * m + ra * rb
  {
  }

  /** Only the remainders of two factors decide their product modulo m. */
  lemma MulModParts(qa: nat, ra: nat, qb: nat, rb: nat, m: nat)
    requires m >= 1
    ensures ((qa * m + ra) * (qb * m + rb)) % m == (ra * rb) % m
  {
    MulExpand(qa, ra, qb, rb, m);
    var t: nat := qa * (qb * m + rb) + ra * qb;
    ModAddMultiple(ra * rb, t, m);
  }

  /** Reducing the factors of a product modulo m does not change the product modulo m. */
  lemma MulMod(a: nat, b: nat, m: nat)
    requires m >= 1
    ensures (a * b) % m == ((a % m) * (b % m)) % m
  {
    var qa, ra := a / m, a % m;
    var qb, rb := b / m, b % m;
    assert a == qa * m + ra;
    assert b == qb * m + rb;
    MulModParts(qa, ra, qb, rb, m);
  }

  /** A remainder is its own remainder. */
  lemma ModIdempotent(r: nat, m: nat)
    requires m >= 1 && r < m
    ensures r % m == r
  {
    DivModUnique(r, 0, r, m);
  }

  /** Reducing the base modulo m does not change a power modulo m. */
  lemma {:induction false} PowMod(b: nat, e: nat, m: nat)
    requires m >= 1
    ensures Pow(b % m, e) % m == Pow(b, e) % m
    decreases e
  {
    if e > 0 {
      PowMod(b, e - 1, m);
      var bm, p1, p2 := b % m, Pow(b % m, e - 1), Pow(b, e - 1);
      assert Pow(bm, e) == bm * p1;
      assert Pow(b, e) == b * p2;
      MulMod(bm, p1, m);
      MulMod(b, p2, m);
      ModIdempotent(bm, m);
    }
  }

  /** If b^q is 1 modulo m (the order of b divides q), so is every power b^(q*t). */
  lemma {:induction false} PowPeriodic(b: nat, q: nat, t: nat, m: nat)
    requires m >= 1
    requires Pow(b, q) % m == 1 % m
    ensures Pow(b, q * t) % m == 1 % m
    decreases t
  {
    if t > 0 {
      PowPeriodic(b, q, t - 1, m);
      var x, y := Pow(b, q * (t - 1)), Pow(b, q);
      assert q * t == q * (t - 1) + q;
      PowAdd(b, q * (t - 1), q);
      assert Pow(b, q * t) == x * y;
      MulMod(x, y, m);
      MulOneMod(1, m);
    }
  }

  /** Multiplying a residue by 1 mod m and reducing gives the residue back. */
  lemma MulOneMod(a: nat, m: nat)
    requires m >= 1
    ensures ((a % m) * (1 % m)) % m == a % m
  {
    if m == 1 {
      DivModUnique(a, a, 0, 1);
      DivModUnique((a % m) * (1 % m), (a % m) * (1 % m), 0, 1);
    } else {
      ModIdempotent(1, m);
      ModIdempotent(a % m, m);
    }
  }

  /** If b^q is 1 modulo m, exponents of b only matter modulo q. */
  lemma PowShift(b: nat, k: nat, q: nat, t: nat, m: nat)
    requires m >= 1
    requires Pow(b, q) % m == 1 % m
    ensures Pow(b, k + q * t) % m == Pow(b, k) % m
  {
    var x, y := Pow(b, k), Pow(b, q * t);
    PowAdd(b, k, q * t);
    PowPeriodic(b, q, t, m);
    MulMod(x, y, m);
    MulOneMod(x, m);
  }

  /** Square-and-multiply modular exponentiation on the binary expansion of e;
      it agrees with the specification `Pow(b, e) % m`. */
  function ModPowBySquaring(b: nat, e: nat, m: nat): (r: nat)
    requires m >= 1
    ensures r == Pow(b, e) % m
    decreases e
  {
    if e == 0 then 1 % m
    else
      var h := ModPowBySquaring(b, e / 2, m);
      var sq := (h * h) % m;
      if e % 2 == 0 then
        SquareEven(b, e, m);
        sq
      else
        SquareOdd(b, e, m);
        (sq * (b % m)) % m
  }

  /** Squaring step for an even exponent: b^e = (b^(e/2))^2. */
  lemma SquareEven(b: nat, e: nat, m: nat)
    requires m >= 1 && e % 2 == 0
    ensures ((Pow(b, e / 2) % m) * (Pow(b, e / 2) % m)) % m == Pow(b, e) % m
  {
    var h := Pow(b, e / 2);
    assert e == e / 2 + e / 2;
    PowAdd(b, e / 2, e / 2);
    MulMod(h, h, m);
  }

  /** Square-and-multiply step for an odd exponent: b^e = (b^(e/2))^2 * b. */
  lemma SquareOdd(b: nat, e: nat, m: nat)
    requires m >= 1 && e % 2 == 1
    ensures ((((Pow(b, e / 2) % m) * (Pow(b, e / 2) % m)) % m) * (b % m)) % m == Pow(b, e) % m
  {
    var h := Pow(b, e / 2);
    var hh := h * h;
    assert e == (e / 2 + e / 2) + 1;
    PowAdd(b, e / 2, e / 2);
    PowAdd(b, e / 2 + e / 2, 1);
    PowOne(b);
    assert Pow(b, e) == hh * b;
    MulMod(h, h, m);
    MulMod(hh, b, m);
  }
}
