/** The arithmetic engine of the Chaum-Pedersen sigma protocol, as src/lib.rs writes it.

    All values are arbitrary-precision unsigned integers (`nat`).  The three operations
    of the library are modelled exactly as written (`Exponentiate`, `Solve`, `Verify`),
    beside the canonical forms the protocol calls for (`SolveCanonical`,
    `VerifyCanonical`).  The lemmas say where the two agree and where they differ, in
    both directions for the check, and prove that the canonical verifier accepts every
    honestly produced transcript. */
module ChaumPedersen {
  import opened Power

  /** a and b are congruent modulo q, as integers. */
  predicate Congruent(a: int, b: int, q: nat)
    requires q >= 1
  {
    (a - b) % q == 0
  }

  /** The group hypothesis on a generator g: its order modulo p divides q. */
  predicate OrderDivides(g: nat, q: nat, p: nat)
    requires p >= 1
  {
    Pow(g, q) % p == 1 % p
  }

  // ---------------------------------------------------------------------------
  // exponentiate

  /** `num.modpow(exponent, modulus)`.  The library panics on a zero modulus. */
  function Exponentiate(num: nat, exponent: nat, modulus: nat): (r: nat)
    requires modulus >= 1
    ensures r < modulus
  {
    Pow(num, exponent) % modulus
  }

  /** A zero exponent gives 1, reduced modulo the modulus. */
  lemma ExponentiateZeroExponent(num: nat, modulus: nat)
    requires modulus >= 1
    ensures Exponentiate(num, 0, modulus) == 1 % modulus
  {
  }

  /** An exponent of 1 is plain reduction modulo the modulus. */
  lemma ExponentiateOne(num: nat, modulus: nat)
    requires modulus >= 1
    ensures Exponentiate(num, 1, modulus) == num % modulus
  {
    PowOne(num);
  }

  /** The base only matters modulo the modulus. */
  lemma ExponentiateReducedBase(num: nat, exponent: nat, modulus: nat)
    requires modulus >= 1
    ensures Exponentiate(num % modulus, exponent, modulus) == Exponentiate(num, exponent, modulus)
  {
    PowMod(num, exponent, modulus);
  }

  /** Exponents add: g^(e1+e2) mod m is the product of the two residues, reduced. */
  lemma ExponentiateSum(num: nat, e1: nat, e2: nat, modulus: nat)
    requires modulus >= 1
    ensures Exponentiate(num, e1 + e2, modulus)
         == (Exponentiate(num, e1, modulus) * Exponentiate(num, e2, modulus)) % modulus
  {
    PowAdd(num, e1, e2);
    MulMod(Pow(num, e1), Pow(num, e2), modulus);
  }

  /** Exponentiating a residue again multiplies the exponents. */
  lemma ExponentiateNested(num: nat, e1: nat, e2: nat, modulus: nat)
    requires modulus >= 1
    ensures Exponentiate(Exponentiate(num, e1, modulus), e2, modulus)
         == Exponentiate(num, e1 * e2, modulus)
  {
    PowMod(Pow(num, e1), e2, modulus);
    PowMul(num, e1, e2);
  }

  /** Public values and commitments for p = 23, alpha = 4, beta = 9, x = 6, k = 7. */
  lemma ExponentiateExamples()
    ensures Exponentiate(4, 6, 23) == 2 && Exponentiate(9, 6, 23) == 3
    ensures Exponentiate(4, 7, 23) == 8 && Exponentiate(9, 7, 23) == 4
  {
  }

  // ---------------------------------------------------------------------------
  // solve

  /** The prover's response, as written: two branches over unsigned integers, each
      reducing with `modpow(1, q)`.  The library panics when q is 0. */
  function Solve(k: nat, c: nat, x: nat, q: nat): (s: nat)
    requires q >= 1
    ensures s <= q
  {
    if k >= c * x then Exponentiate(k - c * x, 1, q)
    else q - Exponentiate(c * x - k, 1, q)
  }

  /** The canonical response (k - c*x) mod q, reduced into [0, q) over the integers. */
  function SolveCanonical(k: nat, c: nat, x: nat, q: nat): (s: nat)
    requires q >= 1
    ensures s < q
    ensures Congruent(s, k - c * x, q)
  {
    var d := k - c * x;
    assert d == (d / q) * q + d % q;
    DivModUnique(d % q - d, -(d / q), 0, q);
    d % q
  }

  /** The reduced response is the only value in [0, q) congruent to k - c*x. */
  lemma SolveCanonicalUnique(k: nat, c: nat, x: nat, q: nat, s: nat)
    requires q >= 1
    requires s < q && Congruent(s, k - c * x, q)
    ensures s == SolveCanonical(k, c, x, q)
  {
    var d := k - c * x;
    var t := SolveCanonical(k, c, x, q);
    var j, i := (s - d) / q, (t - d) / q;
    assert s - d == j * q;
    assert t - d == i * q;
    MulSub(j, i, q);
    assert s - t == (j - i) * q;
    DivModUnique(s, j - i, t, q);
    DivModUnique(s, 0, s, q);
  }

  /** In the branch k >= c*x the result is (k - c*x) mod q, in [0, q). */
  lemma SolveNoBorrow(k: nat, c: nat, x: nat, q: nat)
    requires q >= 1 && k >= c * x
    ensures Solve(k, c, x, q) == (k - c * x) % q < q
  {
    ExponentiateOne(k - c * x, q);
  }

  /** In the branch k < c*x the result is q - ((c*x - k) mod q): it lies in [1, q],
      and it is q exactly when q divides c*x - k. */
  lemma SolveBorrow(k: nat, c: nat, x: nat, q: nat)
    requires q >= 1 && k < c * x
    ensures Solve(k, c, x, q) == q - (c * x - k) % q
    ensures 1 <= Solve(k, c, x, q) <= q
    ensures Solve(k, c, x, q) == q <==> (c * x - k) % q == 0
  {
    ExponentiateOne(c * x - k, q);
  }

  /** Either branch yields a value congruent to k - c*x modulo q. */
  lemma SolveCongruent(k: nat, c: nat, x: nat, q: nat)
    requires q >= 1
    ensures Congruent(Solve(k, c, x, q), k - c * x, q)
  {
    var s := Solve(k, c, x, q);
    if k >= c * x {
      SolveNoBorrow(k, c, x, q);
      var d := k - c * x;
      assert d == (d / q) * q + d % q;
      DivModUnique(s - d, -(d / q), 0, q);
    } else {
      SolveBorrow(k, c, x, q);
      var d := c * x - k;
      assert d == (d / q) * q + d % q;
      assert s - (k - c * x) == q - d % q + d;
      MulAdd(1, d / q, q);
      DivModUnique(s - (k - c * x), 1 + d / q, 0, q);
    }
  }

  /** The response as written equals the canonical one except in one case: when
      k < c*x and q divides c*x - k it returns q where the canonical response is 0. */
  lemma SolveVersusCanonical(k: nat, c: nat, x: nat, q: nat)
    requires q >= 1
    ensures Solve(k, c, x, q) == q <==> k < c * x && (c * x - k) % q == 0
    ensures Solve(k, c, x, q) == q ==> SolveCanonical(k, c, x, q) == 0
    ensures Solve(k, c, x, q) < q ==> Solve(k, c, x, q) == SolveCanonical(k, c, x, q)
  {
    var s := Solve(k, c, x, q);
    if k >= c * x {
      SolveNoBorrow(k, c, x, q);
    } else {
      SolveBorrow(k, c, x, q);
    }
    SolveCongruent(k, c, x, q);
    if s < q {
      SolveCanonicalUnique(k, c, x, q, s);
    } else {
      DivModUnique(0 - (k - c * x), (c * x - k) / q, 0, q);
      SolveCanonicalUnique(k, c, x, q, 0);
    }
  }

  /** The response for k = 7, c = 4, x = 6, q = 11 is 5. */
  lemma SolveExample()
    ensures Solve(7, 4, 6, 11) == 5 == SolveCanonical(7, 4, 6, 11)
  {
    ExponentiateOne(17, 11);
  }

  /** With k, c, x all in [0, q), k = 2, c = 4, x = 6, q = 11 gives c*x - k = 22, a
      multiple of 11: the response as written is 11, outside [0, q). */
  lemma SolveReturnsModulusExample()
    ensures Solve(2, 4, 6, 11) == 11
    ensures SolveCanonical(2, 4, 6, 11) == 0
  {
    ExponentiateOne(22, 11);
  }

  // ---------------------------------------------------------------------------
  // verify

  /** The verifier's check, as written: each commitment is compared with the product
      of two residues modulo p, and that product is not reduced again.  It takes no
      q.  The library panics when p is 0. */
  function Verify(r1: nat, r2: nat, y1: nat, y2: nat, alpha: nat, beta: nat,
                  c: nat, s: nat, p: nat): (ok: bool)
    requires p >= 1
    ensures ok ==> Congruent(r1, Pow(alpha, s) * Pow(y1, c), p)
    ensures ok ==> Congruent(r2, Pow(beta, s) * Pow(y2, c), p)
  {
    var a1, b1 := Exponentiate(alpha, s, p), Exponentiate(y1, c, p);
    var a2, b2 := Exponentiate(beta, s, p), Exponentiate(y2, c, p);
    ProductOfResidues(Pow(alpha, s), Pow(y1, c), p);
    ProductOfResidues(Pow(beta, s), Pow(y2, c), p);
    var cond1 := r1 == a1 * b1;
    var cond2 := r2 == a2 * b2;
    cond1 && cond2
  }

  /** Equal residues modulo q mean congruent numbers. */
  lemma CongruentByResidue(a: nat, b: nat, q: nat)
    requires q >= 1 && a % q == b % q
    ensures Congruent(a, b, q)
  {
    var i, j := a / q, b / q;
    assert a == i * q + a % q;
    assert b == j * q + b % q;
    MulSub(i, j, q);
    DivModUnique(a - b, i - j, 0, q);
  }

  /** The product of two residues modulo q is congruent to the product of the numbers. */
  lemma ProductOfResidues(a: nat, b: nat, q: nat)
    requires q >= 1
    ensures Congruent((a % q) * (b % q), a * b, q)
  {
    MulMod(a, b, q);
    ModIdempotent((a * b) % q, q);
    var r := (a % q) * (b % q);
    CongruentByResidue(r, a * b, q);
  }

  /** The check the protocol calls for: each commitment equals the product reduced
      modulo p. */
  function VerifyCanonical(r1: nat, r2: nat, y1: nat, y2: nat, alpha: nat, beta: nat,
                           c: nat, s: nat, p: nat): (ok: bool)
    requires p >= 1
    ensures ok ==> r1 < p && r2 < p
  {
    && r1 == (Exponentiate(alpha, s, p) * Exponentiate(y1, c, p)) % p
    && r2 == (Exponentiate(beta, s, p) * Exponentiate(y2, c, p)) % p
  }

  /** Swapping the roles of (r1, y1, alpha) and (r2, y2, beta) leaves the check unchanged. */
  lemma VerifySymmetric(r1: nat, r2: nat, y1: nat, y2: nat, alpha: nat, beta: nat,
                        c: nat, s: nat, p: nat)
    requires p >= 1
    ensures Verify(r1, r2, y1, y2, alpha, beta, c, s, p)
        == Verify(r2, r1, y2, y1, beta, alpha, c, s, p)
  {
  }

  /** The check as written, restricted to commitments below p, accepts exactly when the
      canonical check accepts and neither unreduced product reaches p. */
  lemma VerifyVersusCanonical(r1: nat, r2: nat, y1: nat, y2: nat, alpha: nat, beta: nat,
                              c: nat, s: nat, p: nat)
    requires p >= 1
    ensures (Verify(r1, r2, y1, y2, alpha, beta, c, s, p) && r1 < p && r2 < p) <==>
      && VerifyCanonical(r1, r2, y1, y2, alpha, beta, c, s, p)
      && Exponentiate(alpha, s, p) * Exponentiate(y1, c, p) < p
      && Exponentiate(beta, s, p) * Exponentiate(y2, c, p) < p
  {
    var n1 := Exponentiate(alpha, s, p) * Exponentiate(y1, c, p);
    var n2 := Exponentiate(beta, s, p) * Exponentiate(y2, c, p);
    if n1 < p {
      ModIdempotent(n1, p);
    }
    if n2 < p {
      ModIdempotent(n2, p);
    }
  }

  /** The check as written accepts the unreduced products themselves as commitments,
      for every response and challenge; the canonical check refuses them as soon as
      one of them reaches p. */
  lemma VerifyAcceptsUnreducedCommitment(y1: nat, y2: nat, alpha: nat, beta: nat,
                                         c: nat, s: nat, p: nat)
    requires p >= 1
    ensures var n1 := Exponentiate(alpha, s, p) * Exponentiate(y1, c, p);
      var n2 := Exponentiate(beta, s, p) * Exponentiate(y2, c, p);
      && Verify(n1, n2, y1, y2, alpha, beta, c, s, p)
      && (n1 >= p || n2 >= p ==> !VerifyCanonical(n1, n2, y1, y2, alpha, beta, c, s, p))
  {
  }

  /** The commitments 192 and 96, which are not residues modulo 23, pass the check as
      written for the response and challenge of the p = 23 example. */
  lemma VerifyAcceptsUnreducedExample()
    ensures Verify(192, 96, 2, 3, 4, 9, 4, 5, 23)
    ensures !VerifyCanonical(192, 96, 2, 3, 4, 9, 4, 5, 23)
  {
    assert Exponentiate(4, 5, 23) == 12 && Exponentiate(2, 4, 23) == 16;
    assert Exponentiate(9, 5, 23) == 8 && Exponentiate(3, 4, 23) == 12;
  }

  /** A reduced commitment r1 congruent to an unreduced product that reaches p is
      rejected, although the canonical first condition holds. */
  lemma VerifyRejectsUnreducedMatch(r1: nat, r2: nat, y1: nat, y2: nat, alpha: nat,
                                    beta: nat, c: nat, s: nat, p: nat)
    requires p >= 1 && r1 < p
    requires Exponentiate(alpha, s, p) * Exponentiate(y1, c, p) >= p
    requires r1 == (Exponentiate(alpha, s, p) * Exponentiate(y1, c, p)) % p
    ensures !Verify(r1, r2, y1, y2, alpha, beta, c, s, p)
  {
  }

  /** Congruence is symmetric. */
  lemma CongruentSymmetric(a: int, b: int, q: nat)
    requires q >= 1 && Congruent(a, b, q)
    ensures Congruent(b, a, q)
  {
    var j := (a - b) / q;
    assert a - b == j * q + (a - b) % q;
    assert b - a == (-j) * q;
    DivModUnique(b - a, -j, 0, q);
  }

  /** A non-negative number divisible by q is q times its quotient. */
  lemma MultipleOfModulus(d: nat, q: nat)
    requires q >= 1 && d % q == 0
    ensures d == q * (d / q)
  {
    assert d == (d / q) * q + d % q;
  }

  /** When the order of g divides q, congruent exponents give equal powers modulo p. */
  lemma ExponentCongruent(g: nat, p: nat, q: nat, n: nat, k: nat)
    requires p >= 1 && q >= 1
    requires OrderDivides(g, q, p)
    requires Congruent(n, k, q)
    ensures Pow(g, n) % p == Pow(g, k) % p
  {
    if n >= k {
      MultipleOfModulus(n - k, q);
      PowShift(g, k, q, (n - k) / q, p);
    } else {
      CongruentSymmetric(n, k, q);
      MultipleOfModulus(k - n, q);
      PowShift(g, n, q, (k - n) / q, p);
    }
  }

  /** If the commitment is g^k mod p, the public value g^x mod p, the order of g divides
      q and s is congruent to k - c*x modulo q, then g^s * (g^x)^c reduced modulo p is
      the commitment. */
  lemma CommitmentRecovered(g: nat, p: nat, q: nat, x: nat, k: nat, c: nat, s: nat)
    requires p >= 1 && q >= 1
    requires OrderDivides(g, q, p)
    requires Congruent(s, k - c * x, q)
    ensures (Exponentiate(g, s, p) * Exponentiate(Exponentiate(g, x, p), c, p)) % p
         == Exponentiate(g, k, p)
  {
    ExponentiateNested(g, x, c, p);
    ExponentiateSum(g, s, x * c, p);
    assert (s + x * c) - k == s - (k - c * x);
    ExponentCongruent(g, p, q, s + x * c, k);
  }

  /** Completeness: an honest prover's transcript, with commitments, public values and
      the canonical response computed as the protocol prescribes, passes the
      canonical check for every secret, ephemeral secret and challenge. */
  lemma Completeness(p: nat, q: nat, alpha: nat, beta: nat, x: nat, k: nat, c: nat)
    requires p >= 1 && q >= 1
    requires OrderDivides(alpha, q, p) && OrderDivides(beta, q, p)
    ensures VerifyCanonical(Exponentiate(alpha, k, p), Exponentiate(beta, k, p),
                            Exponentiate(alpha, x, p), Exponentiate(beta, x, p),
                            alpha, beta, c, SolveCanonical(k, c, x, q), p)
  {
    var s := SolveCanonical(k, c, x, q);
    CommitmentRecovered(alpha, p, q, x, k, c, s);
    CommitmentRecovered(beta, p, q, x, k, c, s);
  }

  /** An honest transcript whose response comes from `Solve` as written (possibly q)
      also passes the canonical check, and passes the check as written exactly when
      neither unreduced product reaches p. */
  lemma HonestTranscriptAsWritten(p: nat, q: nat, alpha: nat, beta: nat, x: nat, k: nat,
                                  c: nat)
    requires p >= 1 && q >= 1
    requires OrderDivides(alpha, q, p) && OrderDivides(beta, q, p)
    ensures var s := Solve(k, c, x, q);
      var y1, y2 := Exponentiate(alpha, x, p), Exponentiate(beta, x, p);
      && VerifyCanonical(Exponentiate(alpha, k, p), Exponentiate(beta, k, p),
                         y1, y2, alpha, beta, c, s, p)
      && (Verify(Exponentiate(alpha, k, p), Exponentiate(beta, k, p),
                 y1, y2, alpha, beta, c, s, p)
          <==> (Exponentiate(alpha, s, p) * Exponentiate(y1, c, p) < p
                && Exponentiate(beta, s, p) * Exponentiate(y2, c, p) < p))
  {
    var s := Solve(k, c, x, q);
    var y1, y2 := Exponentiate(alpha, x, p), Exponentiate(beta, x, p);
    SolveCongruent(k, c, x, q);
    CommitmentRecovered(alpha, p, q, x, k, c, s);
    CommitmentRecovered(beta, p, q, x, k, c, s);
    VerifyVersusCanonical(Exponentiate(alpha, k, p), Exponentiate(beta, k, p),
                          y1, y2, alpha, beta, c, s, p);
  }

  /** When the order of both generators divides q, replacing the canonical response by
      the response as written (q instead of 0) changes neither the verdict of the check
      as written nor that of the canonical check, whatever the commitments. */
  lemma SolveResponseInterchangeable(r1: nat, r2: nat, y1: nat, y2: nat, alpha: nat,
                                     beta: nat, p: nat, q: nat, k: nat, c: nat, x: nat)
    requires p >= 1 && q >= 1
    requires OrderDivides(alpha, q, p) && OrderDivides(beta, q, p)
    ensures Verify(r1, r2, y1, y2, alpha, beta, c, Solve(k, c, x, q), p)
        == Verify(r1, r2, y1, y2, alpha, beta, c, SolveCanonical(k, c, x, q), p)
    ensures VerifyCanonical(r1, r2, y1, y2, alpha, beta, c, Solve(k, c, x, q), p)
        == VerifyCanonical(r1, r2, y1, y2, alpha, beta, c, SolveCanonical(k, c, x, q), p)
  {
    SolveVersusCanonical(k, c, x, q);
    if Solve(k, c, x, q) == q {
      assert Exponentiate(alpha, q, p) == Exponentiate(alpha, 0, p);
      assert Exponentiate(beta, q, p) == Exponentiate(beta, 0, p);
    }
  }

  /** The transcript for p = 23, q = 11, alpha = 4, beta = 9, x = 6, k = 7, c = 4 is
      honest, yet the check as written rejects it: 12 * 16 = 192 is compared with
      r1 = 8 and 8 * 12 = 96 with r2 = 4.  The canonical check accepts it. */
  lemma VerifyRejectsHonestExample()
    ensures Exponentiate(4, 7, 23) == 8 && Exponentiate(9, 7, 23) == 4
    ensures Exponentiate(4, 6, 23) == 2 && Exponentiate(9, 6, 23) == 3
    ensures Solve(7, 4, 6, 11) == 5
    ensures Exponentiate(4, 5, 23) * Exponentiate(2, 4, 23) == 192
    ensures !Verify(8, 4, 2, 3, 4, 9, 4, 5, 23)
    ensures VerifyCanonical(8, 4, 2, 3, 4, 9, 4, 5, 23)
  {
    ExponentiateExamples();
    SolveExample();
    assert Exponentiate(4, 5, 23) == 12 && Exponentiate(2, 4, 23) == 16;
    assert Exponentiate(9, 5, 23) == 8 && Exponentiate(3, 4, 23) == 12;
  }
}
