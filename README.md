# Chaum-Pedersen arithmetic engine in Dafny

This project models `src/lib.rs` of a Rust implementation of the Chaum-Pedersen sigma
protocol (Chaum and Pedersen, "Wallet Databases with Observers", CRYPTO '92). The prover
shows that `y1 = alpha^x mod p` and `y2 = beta^x mod p` share one discrete logarithm `x`.
The library has three free functions over arbitrary-precision unsigned integers
(`BigUint`), modelled here as Dafny `nat`:

- `exponentiate(num, exponent, modulus)`: the library's `modpow`.
- `solve(k, c, x, q)`: the prover's response `(k - c*x) mod q`, written as two branches
  because the integer type is unsigned.
- `verify(r1, r2, y1, y2, alpha, beta, c, s, p)`: the verifier's two equalities.

All three are pure, so the model is functions and lemmas:

- `power.dfy` (module `Power`) holds the specification `Pow(b, e)` and the modular
  arithmetic facts. It also holds `ModPowBySquaring`, a reference square-and-multiply
  algorithm that is proved equal to `Pow(b, e) % m`. The source does not contain that
  algorithm. It stands for the library routine behind `modpow`.
- `chaum_pedersen.dfy` (module `ChaumPedersen`) models the three functions as written.
  Beside them are the canonical forms the protocol calls for, `SolveCanonical` and
  `VerifyCanonical`. The lemmas state where the code and the canonical forms agree
  and where they differ. For `verify` they cover both directions: the code rejects some
  honest transcripts, and it accepts some commitments that are not residues modulo `p`.
  The lemmas also prove completeness: the canonical check accepts every honest
  transcript.

`modpow` panics when the modulus is zero. Every function therefore requires its modulus
to be at least 1: `modulus` for `Exponentiate`, `q` for `Solve`, `p` for `Verify`. The
subtraction `q - ...` on src/lib.rs:12 never underflows, because the residue it subtracts
is below `q`. Dafny checks this where `Solve` returns a `nat`.

Where the protocol's mathematics and the code disagree, the model follows the code:

- The protocol's verification equations are `r1 ≡ alpha^s · y1^c (mod p)` and
  `r2 ≡ beta^s · y2^c (mod p)`, with the right-hand side reduced modulo `p`. The code
  compares with the unreduced product.
- The protocol's response `s = k - c·x` is an element of `Z_q`, a value in `[0, q)`.
  The code can return `q`.

Both are listed under Findings.

## Model

| member | source | states |
|---|---|---|
| `ChaumPedersen.Exponentiate` | src/lib.rs:3-5 | `num^exponent mod modulus` lies in `[0, modulus)`; a zero modulus is excluded (modpow panics on it) |
| `Power.ModPowBySquaring` | src/lib.rs:4 | square-and-multiply over the binary expansion of the exponent computes `Pow(b, e) % m`, the value `modpow` returns and the body of `Exponentiate` |
| `ChaumPedersen.ExponentiateZeroExponent` | src/lib.rs:4 | a zero exponent gives `1 mod modulus` |
| `ChaumPedersen.ExponentiateOne` | src/lib.rs:9 | `modpow(1, q)` is plain reduction `% q` |
| `ChaumPedersen.ExponentiateReducedBase` | src/lib.rs:4 | the base only matters modulo the modulus |
| `ChaumPedersen.ExponentiateSum` | src/lib.rs:4 | `g^(e1+e2) mod m` is the product of the two residues, reduced mod m |
| `ChaumPedersen.ExponentiateNested` | src/lib.rs:4 | raising a residue `g^e1 mod m` to `e2` gives `g^(e1*e2) mod m` |
| `ChaumPedersen.ExponentiateExamples` | src/lib.rs:3-5 | for p = 23: `4^6 = 2`, `9^6 = 3`, `4^7 = 8`, `9^7 = 4` |
| `ChaumPedersen.Solve` | src/lib.rs:7-13 | the response as written is at most `q` (never larger, but possibly `q` itself) |
| `ChaumPedersen.SolveNoBorrow` | src/lib.rs:8-10 | when `k >= c*x` the response is `(k - c*x) mod q`, in `[0, q)` |
| `ChaumPedersen.SolveBorrow` | src/lib.rs:12 | when `k < c*x` the response is `q - ((c*x - k) mod q)`, in `[1, q]`, never 0, and it equals `q` iff `q` divides `c*x - k` |
| `ChaumPedersen.SolveCongruent` | src/lib.rs:7-13 | in both branches the response is congruent to `k - c*x` modulo `q` over the integers |
| `ChaumPedersen.SolveCanonical` | src/lib.rs:7-13 | corrected response: in `[0, q)` and congruent to `k - c*x` modulo `q` |
| `ChaumPedersen.SolveCanonicalUnique` | src/lib.rs:7-13 | the corrected response is the only value in `[0, q)` congruent to `k - c*x` |
| `ChaumPedersen.SolveVersusCanonical` | src/lib.rs:7-13 | the response as written equals the corrected one unless `k < c*x` and `q` divides `c*x - k`, exactly when it returns `q` where the corrected one returns 0 |
| `ChaumPedersen.SolveExample` | src/lib.rs:7-13 | `solve(7, 4, 6, 11) == 5` |
| `ChaumPedersen.SolveReturnsModulusExample` | src/lib.rs:12 | `solve(2, 4, 6, 11) == 11` although the corrected response is 0 |
| `ChaumPedersen.Verify` | src/lib.rs:15-30 | acceptance implies `r1 ≡ alpha^s * y1^c` and `r2 ≡ beta^s * y2^c` modulo `p`; the check takes no `q` |
| `ChaumPedersen.VerifySymmetric` | src/lib.rs:15-30 | swapping `(r1, y1, alpha)` with `(r2, y2, beta)` leaves the verdict unchanged |
| `ChaumPedersen.VerifyCanonical` | src/lib.rs:26-27 | corrected check: commitments equal the products reduced mod `p`; acceptance implies both commitments are below `p` |
| `ChaumPedersen.VerifyVersusCanonical` | src/lib.rs:26-29 | for all commitments: the check as written accepts with both commitments below `p` iff the corrected check accepts and neither unreduced product reaches `p` |
| `ChaumPedersen.VerifyAcceptsUnreducedCommitment` | src/lib.rs:26-29 | the check as written always accepts the unreduced products themselves as commitments; when either reaches `p` the corrected check refuses them |
| `ChaumPedersen.VerifyAcceptsUnreducedExample` | src/lib.rs:26-29 | commitments 192 and 96 (not residues mod 23) pass `verify` with y1=2, y2=3, alpha=4, beta=9, c=4, s=5, p=23, and fail the corrected check |
| `ChaumPedersen.VerifyRejectsUnreducedMatch` | src/lib.rs:26 | a commitment `r1 < p` that equals the product mod `p`, where the product itself is at least `p`, is rejected |
| `ChaumPedersen.CommitmentRecovered` | src/lib.rs:26-27 | if the order of `g` divides `q` and `s ≡ k - c*x (mod q)`, then `(g^s mod p) * ((g^x mod p)^c mod p)` reduced mod `p` is `g^k mod p` |
| `ChaumPedersen.Completeness` | src/lib.rs:7-30 | every honest transcript with the corrected response passes the corrected check, for all `x`, `k`, `c` |
| `ChaumPedersen.SolveResponseInterchangeable` | src/lib.rs:7-30 | when the order of both generators divides `q`, the response as written and the corrected response give the same verdict, both for `verify` as written and for the corrected check, for all commitments |
| `ChaumPedersen.HonestTranscriptAsWritten` | src/lib.rs:7-30 | an honest transcript whose response comes from `solve` as written (even `q`) passes the corrected check, and passes `verify` as written iff both unreduced products are below `p` |
| `ChaumPedersen.VerifyRejectsHonestExample` | src/lib.rs:26-27 | the honest transcript p=23, q=11, alpha=4, beta=9, x=6, k=7, c=4 (s=5) is rejected by `verify` (192 vs 8, 96 vs 4) and accepted by the corrected check |

## Left out

- The random sampling of the ephemeral secret `k` and the challenge `c` is not part of this model. No sampling function appears in src/lib.rs.
- Soundness (a wrong secret is rejected with overwhelming probability over random challenges) is a probabilistic property. It is not stated.
- The internals of `num_bigint::BigUint::modpow` are a foreign library call. They are modelled by their value `Pow(b, e) % m`. `ModPowBySquaring` is a reference algorithm, not the library's code.
- Group parameters are not validated by the code: primality of `p` and `q`, the orders of `alpha` and `beta`, `q | p - 1`. Where the protocol's algebra needs them, `OrderDivides(g, q, p)` is a lemma hypothesis.
- Panics on a zero modulus are not modelled as an error value. They are preconditions, because the library aborts there rather than returning.
- Constant-time behaviour, side channels, and transport between prover and verifier are not functional properties, and the code has none of them.
- Machine-word overflow does not arise: `BigUint` is unbounded, like `nat`.

## Findings

| source | as written | input that shows it | evidently intended | confidence | as-written member | corrected member |
|---|---|---|---|---|---|---|
| src/lib.rs:12 | `q - ((c*x - k) mod q)` returns `q` when `q` divides `c*x - k` | k=2, c=4, x=6, q=11: `24 - 2 = 22`, `22 mod 11 = 0`, result 11 | response `(k - c*x) mod q` in `[0, q)`, here 0 | not executed; the arithmetic is proved. Neither `verify` as written nor the corrected check changes its verdict when the order of the generators divides `q` (`SolveResponseInterchangeable`) | `ChaumPedersen.SolveReturnsModulusExample` | `ChaumPedersen.SolveCanonical` |
| src/lib.rs:26-27 | each commitment is compared with the unreduced product `(alpha^s mod p) * (y1^c mod p)` | p=23, q=11, alpha=4, beta=9, x=6, k=7, c=4, s=5: `8 == 12*16 = 192` and `4 == 8*12 = 96` are both false | compare with the product reduced mod `p`, which gives 8 and 4 | not executed; proved for this input, and every honest transcript whose products reach `p` is rejected. In the other direction, the unreduced products themselves are accepted as commitments, e.g. 192 and 96 for the same y1, y2, c, s (`VerifyAcceptsUnreducedExample`) | `ChaumPedersen.VerifyRejectsHonestExample` | `ChaumPedersen.VerifyCanonical` |
