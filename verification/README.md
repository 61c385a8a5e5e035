# Polynomial reconstruction from radix-encoded shares, in Dafny

This project models the two arithmetic routines of `solve_poly.cpp`:

- `convertToDecimal` is the radix decoder. It folds a string of base-`base` digits into an arbitrary-precision integer by Horner's rule. Characters that are neither ASCII digits nor ASCII letters are skipped. Letters count case-insensitively as 10..35. A digit at or above the base is accepted as is.
- `interpolate` is the Lagrange interpolation routine. For each of the first `k` points it does three things:
  - builds the basis polynomial prod_{j != i} (x - x_j), one linear factor at a time;
  - multiplies up the denominator prod_{j != i} (x_i - x_j);
  - adds `term[a] * y_i / denom` into coefficient `a`.

  Each of those divisions is C++ `cpp_int` division, which truncates toward zero, and each is taken separately.

Modules:

- `Radix` (`radix.dfy`): the decoder, both as a fold (`Decode`) and as the loop (`ConvertToDecimal`). It also holds a canonical encoder (`Encode`), which serves as the decoder's inverse in a round-trip lemma.
- `TruncDivision` (`trunc_div.dfy`): division rounded toward zero (`TruncDiv`). Dafny's own `/` is Euclidean, so the truncated quotient is characterised by its remainder and proved unique.
- `Poly` (`poly.dfy`): polynomials as coefficient sequences, lowest degree first. It provides evaluation, sum, scaling, multiplication by (x - r), the product of linear factors, and synthetic division. From synthetic division it proves that k values at k distinct points fix a polynomial with k coefficients.
- `Lagrange` (`lagrange.dfy`): the routine as written.
  - Functions: `OtherNodes`, `Basis`, `Denom`, `ScaleTerm`, `Contribution`, `Accumulate`, `Interpolate`.
  - The loop nest as methods (`MulLinearLoop`, `BasisLoop`, `AddScaledLoop`, `InterpolateLoop`), proved equal to the functions.
  - The basis-polynomial facts and exact recovery when every per-term division is exact.
  - Worked three-point cases.
- `LagrangeDeferred` (`lagrange_deferred.dfy`): the corrected routine for the finding below. It uses one common denominator and one final division per coefficient, and says when that division is inexact.

Numbers are Dafny's unbounded `int`, as `cpp_int` is unbounded. The loop counters `int k` and `size_t a` never come near their limits for inputs that fit in memory.

A design description of this program disagrees with the code in two places. This model follows the code in both:

- **The worked example.** The description gives the points (1, 4), (2, 7), (3, 12) as the polynomial x^2 + 2x + 1 with coefficients [1, 2, 1]. That polynomial takes the value 9 at x = 2, not 7. The code returns [3, 0, 1], i.e. x^2 + 3, which does pass through all three points (`Lagrange.ThreePointExample`).
- **Errors.** The description calls for typed errors: for a bad threshold, for duplicate x-coordinates, and for a division with a remainder. The code raises none of them. It divides by zero on duplicate x-coordinates, reads out of range when there are fewer than `k` points, and truncates an inexact division silently. In the model of the code:
  - duplicate x-coordinates and too few points are preconditions;
  - truncation is modelled as it happens;
  - the inexact-division report appears only in the corrected routine.

## Model

| member | source | states |
|---|---|---|
| Radix.ToLower | solve_poly.cpp:23 | an upper-case ASCII letter becomes the lower-case letter at the same place in the alphabet; every other character is unchanged |
| Radix.DigitVal | solve_poly.cpp:20-26 | an alphanumeric character is worth less than 36, and less than 10 exactly when it is a decimal digit |
| Radix.Step | solve_poly.cpp:19-27 | a character that is neither digit nor letter leaves the value unchanged; after a digit below the base, that digit is the new value modulo the base and the old value is the quotient |
| Radix.Decode | solve_poly.cpp:16-30 | for a non-negative base the decoded value is never negative |
| Radix.ConvertToDecimal | solve_poly.cpp:16-30 | the character loop computes the left fold `Decode` |
| Radix.DecodeHorner | solve_poly.cpp:17-28 | the empty string decodes to 0; appending an alphanumeric character multiplies by the base and adds its value, whatever the base; appending anything else changes nothing |
| Radix.DecodeIgnoresNonAlnum | solve_poly.cpp:24-26 | decoding a string equals decoding its alphanumeric characters alone |
| Radix.LetterValues | solve_poly.cpp:22-23 | the i-th letter of the alphabet is worth 10 + i in either case |
| Radix.DigitValues | solve_poly.cpp:20-21 | the digit character for i is worth i |
| Radix.DecodeEncode | solve_poly.cpp:16-30 | for 2 <= base <= 36, decoding the base-`base` representation of n gives back n |
| Radix.DecodeBound | solve_poly.cpp:27 | a string of n in-range digits decodes to a value in [0, base^n) |
| Radix.OutOfRangeDigitAccepted | solve_poly.cpp:20-27 | a digit at or above the base is not rejected: "1z" decodes like "45" in base 10 |
| Radix.DecodeExamples | solve_poly.cpp:16-30 | "ff" and "FF" are 255 in base 16, "111" is 7 in base 2, and "1_000" is 1000 in base 10 |
| TruncDivision.TruncDiv | solve_poly.cpp:64 | the quotient leaves a remainder smaller in magnitude than the divisor and signed like the dividend (rounding toward zero) |
| TruncDivision.TruncDivUnique | solve_poly.cpp:64 | exactly one quotient has that property |
| TruncDivision.TruncDivExact | solve_poly.cpp:64 | when the divisor divides the dividend, the truncated quotient times the divisor is the dividend |
| TruncDivision.TruncDivMultiple | solve_poly.cpp:64 | m * b divided by b is m |
| TruncDivision.TruncDivDiffersFromEuclidean | solve_poly.cpp:64 | -7 / 2 is -3 under truncation but -4 under Euclidean division, and -7 / -2 is 3 against 4; 7 / -2 is -3 under both |
| Poly.MulLinear | solve_poly.cpp:50-57 | multiplying by (x - r) adds one coefficient and keeps the leading coefficient |
| Poly.EvalMulLinear | solve_poly.cpp:50-57 | the product with (x - r) takes (x - r) times the old value at every x |
| Poly.EvalAdd | solve_poly.cpp:63-65 | the coefficient-wise sum takes the sum of the values at every x |
| Poly.EvalScale | solve_poly.cpp:62 | scaling every coefficient by c scales every value by c |
| Poly.ProdLinear | solve_poly.cpp:42-59 | a product of n linear factors has n + 1 coefficients and is monic |
| Poly.ProdLinearPair | solve_poly.cpp:51 | (x - a)(x - b) has coefficients [ab, -(a + b), 1] |
| Poly.EvalProdLinear | solve_poly.cpp:42-59 | the product of linear factors evaluates to the product of the factors' values |
| Poly.RootProductZero | solve_poly.cpp:42-59 | that product of values is zero exactly at the roots |
| Poly.ManyRootsIsZero | solve_poly.cpp:32-33 | a polynomial with no more coefficients than distinct roots is zero |
| Poly.InterpolantUnique | solve_poly.cpp:32-33 | two polynomials with k coefficients that agree at k distinct points are equal |
| Lagrange.OtherNodes | solve_poly.cpp:46-48 | after the inner loop, point i's basis has k - 1 roots |
| Lagrange.OtherNodesContents | solve_poly.cpp:46-56 | x is a root of point i's basis exactly when some other point among those visited has x-coordinate x |
| Lagrange.Basis | solve_poly.cpp:43-57 | after the first n points are visited, `term_coeffs` has n coefficients if point i is among them and n + 1 otherwise, and its leading coefficient is 1; `BasisStep`, `BasisSkip` and `BasisProperties` give its values |
| Lagrange.Denom | solve_poly.cpp:44-58 | `denom` is not zero when no other visited point shares x_i; `DenomIsRootProduct` gives its value |
| Lagrange.BasisStep | solve_poly.cpp:48-58 | one inner step at another point j multiplies the basis by (x - x_j) and the denominator by (x_i - x_j) |
| Lagrange.BasisSkip | solve_poly.cpp:47 | the inner step at the point's own index changes neither |
| Lagrange.DenomIsRootProduct | solve_poly.cpp:44-58 | the denominator is the product of (x_i - x_j) over the other points |
| Lagrange.BasisVanishes | solve_poly.cpp:42-59 | the basis polynomial of point i is 0 at every other node |
| Lagrange.BasisAtOwnNode | solve_poly.cpp:42-59 | the basis polynomial of point i takes the value `denom` at x_i |
| Lagrange.DenomNonZero | solve_poly.cpp:58 | with distinct x-coordinates the denominator is not zero |
| Lagrange.BasisProperties | solve_poly.cpp:42-59 | after the inner loop the basis has k coefficients, is monic, vanishes at the other nodes, and equals the non-zero `denom` at its own node |
| Lagrange.ScaleTerm | solve_poly.cpp:64 | one quotient per basis coefficient, each leaving a remainder term[a] * y_i - q * denom smaller in magnitude than `denom` and signed like term[a] * y_i, i.e. rounded toward zero |
| Lagrange.Contribution | solve_poly.cpp:61-65 | what point i adds has k coefficients |
| Lagrange.Accumulate | solve_poly.cpp:36-65 | the running sum keeps the k coefficients `final_coeffs` is created with; `AccumulateEval` gives its values at the nodes |
| Lagrange.Interpolate | solve_poly.cpp:34-36 | the result has k coefficients (none for k = 0) |
| Lagrange.ScaleTermTruncates | solve_poly.cpp:64 | each added coefficient is the truncated quotient of term[a] * y_i by `denom`, and exact when the division is |
| Lagrange.EvalScaleTerm | solve_poly.cpp:62-64 | with exact divisions the added polynomial times `denom` equals y_i times the basis, at every x |
| Lagrange.ContributionEval | solve_poly.cpp:38-65 | with exact divisions point i's contribution is y_i at x_i and 0 at the other nodes |
| Lagrange.AccumulateEval | solve_poly.cpp:36-65 | the running sum is y_j at x_j once point j has been added, and 0 before |
| Lagrange.InterpolatePassesThrough | solve_poly.cpp:32-33 | when every per-term division is exact, the result passes through each of the k points |
| Lagrange.InterpolateRecovers | solve_poly.cpp:32-33 | when every per-term division is exact, sampling a polynomial with k coefficients and interpolating gives that polynomial back |
| Lagrange.InterpolateSmall | solve_poly.cpp:35-44 | k = 0 gives []; for k = 1 the basis is [1] and the denominator 1, so the result is [y_0] |
| Lagrange.MulLinearLoop | solve_poly.cpp:52-57 | the multiplication loop computes the product with (x - x_j) |
| Lagrange.BasisLoop | solve_poly.cpp:42-59 | the inner loop ends with the basis polynomial and the denominator of point i |
| Lagrange.AddScaledLoop | solve_poly.cpp:63-65 | the accumulation loop adds the truncated quotients coefficient by coefficient |
| Lagrange.InterpolateLoop | solve_poly.cpp:34-69 | the loop nest computes `Interpolate` |
| Lagrange.InterpolateStep | solve_poly.cpp:38-66 | one outer pass adds the scaled basis polynomial of point i to the running sum |
| Lagrange.ContributionThree | solve_poly.cpp:42-65 | with three points, point i contributes the truncated quotients of ab y, -(a + b) y and y by its denominator, where a and b are the other two nodes |
| Lagrange.ExactTermThree | solve_poly.cpp:64 | with three points, point i's divisions are exact exactly when the denominator divides ab y, (a + b) y and y |
| Lagrange.ThreeNodesResult | solve_poly.cpp:34-69 | for x = 1, 2, 3 the result is [3y0 - 3y1 + y2, trunc(-5y0/2) + 4y1 + trunc(-3y2/2), trunc(y0/2) - y1 + trunc(y2/2)] |
| Lagrange.ThreeNodesConstantTerm | solve_poly.cpp:34-69 | for x = 1, 2, 3 the constant term of the result equals that of any three-coefficient polynomial through the points, even when the other coefficients are truncated |
| Lagrange.ThreeNodesExact | solve_poly.cpp:64 | for x = 1, 2, 3 every division is exact exactly when y0 and y2 are even |
| Lagrange.ThreePointExample | solve_poly.cpp:34-69 | (1, 4), (2, 7), (3, 12) give [3, 0, 1] with every division exact |
| Lagrange.TruncationMissesLine | solve_poly.cpp:62-64 | for odd t > 0, the points (1, t), (2, 2t), (3, 3t) on the line y = t x give [0, t + 1, -1], which is 2t - 2 at x = 2 instead of 2t |
| LagrangeDeferred.CoFactorDenom | solve_poly.cpp:58 | point i's denominator times the product of the other points' denominators is the common denominator |
| LagrangeDeferred.CommonDenomNonZero | solve_poly.cpp:58 | with distinct x-coordinates the common denominator is not zero |
| LagrangeDeferred.InterpolateDeferred | solve_poly.cpp:61-65 | coefficients, when returned, number k |
| LagrangeDeferred.NumeratorEval | solve_poly.cpp:61-65 | the summed numerators take D * y_j at x_j, where D is the common denominator |
| LagrangeDeferred.DeferredSound | solve_poly.cpp:32-33 | returned coefficients pass through each of the k points |
| LagrangeDeferred.DeferredComplete | solve_poly.cpp:32-33 | if a polynomial with k integer coefficients passes through the k points, it is what is returned |
| LagrangeDeferred.DeferredExactIff | solve_poly.cpp:32-33 | coefficients are returned exactly when some polynomial with k integer coefficients passes through the k points; otherwise the outcome is an inexact division |
| LagrangeDeferred.DeferredAgrees | solve_poly.cpp:61-65 | when every per-term division is exact, the deferred routine returns what the routine as written returns |
| LagrangeDeferred.DeferredRecoversLine | solve_poly.cpp:62-64 | (1, t), (2, 2t), (3, 3t) give back [0, t, 0] for every t |
| LagrangeDeferred.DeferredTwoPoints | solve_poly.cpp:32-33 | for two points, coefficients are returned exactly when the rise is a multiple of the run |

## Left out

- Lagrange.Accumulate: its own contract states only the number of coefficients. Its values are stated at the nodes by `Lagrange.AccumulateEval`, and coefficient by coefficient only through the loop proof `Lagrange.AddScaledLoop`, rather than as a separate column-sum definition.
- `main` (solve_poly.cpp:71-127) is not modelled. It reads the JSON input, handles `argv`, converts the base string with `stoi`, and prints the result. Its convention of giving point i the x-coordinate i appears only as `Lagrange.ThreeNodes`, which the three-point lemmas use.
- `isdigit`, `isalpha` and `tolower` are modelled as in the C locale, on ASCII only. Locale-dependent classes are not modelled. Neither are negative `char` values, which are undefined behaviour for these functions. Non-ASCII characters are skipped, as in the C locale.
- `Radix.Decode` takes any integer base, as the source does. Its sign property is stated for base >= 0, since a negative base can give a negative result.
- Duplicate x-coordinates among the first k points are excluded by a precondition (`DistinctX`). The source divides by zero there.
- Fewer than k points is excluded by the precondition k <= |points|. The source reads out of range there. Points beyond the k-th are ignored, as in the source.
- A negative `k` is excluded by typing `k` as a natural number. The source would construct a vector of negative size.
- The design description's typed errors are not added to the model of the routine as written, because the code has none. The inexact-division report exists only in the corrected routine of the finding below.
- The printed secret `coeff[0]` belongs to `main`. That c0 comes out right for x = 1, 2, 3 is proved only for three points (`Lagrange.ThreeNodesConstantTerm`), not for general k.

## Findings

| source | as written | input that shows it | evidently intended | confidence | as-written member | corrected member |
|---|---|---|---|---|---|---|
| solve_poly.cpp:62-64 | each term `term_coeffs[a] * yi / denom` is divided and truncated separately before being summed | (1, 1), (2, 2), (3, 3): the result is [0, 2, -1], which is 0 at x = 2. In general (1, t), (2, 2t), (3, 3t) with odd t > 0 gives [0, t + 1, -1] | the interpolating polynomial whenever it has integer coefficients, here [0, t, 0], as the comment `(yi / denom) * term_coeffs` describes; proved as `LagrangeDeferred.DeferredComplete` and `LagrangeDeferred.DeferredRecoversLine` | not executed; high (the result misses one of its own input points) | Lagrange.TruncationMissesLine | LagrangeDeferred.InterpolateDeferred |
