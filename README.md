# Gröbner-bases scaffolding: polynomial construction and division requests

This project models in Dafny the two pieces of the `grobner_bases` package that
hold real logic:

- `grobner_bases/polynomial.py`. The `Polynomial` constructor checks the shape
  of its input. It then stores the (coefficient, multidegree) pairs stably
  sorted by the key "every exponent negated", compared as Python tuples. That
  order is non-increasing pure lexicographic order with x_1 most significant.
  The accessors `full_multidegree`, `degree`, `leading_coefficient` and
  `leading_term` read the first stored pair. `Monomial` is the one-pair case.
- `grobner_bases/division.py`. `division_schema_check` decides whether a
  division request (nvar, dividend, divisors) is well formed. The `Division`
  constructor stores a valid request unchanged. Any other request becomes the
  fixed problem "0 divided by x_1".

Both files are pure. Each is modelled by functions over immutable values and
by lemmas about them. The modules are:

- `MonomialOrder` (monomial_order.dfy) defines two orders. `TupleLess` is
  Python's tuple `<`. `LexGreater` is the textbook lexicographic order. The
  module proves that ascending order on negated tuples is the same as
  descending lex order, and that lex order is a strict total order.
- `Terms` (terms.dfy) holds the pairs, `zip`, `zip(*...)` and the stable sort
  `SortByKey`. It proves that the sort's output is sorted, is a permutation of
  its input and is stable. It also proves the output is unique: any stable
  sort by this key gives the same sequence, whatever algorithm Python uses.
- `Polynomials` (polynomial.dfy) has the constructor `NewPolynomial`, which
  returns a `Result` whose error says which check failed. It also has the
  accessors, `NewMonomial` and `LeadingTerm`.
- `Divisions` (division.dfy) has the schema check, the record of `is_zero`
  calls, the fallback problem and `NewDivision`.
- `Wrappers` (wrappers.dfy) holds `Option` and `Result`.

Boundary decisions:

- Coefficients are `int`. The modelled code never looks at a coefficient's
  value, so the choice of type does not matter.
- Exponents are `int`, because the source never checks their sign.
- `is_zero()` is called at grobner_bases/division.py:18 but is not defined in
  grobner_bases/polynomial.py. It is therefore a parameter
  `isZero: Polynomial -> bool`, and nothing is assumed about it.

The model follows the code, which departs from a textbook canonical form in
these ways:

- Like terms are not merged and zero coefficients are not dropped.
- Negative exponents are accepted.
- Sorting is non-strict: repeated multidegrees stay, in input order.
- An invalid division request is replaced by the fallback problem after a
  printed warning; the caller gets no error.
- The empty polynomial cannot be constructed at all. Unpacking an empty `zip`
  raises, which the model reports as `NoTerms`.

## Model

| member | source | states |
|---|---|---|
| `MonomialOrder.NegatedTupleLessIsLexGreater` | grobner_bases/polynomial.py:11-14 | for equal-length multidegrees, the negated key of `a` is tuple-smaller than that of `b` exactly when `a` is lex-greater than `b` |
| `MonomialOrder.LexTotal` | grobner_bases/polynomial.py:11-14 | two multidegrees of the same length are equal or comparable in lex order |
| `MonomialOrder.LexGreaterTransitive` | grobner_bases/polynomial.py:11-14 | lex order is transitive |
| `MonomialOrder.LexGreaterAsymmetric` | grobner_bases/polynomial.py:11-14 | lex order is asymmetric (no two multidegrees are each greater than the other) |
| `MonomialOrder.LexGreaterIrreflexive` | grobner_bases/polynomial.py:11-14 | no multidegree is lex-greater than itself |
| `MonomialOrder.LexGeqAntisymmetric` | grobner_bases/polynomial.py:11-14 | non-strict lex order is antisymmetric |
| `MonomialOrder.LexGeqTransitive` | grobner_bases/polynomial.py:11-14 | non-strict lex order is transitive |
| `MonomialOrder.TupleLessTransitive` | grobner_bases/polynomial.py:11-14 | Python's tuple comparison of sort keys is transitive |
| `MonomialOrder.TupleLessTrichotomy` | grobner_bases/polynomial.py:11-14 | any two sort keys are equal or one is tuple-smaller |
| `Terms.ZipUnzip` | grobner_bases/polynomial.py:10-15 | zipping the two unzipped sequences gives back the pairs |
| `Terms.UnzipZip` | grobner_bases/polynomial.py:10-15 | unzipping the zipped pairs gives back both input sequences |
| `Terms.SortByKey` | grobner_bases/polynomial.py:11-14 | the sorted pairs are a permutation of the input pairs (same multiset, same length) |
| `Terms.SortByKeySorted` | grobner_bases/polynomial.py:11-14 | the sorted pairs are in ascending key order |
| `Terms.SortByKeyStable` | grobner_bases/polynomial.py:11-14 | the pairs of each multidegree keep their input order |
| `Terms.StableSortIsSortByKey` | grobner_bases/polynomial.py:11-14 | every key-sorted, order-preserving arrangement of the input equals `SortByKey` of it, so the stable sort's result is unique |
| `Terms.SortByKeyOfSorted` | grobner_bases/polynomial.py:11-14 | sorting an already key-sorted sequence returns it unchanged |
| `Terms.KeySortedIsLexDescending` | grobner_bases/polynomial.py:11-14 | for pairs of one arity, ascending key order is the same as non-increasing lex order of the multidegrees |
| `Polynomials.FirstWrongArity` | grobner_bases/polynomial.py:6-7 | finds the first multidegree whose length is not nvar, if there is one; every earlier multidegree has length nvar |
| `Polynomials.NewPolynomial` | grobner_bases/polynomial.py:3-15 | succeeds exactly when nvar > 0, there is one multidegree per coefficient, there is at least one pair and every multidegree has length nvar; each failure gives its own error, and exactly that error, in the source's check order (non-positive nvar, then length mismatch, then the first multidegree of the wrong length, then no pairs); a success is a valid polynomial (lex-descending, arity nvar, non-empty) |
| `Polynomials.NewPolynomialPermutes` | grobner_bases/polynomial.py:10-15 | the stored pairs are the input pairs, rearranged, with none split, merged or dropped |
| `Polynomials.NewPolynomialStable` | grobner_bases/polynomial.py:10-15 | stored pairs with equal multidegrees keep their input order |
| `Polynomials.NewPolynomialUnique` | grobner_bases/polynomial.py:10-15 | any valid polynomial that keeps each multidegree's pairs in input order is what the constructor returns |
| `Polynomials.NewPolynomialIdempotent` | grobner_bases/polynomial.py:3-15 | constructing again from a polynomial's own stored sequences returns the same polynomial |
| `Polynomials.ValidIffConstructed` | grobner_bases/polynomial.py:3-15 | a polynomial is valid exactly when some constructor call returns it |
| `Polynomials.NoMergingExample` | grobner_bases/polynomial.py:10-15 | for coefficients 0, 5, 3 on x_1, x_1, x_1^2, the stored order is x_1^2 first, then the two x_1 pairs unmerged, in input order, with the zero coefficient kept |
| `Polynomials.LexOrderExample` | grobner_bases/polynomial.py:11-14 | x_2^2 + x_1 is stored as x_1 + x_2^2: the exponent of x_1 decides first |
| `Polynomials.LexMaxIsFirst` | grobner_bases/polynomial.py:32-33 | the first stored multidegree is lex-maximal, and it is the only lex-maximal one |
| `Polynomials.FullMultidegree` | grobner_bases/polynomial.py:32-33 | the result is a stored multidegree of length nvar that is lex-greater than or equal to every stored multidegree |
| `Polynomials.Degree` | grobner_bases/polynomial.py:35-36 | the result is the exponent sum of the lex-maximal stored multidegree |
| `Polynomials.DegreeIsLeadingTermDegree` | grobner_bases/polynomial.py:35-36 | the degree of x_1 + x_2^2 is 1 even though x_2^2 has total degree 2 |
| `Polynomials.LeadingCoefficient` | grobner_bases/polynomial.py:38-39 | the result, paired with the full multidegree, is the first stored pair with that multidegree |
| `Polynomials.LeadingPairOfConstructed` | grobner_bases/polynomial.py:32-39 | the leading pair is the first input pair whose multidegree is lex-maximal among all input multidegrees |
| `Polynomials.NewMonomial` | grobner_bases/polynomial.py:48-53 | succeeds exactly when nvar > 0 and the multidegree has length nvar, with the same errors as the polynomial constructor; the stored sequences are the singletons of the inputs, and the coefficient and multidegree are kept as fields |
| `Polynomials.LeadingTerm` | grobner_bases/polynomial.py:41-46 | the monomial built from the leading coefficient and full multidegree: the same nvar, exactly one pair, and that pair is a stored pair with a lex-maximal multidegree |
| `Polynomials.MonomialLeadsWithItself` | grobner_bases/polynomial.py:48-53 | a monomial's full multidegree, leading coefficient and degree are its own, and its leading term is itself |
| `Polynomials.LeadingTermIdempotent` | grobner_bases/polynomial.py:41-53 | the leading term of a leading term is that same leading term |
| `Divisions.DivisorViolation` | grobner_bases/division.py:15-18 | going through the divisors in list order, returns the first divisor with the wrong nvar, or else the first one `is_zero` reports as zero; nvar is checked before `is_zero`; the result is None exactly when every divisor passes |
| `Divisions.SchemaViolation` | grobner_bases/division.py:8-20 | the first failed assertion, in the source's order: nvar > 0, then dividend.nvar == nvar, then a non-empty divisor list, then the divisor loop, whose first failing divisor it reports; None exactly when the request is valid |
| `Divisions.SchemaCheck` | grobner_bases/division.py:3-27 | returns True exactly when nvar > 0, the dividend has nvar variables, there is at least one divisor and every divisor has nvar variables and is not zero; it returns False for every other request and never lets an assertion failure escape |
| `Divisions.ZeroTestsFrom` | grobner_bases/division.py:15-18 | `is_zero` is called on consecutive divisors in list order, each with matching nvar; the calls stop at the first wrong arity or the first zero divisor |
| `Divisions.ZeroTests` | grobner_bases/division.py:12-18 | `is_zero` is called on a prefix of the divisor list, each with matching nvar and all but the last found non-zero; there are no calls if nvar, the dividend's arity or the non-empty list fails; otherwise the calls stop exactly before the first divisor of the wrong nvar, just after the first zero divisor, or after the last divisor |
| `Divisions.FallbackDivision` | grobner_bases/division.py:52-54 | nvar 1; the dividend is what `Polynomial(1, [0], [(0,)])` constructs; the single divisor is what `Polynomial(1, [1], [(1,)])` constructs |
| `Divisions.NewDivision` | grobner_bases/division.py:45-54 | a valid request is stored unchanged, divisor order included; any other request gives the fallback; in both branches nvar > 0, the dividend and every divisor have nvar variables, and there is at least one divisor |
| `Divisions.FallbackIsZeroByX1` | grobner_bases/division.py:52-54 | the fallback dividend's coefficients are all zero; the fallback divisor is x_1, with leading coefficient 1, so it is not the all-zero polynomial |
| `Divisions.NewDivisionStoresConstructed` | grobner_bases/division.py:45-54 | if the given polynomials are valid, every polynomial the division stores is valid |

## Left out

- `__repr__` of both classes (grobner_bases/polynomial.py:17-30, grobner_bases/division.py:56-65). It is text formatting of coefficient values.
- The warning printed by `division_schema_check`. It is console output; only the boolean result is modelled.
- The `isinstance` checks in `division_schema_check`. Dafny's static types make them hold always.
- The generalized division algorithm (quotients and remainder). The source has no implementation of it; only its docstring names it.
- Polynomial arithmetic, equality, merging of like terms and removal of zero terms. None of them exists in the source.
- The body of `is_zero`. It is not defined in grobner_bases/polynomial.py, so a real call would raise `AttributeError`, which the schema check does not catch. The model takes the zero test as a parameter. `Divisions.ZeroTests` records exactly which divisors it would be called on.
- Python's `-O` mode, in which `assert` statements are skipped. The model assumes assertions are checked.
- Object identity. `Division` keeps a reference to the caller's divisor list, so later changes to that list would show through. The model stores a value.
- Floating-point and other coefficient types. The modelled code never reads coefficient values, so `int` stands for all of them.
