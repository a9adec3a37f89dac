/**
 * The `Polynomial` and `Monomial` classes of grobner_bases/polynomial.py.
 *
 * A polynomial is the number of indeterminates and two parallel sequences,
 * coefficients and multidegrees, fixed once by the constructor: it checks the
 * shape of its input and stores the (coefficient, multidegree) pairs stably
 * sorted into non-increasing pure lexicographic order. Pairs are never merged,
 * split or dropped; zero coefficients and repeated multidegrees are kept.
 */
module Polynomials {
  import opened Wrappers
  import opened MonomialOrder
  import opened Terms

  /** Why the constructor refuses its input: the three `assert`s, in the order
      the constructor evaluates them, and the unpacking of an empty `zip`. */
  datatype SpecError =
    | NonPositiveNvar          // nvar > 0 fails
    | LengthMismatch           // one multidegree per coefficient fails
    | WrongArity(index: nat)   // the first multidegree whose length is not nvar
    | NoTerms                  // no pairs at all: nothing to unpack

  datatype Polynomial = Polynomial(nvar: int, coefficients: seq<int>, multidegrees: seq<Multidegree>)

  /** The single-term polynomial, with its one coefficient and multidegree kept
      beside it as the subclass does. */
  datatype Monomial = Monomial(poly: Polynomial, coefficient: int, multidegree: Multidegree)

  /** `md` is greater than or equal to every multidegree in `mds`. */
  predicate IsLexMax(md: Multidegree, mds: seq<Multidegree>)
  {
    forall i :: 0 <= i < |mds| ==> LexGeq(md, mds[i])
  }

  /** What every constructed polynomial satisfies. */
  predicate Valid(p: Polynomial)
  {
    && p.nvar > 0
    && |p.coefficients| == |p.multidegrees| > 0
    && AllOfArity(p.multidegrees, p.nvar)
    && LexNonIncreasing(p.multidegrees)
  }

  /** The stored pairs, as `zip(self.coefficients, self.multidegrees)`. */
  function TermsOf(p: Polynomial): seq<Term>
    requires |p.coefficients| == |p.multidegrees|
  {
    Zip(p.coefficients, p.multidegrees)
  }

  /** The validation loop over the multidegrees: the index of the first one
      whose length is not `nvar`, if any. */
  function FirstWrongArity(mds: seq<Multidegree>, nvar: int): (r: Option<nat>)
    ensures r.None? <==> AllOfArity(mds, nvar)
    ensures r.Some? ==> r.value < |mds| && |mds[r.value]| != nvar
                        && forall j :: 0 <= j < r.value ==> |mds[j]| == nvar
  {
    if mds == [] then None
    else if |mds[0]| != nvar then Some(0)
    else match FirstWrongArity(mds[1..], nvar)
      case None => None
      case Some(k) => Some(k + 1)
  }

  lemma SortedPairsAreValid(nvar: int, ts: seq<Term>)
    requires nvar > 0 && ts != [] && SameArity(ts, nvar)
    ensures Valid(Polynomial(nvar, Coefficients(SortByKey(ts)), Multidegrees(SortByKey(ts))))
  {
    var s := SortByKey(ts);
    SortByKeySorted(ts);
    assert SameArity(s, nvar) by {
      forall i | 0 <= i < |s| ensures |s[i].multidegree| == nvar {
        assert s[i] in multiset(ts);
      }
    }
    KeySortedIsLexDescending(s, nvar);
  }

  /** `Polynomial(nvar, coefficients, multidegrees)`: the shape checks in the
      source's order, then the stable sort of the pairs. */
  function NewPolynomial(nvar: int, coefficients: seq<int>, multidegrees: seq<Multidegree>)
    : (r: Result<Polynomial, SpecError>)
    ensures r.Ok? <==> nvar > 0 && |coefficients| == |multidegrees| > 0 && AllOfArity(multidegrees, nvar)
    ensures r == Err(NonPositiveNvar) <==> nvar <= 0
    ensures r == Err(LengthMismatch) <==> nvar > 0 && |coefficients| != |multidegrees|
    ensures r.Err? && r.error.WrongArity? <==>
              nvar > 0 && |coefficients| == |multidegrees| && !AllOfArity(multidegrees, nvar)
    ensures r.Err? && r.error.WrongArity? ==>
              && nvar > 0 && |coefficients| == |multidegrees|
              && r.error.index < |multidegrees| && |multidegrees[r.error.index]| != nvar
              && forall j :: 0 <= j < r.error.index ==> |multidegrees[j]| == nvar
    ensures r == Err(NoTerms) <==> nvar > 0 && coefficients == [] && multidegrees == []
    ensures r.Ok? ==> Valid(r.value) && r.value.nvar == nvar
  {
    if nvar <= 0 then Err(NonPositiveNvar)
    else if |coefficients| != |multidegrees| then Err(LengthMismatch)
    else match FirstWrongArity(multidegrees, nvar)
      case Some(k) => Err(WrongArity(k))
      case None =>
        if |coefficients| == 0 then Err(NoTerms)
        else
          var sorted := SortByKey(Zip(coefficients, multidegrees));
          SortedPairsAreValid(nvar, Zip(coefficients, multidegrees));
          Ok(Polynomial(nvar, Coefficients(sorted), Multidegrees(sorted)))
  }

  /** The stored pairs are the input pairs, rearranged: none split, merged or
      dropped, so zero coefficients and repeated multidegrees survive. */
  lemma NewPolynomialPermutes(nvar: int, coefficients: seq<int>, multidegrees: seq<Multidegree>)
    requires NewPolynomial(nvar, coefficients, multidegrees).Ok?
    ensures var p := NewPolynomial(nvar, coefficients, multidegrees).value;
            |p.coefficients| == |coefficients|
            && multiset(TermsOf(p)) == multiset(Zip(coefficients, multidegrees))
  {
    var ts := Zip(coefficients, multidegrees);
    ZipUnzip(SortByKey(ts));
  }

  /** The sort is stable: the pairs of any one multidegree keep their input
      order. */
  lemma NewPolynomialStable(nvar: int, coefficients: seq<int>, multidegrees: seq<Multidegree>, m: Multidegree)
    requires NewPolynomial(nvar, coefficients, multidegrees).Ok?
    ensures var p := NewPolynomial(nvar, coefficients, multidegrees).value;
            Filter(TermsOf(p), m) == Filter(Zip(coefficients, multidegrees), m)
  {
    var ts := Zip(coefficients, multidegrees);
    ZipUnzip(SortByKey(ts));
    SortByKeyStable(ts, m);
  }

  /** The stored order is the only one that is lex-descending and keeps equal
      multidegrees in input order: whichever stable sort Python uses, it
      produces this polynomial. */
  lemma NewPolynomialUnique(nvar: int, coefficients: seq<int>, multidegrees: seq<Multidegree>, q: Polynomial)
    requires NewPolynomial(nvar, coefficients, multidegrees).Ok?
    requires Valid(q) && q.nvar == nvar
    requires forall m :: Filter(TermsOf(q), m) == Filter(Zip(coefficients, multidegrees), m)
    ensures NewPolynomial(nvar, coefficients, multidegrees) == Ok(q)
  {
    var ts := Zip(coefficients, multidegrees);
    var qs := TermsOf(q);
    assert SameArity(qs, nvar);
    KeySortedIsLexDescending(qs, nvar);
    StableSortIsSortByKey(ts, qs);
    UnzipZip(q.coefficients, q.multidegrees);
  }

  /** Constructing again from a constructed polynomial's own sequences gives
      the same sequences back. */
  lemma NewPolynomialIdempotent(p: Polynomial)
    requires Valid(p)
    ensures NewPolynomial(p.nvar, p.coefficients, p.multidegrees) == Ok(p)
  {
    var ts := TermsOf(p);
    assert SameArity(ts, p.nvar);
    KeySortedIsLexDescending(ts, p.nvar);
    SortByKeyOfSorted(ts);
    UnzipZip(p.coefficients, p.multidegrees);
  }

  /** `Valid` describes exactly the polynomials the constructor can produce. */
  lemma ValidIffConstructed(p: Polynomial)
    ensures Valid(p) <==> exists nvar, cs, mds :: NewPolynomial(nvar, cs, mds) == Ok(p)
  {
    if Valid(p) {
      NewPolynomialIdempotent(p);
    }
  }

  // ---------------------------------------------------------------------------
  // Accessors: projections of the first stored pair
  // ---------------------------------------------------------------------------

  lemma LexMaxIsFirst(p: Polynomial)
    requires Valid(p)
    ensures IsLexMax(p.multidegrees[0], p.multidegrees)
    ensures forall md :: md in p.multidegrees && IsLexMax(md, p.multidegrees) ==> md == p.multidegrees[0]
  {
    forall md | md in p.multidegrees && IsLexMax(md, p.multidegrees) ensures md == p.multidegrees[0] {
      LexGeqAntisymmetric(md, p.multidegrees[0]);
    }
  }

  /** `full_multidegree()`: the lex-greatest stored multidegree. */
  function FullMultidegree(p: Polynomial): (md: Multidegree)
    requires Valid(p)
    ensures md in p.multidegrees && |md| == p.nvar
    ensures IsLexMax(md, p.multidegrees)
  {
    LexMaxIsFirst(p);
    p.multidegrees[0]
  }

  /** Sum of the exponents of a multidegree. */
  function TotalDegree(md: Multidegree): int
  {
    if md == [] then 0 else md[0] + TotalDegree(md[1..])
  }

  /** `degree()`: the total degree of the lex-greatest multidegree, which is
      not in general the largest total degree of any stored multidegree. */
  function Degree(p: Polynomial): (d: int)
    requires Valid(p)
    ensures forall md :: md in p.multidegrees && IsLexMax(md, p.multidegrees) ==> d == TotalDegree(md)
  {
    LexMaxIsFirst(p);
    TotalDegree(FullMultidegree(p))
  }

  /** `leading_coefficient()`: the coefficient stored with the lex-greatest
      multidegree. */
  function LeadingCoefficient(p: Polynomial): (c: int)
    requires Valid(p)
    ensures Term(c, FullMultidegree(p)) in TermsOf(p)
    ensures Term(c, FullMultidegree(p)) == Filter(TermsOf(p), FullMultidegree(p))[0]
  {
    assert TermsOf(p)[0] == Term(p.coefficients[0], p.multidegrees[0]);
    assert Filter(TermsOf(p), p.multidegrees[0]) == [TermsOf(p)[0]] + Filter(TermsOf(p)[1..], p.multidegrees[0]);
    p.coefficients[0]
  }

  /** The leading pair is the FIRST input pair whose multidegree is
      lex-greatest: its coefficient wins among repeated leading multidegrees. */
  lemma LeadingPairOfConstructed(nvar: int, coefficients: seq<int>, multidegrees: seq<Multidegree>)
    requires NewPolynomial(nvar, coefficients, multidegrees).Ok?
    ensures var p := NewPolynomial(nvar, coefficients, multidegrees).value;
            exists k :: 0 <= k < |multidegrees|
              && coefficients[k] == LeadingCoefficient(p)
              && multidegrees[k] == FullMultidegree(p)
              && IsLexMax(multidegrees[k], multidegrees)
              && forall j :: 0 <= j < k ==> multidegrees[j] != multidegrees[k]
  {
    var p := NewPolynomial(nvar, coefficients, multidegrees).value;
    var ts := Zip(coefficients, multidegrees);
    var m0 := FullMultidegree(p);
    NewPolynomialStable(nvar, coefficients, multidegrees, m0);
    NewPolynomialPermutes(nvar, coefficients, multidegrees);
    var ps := TermsOf(p);
    assert ps[0] == Term(LeadingCoefficient(p), m0);
    assert Filter(ps, m0) == [ps[0]] + Filter(ps[1..], m0);
    FilterHead(ts, m0);
    var k :| 0 <= k < |ts| && ts[k] == Filter(ts, m0)[0] && ts[k].multidegree == m0
             && forall j :: 0 <= j < k ==> ts[j].multidegree != m0;
    forall j | 0 <= j < |multidegrees| ensures LexGeq(m0, multidegrees[j]) {
      assert ts[j] in multiset(ps);
      var i :| 0 <= i < |ps| && ps[i] == ts[j];
      assert p.multidegrees[i] == multidegrees[j];
    }
  }

  /** `Monomial(nvar, coefficient, multidegree)`: a one-pair polynomial. */
  function NewMonomial(nvar: int, coefficient: int, multidegree: Multidegree): (r: Result<Monomial, SpecError>)
    ensures r.Ok? <==> nvar > 0 && |multidegree| == nvar
    ensures nvar <= 0 ==> r == Err(NonPositiveNvar)
    ensures nvar > 0 && |multidegree| != nvar ==> r == Err(WrongArity(0))
    ensures r.Ok? ==> && r.value.poly == Polynomial(nvar, [coefficient], [multidegree])
                      && r.value.coefficient == coefficient && r.value.multidegree == multidegree
                      && Valid(r.value.poly)
  {
    match NewPolynomial(nvar, [coefficient], [multidegree])
    case Err(e) => Err(e)
    case Ok(p) =>
      assert SortByKey(Zip([coefficient], [multidegree])) == [Term(coefficient, multidegree)];
      Ok(Monomial(p, coefficient, multidegree))
  }

  /** `leading_term()`: the monomial of the leading pair. */
  function LeadingTerm(p: Polynomial): (t: Monomial)
    requires Valid(p)
    ensures NewMonomial(p.nvar, LeadingCoefficient(p), FullMultidegree(p)) == Ok(t)
    ensures t.poly.nvar == p.nvar && t.poly.coefficients == [t.coefficient] && t.poly.multidegrees == [t.multidegree]
    ensures Term(t.coefficient, t.multidegree) in TermsOf(p) && IsLexMax(t.multidegree, p.multidegrees)
  {
    NewMonomial(p.nvar, LeadingCoefficient(p), FullMultidegree(p)).value
  }

  /** A monomial's accessors give back its own pair, and its leading term is
      itself. */
  lemma MonomialLeadsWithItself(nvar: int, coefficient: int, multidegree: Multidegree)
    requires NewMonomial(nvar, coefficient, multidegree).Ok?
    ensures var m := NewMonomial(nvar, coefficient, multidegree).value;
            && FullMultidegree(m.poly) == multidegree
            && LeadingCoefficient(m.poly) == coefficient
            && Degree(m.poly) == TotalDegree(multidegree)
            && LeadingTerm(m.poly) == m
  {
  }

  /** Taking the leading term twice is the same as taking it once. */
  lemma LeadingTermIdempotent(p: Polynomial)
    requires Valid(p)
    ensures LeadingTerm(LeadingTerm(p).poly) == LeadingTerm(p)
  {
    MonomialLeadsWithItself(p.nvar, LeadingCoefficient(p), FullMultidegree(p));
  }

  lemma NoMergingExampleSorted()
    ensures Valid(Polynomial(1, [3, 0, 5], [[2], [1], [1]]))
  {
    var mds: seq<Multidegree> := [[2], [1], [1]];
    assert LexGreater([2], [1]) by { assert [2][..0] == [1][..0]; }
    forall i, j | 0 <= i < j < 3 ensures LexGeq(mds[i], mds[j]) {
      if i == 0 { assert mds[i] == [2]; }
    }
  }

  lemma NoMergingExampleStable(m: Multidegree)
    ensures Filter(TermsOf(Polynomial(1, [3, 0, 5], [[2], [1], [1]])), m) == Filter(Zip([0, 5, 3], [[1], [1], [2]]), m)
  {
    assert TermsOf(Polynomial(1, [3, 0, 5], [[2], [1], [1]])) == [Term(3, [2]), Term(0, [1]), Term(5, [1])];
    assert Zip([0, 5, 3], [[1], [1], [2]]) == [Term(0, [1]), Term(5, [1]), Term(3, [2])];
    FilterThree(Term(3, [2]), Term(0, [1]), Term(5, [1]), m);
    FilterThree(Term(0, [1]), Term(5, [1]), Term(3, [2]), m);
  }

  /** Pairs are kept apart and in input order when their multidegrees are
      equal, zero coefficients stay, and the lex-greatest multidegree leads. */
  lemma NoMergingExample()
    ensures NewPolynomial(1, [0, 5, 3], [[1], [1], [2]]) == Ok(Polynomial(1, [3, 0, 5], [[2], [1], [1]]))
  {
    NoMergingExampleSorted();
    forall m ensures Filter(TermsOf(Polynomial(1, [3, 0, 5], [[2], [1], [1]])), m) == Filter(Zip([0, 5, 3], [[1], [1], [2]]), m) {
      NoMergingExampleStable(m);
    }
    NewPolynomialUnique(1, [0, 5, 3], [[1], [1], [2]], Polynomial(1, [3, 0, 5], [[2], [1], [1]]));
  }

  /** x_1 + x_2^2 given as x_2^2 + x_1: the constructor puts x_1 first, since
      lex order compares the exponent of x_1 before that of x_2. */
  lemma LexOrderExample()
    ensures NewPolynomial(2, [1, 1], [[0, 2], [1, 0]]) == Ok(Polynomial(2, [1, 1], [[1, 0], [0, 2]]))
  {
    var q := Polynomial(2, [1, 1], [[1, 0], [0, 2]]);
    assert Valid(q) by {
      assert LexGreater([1, 0], [0, 2]) by { assert [1, 0][..0] == [0, 2][..0]; }
    }
    assert TermsOf(q) == [Term(1, [1, 0]), Term(1, [0, 2])];
    assert Zip([1, 1], [[0, 2], [1, 0]]) == [Term(1, [0, 2]), Term(1, [1, 0])];
    forall m ensures Filter(TermsOf(q), m) == Filter(Zip([1, 1], [[0, 2], [1, 0]]), m) {
      FilterTwo(Term(1, [1, 0]), Term(1, [0, 2]), m);
      FilterTwo(Term(1, [0, 2]), Term(1, [1, 0]), m);
    }
    NewPolynomialUnique(2, [1, 1], [[0, 2], [1, 0]], q);
  }

  /** `degree()` of x_1 + x_2^2 is 1 although x_2^2 has total degree 2: the
      degree of the lex-leading term, not the largest total degree. */
  lemma DegreeIsLeadingTermDegree()
    ensures var p := Polynomial(2, [1, 1], [[1, 0], [0, 2]]);
            Valid(p) && Degree(p) == 1 && p.multidegrees[1] == [0, 2] && TotalDegree([0, 2]) == 2
  {
    LexOrderExample();
    assert TotalDegree([1, 0]) == 1 + TotalDegree([0]);
    assert TotalDegree([0, 2]) == 0 + TotalDegree([2]);
  }
}
