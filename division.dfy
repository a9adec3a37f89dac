/**
 * The division request of grobner_bases/division.py: `division_schema_check`
 * and the `Division` constructor, which keeps a valid request unchanged and
 * replaces an invalid one by the fixed problem "0 divided by x_1".
 *
 * The source calls `is_zero()` on each divisor but defines it nowhere, so the
 * zero test is a parameter `isZero` about which nothing is assumed.
 */
module Divisions {
  import opened Wrappers
  import opened Polynomials

  /** The first assertion of the schema check that fails. */
  datatype Violation =
    | NvarNotPositive         // nvar > 0
    | DividendArity           // nvar == dividend.nvar
    | NoDivisors              // len(divisors) > 0
    | DivisorArity(index: nat)  // nvar == divisor.nvar, for the divisor at index
    | ZeroDivisor(index: nat)   // not divisor.is_zero(), for the divisor at index

  /** A division problem as stored by the constructor. */
  datatype Division = Division(nvar: int, dividend: Polynomial, divisors: seq<Polynomial>)

  /** What a valid request is, stated as one condition. */
  predicate ValidRequest(nvar: int, dividend: Polynomial, divisors: seq<Polynomial>, isZero: Polynomial -> bool)
  {
    && nvar > 0
    && dividend.nvar == nvar
    && |divisors| > 0
    && forall i :: 0 <= i < |divisors| ==> divisors[i].nvar == nvar && !isZero(divisors[i])
  }

  /** The loop over the divisors, from the divisor at `i` on: the first
      violated condition, checking the arity of a divisor before its zero
      test. */
  function DivisorViolation(nvar: int, divisors: seq<Polynomial>, isZero: Polynomial -> bool, i: nat)
    : (r: Option<Violation>)
    requires i <= |divisors|
    decreases |divisors| - i
    ensures r.None? <==> forall j :: i <= j < |divisors| ==> divisors[j].nvar == nvar && !isZero(divisors[j])
    ensures r.Some? ==> r.value.DivisorArity? || r.value.ZeroDivisor?
    ensures r.Some? ==> && i <= r.value.index < |divisors|
                        && forall j :: i <= j < r.value.index ==> divisors[j].nvar == nvar && !isZero(divisors[j])
    ensures r.Some? && r.value.DivisorArity? ==> divisors[r.value.index].nvar != nvar
    ensures r.Some? && r.value.ZeroDivisor? ==> divisors[r.value.index].nvar == nvar && isZero(divisors[r.value.index])
  {
    if i == |divisors| then None
    else if divisors[i].nvar != nvar then Some(DivisorArity(i))
    else if isZero(divisors[i]) then Some(ZeroDivisor(i))
    else DivisorViolation(nvar, divisors, isZero, i + 1)
  }

  /** The assertions of the schema check in order: the first that fails. */
  function SchemaViolation(nvar: int, dividend: Polynomial, divisors: seq<Polynomial>, isZero: Polynomial -> bool)
    : (r: Option<Violation>)
    ensures r.None? <==> ValidRequest(nvar, dividend, divisors, isZero)
    ensures r == Some(NvarNotPositive) <==> nvar <= 0
    ensures r == Some(DividendArity) <==> nvar > 0 && dividend.nvar != nvar
    ensures r == Some(NoDivisors) <==> nvar > 0 && dividend.nvar == nvar && divisors == []
    ensures nvar > 0 && dividend.nvar == nvar && |divisors| > 0 ==> r == DivisorViolation(nvar, divisors, isZero, 0)
  {
    if nvar <= 0 then Some(NvarNotPositive)
    else if dividend.nvar != nvar then Some(DividendArity)
    else if |divisors| == 0 then Some(NoDivisors)
    else DivisorViolation(nvar, divisors, isZero, 0)
  }

  /** `division_schema_check(nvar, dividend, divisors)`: every failed
      assertion turns into `False`. */
  function SchemaCheck(nvar: int, dividend: Polynomial, divisors: seq<Polynomial>, isZero: Polynomial -> bool)
    : (ok: bool)
    ensures ok <==> ValidRequest(nvar, dividend, divisors, isZero)
  {
    SchemaViolation(nvar, dividend, divisors, isZero).None?
  }

  /** The divisors, by index, on which the loop calls the zero test, from the
      divisor at `i` on. */
  function ZeroTestsFrom(nvar: int, divisors: seq<Polynomial>, isZero: Polynomial -> bool, i: nat)
    : (r: seq<nat>)
    requires i <= |divisors|
    decreases |divisors| - i
    ensures i + |r| <= |divisors|
    ensures forall j :: 0 <= j < |r| ==> r[j] == i + j && divisors[i + j].nvar == nvar
    ensures forall j :: i <= j < i + |r| - 1 ==> !isZero(divisors[j])
    ensures var v := DivisorViolation(nvar, divisors, isZero, i);
            && (v.None? ==> i + |r| == |divisors|)
            && (v.Some? && v.value.DivisorArity? ==> i + |r| == v.value.index)
            && (v.Some? && v.value.ZeroDivisor? ==> i + |r| == v.value.index + 1)
  {
    if i == |divisors| || divisors[i].nvar != nvar then []
    else if isZero(divisors[i]) then [i]
    else [i] + ZeroTestsFrom(nvar, divisors, isZero, i + 1)
  }

  /** The divisors, by index, on which `division_schema_check` calls
      `is_zero()`: a prefix of the list, each of matching arity, ending at the
      first zero divisor; all of them when the check passes. */
  function ZeroTests(nvar: int, dividend: Polynomial, divisors: seq<Polynomial>, isZero: Polynomial -> bool)
    : (r: seq<nat>)
    ensures |r| <= |divisors|
    ensures forall j :: 0 <= j < |r| ==> r[j] == j && divisors[j].nvar == nvar
    ensures forall j :: 0 <= j < |r| - 1 ==> !isZero(divisors[j])
    ensures nvar <= 0 || dividend.nvar != nvar ==> r == []
    ensures ValidRequest(nvar, dividend, divisors, isZero) ==> |r| == |divisors|
    ensures nvar > 0 && dividend.nvar == nvar && |divisors| > 0 ==>
              var v := DivisorViolation(nvar, divisors, isZero, 0);
              && (v.None? ==> |r| == |divisors|)
              && (v.Some? && v.value.DivisorArity? ==> |r| == v.value.index)
              && (v.Some? && v.value.ZeroDivisor? ==> |r| == v.value.index + 1)
  {
    if nvar <= 0 || dividend.nvar != nvar || |divisors| == 0 then []
    else ZeroTestsFrom(nvar, divisors, isZero, 0)
  }

  /** `Division(1, Polynomial(1, [0], [(0,)]), [Polynomial(1, [1], [(1,)])])`:
      0 divided by x_1, built by the polynomial constructor. */
  function FallbackDivision(): (d: Division)
    ensures d.nvar == 1
    ensures NewPolynomial(1, [0], [[0]]) == Ok(d.dividend)
    ensures |d.divisors| == 1 && NewPolynomial(1, [1], [[1]]) == Ok(d.divisors[0])
  {
    NewPolynomialIdempotent(Polynomial(1, [0], [[0]]));
    NewPolynomialIdempotent(Polynomial(1, [1], [[1]]));
    Division(1, Polynomial(1, [0], [[0]]), [Polynomial(1, [1], [[1]])])
  }

  /** What the constructor guarantees of every `Division`, stored or fallback. */
  predicate ArityInvariant(d: Division)
  {
    && d.nvar > 0
    && d.dividend.nvar == d.nvar
    && |d.divisors| > 0
    && forall i :: 0 <= i < |d.divisors| ==> d.divisors[i].nvar == d.nvar
  }

  /** `Division(nvar, dividend, divisors)`: a valid request is stored as given,
      divisor order included; anything else becomes the fallback problem. */
  function NewDivision(nvar: int, dividend: Polynomial, divisors: seq<Polynomial>, isZero: Polynomial -> bool)
    : (d: Division)
    ensures ValidRequest(nvar, dividend, divisors, isZero) ==> d == Division(nvar, dividend, divisors)
    ensures !ValidRequest(nvar, dividend, divisors, isZero) ==> d == FallbackDivision()
    ensures ArityInvariant(d)
  {
    if SchemaCheck(nvar, dividend, divisors, isZero) then Division(nvar, dividend, divisors)
    else FallbackDivision()
  }

  /** A coefficient different from 0: the polynomial is not the all-zero one. */
  predicate HasNonzeroCoefficient(p: Polynomial)
  {
    exists i :: 0 <= i < |p.coefficients| && p.coefficients[i] != 0
  }

  /** The fallback divides the zero polynomial by x_1, whose leading
      coefficient is 1, so its one divisor is not the zero polynomial. */
  lemma FallbackIsZeroByX1()
    ensures var d := FallbackDivision();
            && Valid(d.dividend) && !HasNonzeroCoefficient(d.dividend)
            && Valid(d.divisors[0]) && LeadingCoefficient(d.divisors[0]) == 1
            && FullMultidegree(d.divisors[0]) == [1]
            && HasNonzeroCoefficient(d.divisors[0])
  {
    var d := FallbackDivision();
    assert d.divisors[0].coefficients[0] == 1;
  }

  /** Whatever the request, every stored polynomial is a constructed one when
      the given ones are. */
  lemma NewDivisionStoresConstructed(nvar: int, dividend: Polynomial, divisors: seq<Polynomial>, isZero: Polynomial -> bool)
    requires Valid(dividend)
    requires forall i :: 0 <= i < |divisors| ==> Valid(divisors[i])
    ensures var d := NewDivision(nvar, dividend, divisors, isZero);
            Valid(d.dividend) && forall i :: 0 <= i < |d.divisors| ==> Valid(d.divisors[i])
  {
    FallbackIsZeroByX1();
  }
}
