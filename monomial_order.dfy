/**
 * The monomial order of the toolkit: pure lexicographic order on multidegrees,
 * x_1 most significant, and Python's own tuple comparison, which is what the
 * polynomial constructor actually sorts with (on negated multidegrees).
 */
module MonomialOrder {

  /** An exponent tuple, one exponent per indeterminate x_1 .. x_nvar.
      The source never checks the sign of an exponent, so exponents are `int`. */
  type Multidegree = seq<int>

  /** Python's `<` on two tuples of integers: the first position at which the
      tuples differ decides; if one tuple is a prefix of the other, the shorter
      one is smaller. */
  predicate TupleLess(a: seq<int>, b: seq<int>)
  {
    if |a| == 0 then |b| > 0
    else if |b| == 0 then false
    else if a[0] != b[0] then a[0] < b[0]
    else TupleLess(a[1..], b[1..])
  }

  /** The sort key of the constructor: every exponent negated. */
  function Negated(md: Multidegree): (r: seq<int>)
    ensures |r| == |md|
    ensures forall i :: 0 <= i < |md| ==> r[i] == -md[i]
  {
    seq(|md|, i requires 0 <= i < |md| => -md[i])
  }

  /** Pure lexicographic order, textbook form: `a` is greater than `b` when they
      agree before some position and `a` has the larger exponent there. */
  predicate LexGreater(a: Multidegree, b: Multidegree)
  {
    |a| == |b| && exists i :: 0 <= i < |a| && a[..i] == b[..i] && a[i] > b[i]
  }

  /** Non-strict lexicographic order. */
  predicate LexGeq(a: Multidegree, b: Multidegree)
  {
    a == b || LexGreater(a, b)
  }

  /** Every multidegree has `n` exponents. */
  predicate AllOfArity(mds: seq<Multidegree>, n: int)
  {
    forall i :: 0 <= i < |mds| ==> |mds[i]| == n
  }

  /** The multidegrees are in non-increasing lexicographic order. */
  predicate LexNonIncreasing(mds: seq<Multidegree>)
  {
    forall i, j :: 0 <= i < j < |mds| ==> LexGeq(mds[i], mds[j])
  }

  lemma NegatedInjective(a: Multidegree, b: Multidegree)
    requires Negated(a) == Negated(b)
    ensures a == b
  {
    assert |a| == |b|;
    forall i | 0 <= i < |a| ensures a[i] == b[i] {
      assert Negated(a)[i] == Negated(b)[i];
    }
  }

  lemma NegatedTail(a: Multidegree)
    requires |a| > 0
    ensures Negated(a)[1..] == Negated(a[1..])
  {
  }

  // ---------------------------------------------------------------------------
  // Python tuple comparison is a strict total order.
  // ---------------------------------------------------------------------------

  lemma {:induction false} TupleLessIrreflexive(a: seq<int>)
    ensures !TupleLess(a, a)
  {
    if |a| > 0 {
      TupleLessIrreflexive(a[1..]);
    }
  }

  lemma {:induction false} TupleLessTransitive(a: seq<int>, b: seq<int>, c: seq<int>)
    requires TupleLess(a, b) && TupleLess(b, c)
    ensures TupleLess(a, c)
  {
    if |a| > 0 && |b| > 0 && |c| > 0 && a[0] == b[0] && b[0] == c[0] {
      TupleLessTransitive(a[1..], b[1..], c[1..]);
    }
  }

  lemma {:induction false} TupleLessTrichotomy(a: seq<int>, b: seq<int>)
    ensures a == b || TupleLess(a, b) || TupleLess(b, a)
  {
    if |a| > 0 && |b| > 0 && a[0] == b[0] {
      TupleLessTrichotomy(a[1..], b[1..]);
      if a[1..] == b[1..] {
        assert a == [a[0]] + a[1..] && b == [b[0]] + b[1..];
      }
    }
  }

  lemma {:induction false} TupleLessAsymmetric(a: seq<int>, b: seq<int>)
    requires TupleLess(a, b)
    ensures !TupleLess(b, a)
  {
    if |a| > 0 && |b| > 0 && a[0] == b[0] {
      TupleLessAsymmetric(a[1..], b[1..]);
    }
  }

  // ---------------------------------------------------------------------------
  // Ascending order on negated tuples is descending lexicographic order.
  // ---------------------------------------------------------------------------

  /** Dropping a common first exponent does not change the lex comparison. */
  lemma LexGreaterTail(a: Multidegree, b: Multidegree)
    requires |a| == |b| > 0 && a[0] == b[0]
    ensures LexGreater(a, b) <==> LexGreater(a[1..], b[1..])
  {
    if LexGreater(a, b) {
      var i :| 0 <= i < |a| && a[..i] == b[..i] && a[i] > b[i];
      assert i > 0;
      assert a[1..][..i - 1] == a[..i][1..] == b[..i][1..] == b[1..][..i - 1];
      assert a[1..][i - 1] > b[1..][i - 1];
    }
    if LexGreater(a[1..], b[1..]) {
      var j :| 0 <= j < |a| - 1 && a[1..][..j] == b[1..][..j] && a[1..][j] > b[1..][j];
      assert a[..j + 1] == [a[0]] + a[1..][..j];
      assert b[..j + 1] == [b[0]] + b[1..][..j];
      assert a[j + 1] > b[j + 1];
    }
  }

  /** The key `tuple(-d for d in md)` sorts ascending exactly when the
      multidegrees are in descending lexicographic order. */
  lemma {:induction false} NegatedTupleLessIsLexGreater(a: Multidegree, b: Multidegree)
    requires |a| == |b|
    ensures TupleLess(Negated(a), Negated(b)) <==> LexGreater(a, b)
  {
    if |a| == 0 {
      assert !LexGreater(a, b);
    } else {
      NegatedTail(a);
      NegatedTail(b);
      if a[0] == b[0] {
        NegatedTupleLessIsLexGreater(a[1..], b[1..]);
        LexGreaterTail(a, b);
      } else if a[0] > b[0] {
        assert a[..0] == b[..0];
      }
    }
  }

  // ---------------------------------------------------------------------------
  // Lexicographic order on equal-length multidegrees is a strict total order.
  // ---------------------------------------------------------------------------

  lemma LexGreaterIrreflexive(a: Multidegree)
    ensures !LexGreater(a, a)
  {
    NegatedTupleLessIsLexGreater(a, a);
    TupleLessIrreflexive(Negated(a));
  }

  lemma LexGreaterAsymmetric(a: Multidegree, b: Multidegree)
    requires LexGreater(a, b)
    ensures !LexGreater(b, a)
  {
    NegatedTupleLessIsLexGreater(a, b);
    NegatedTupleLessIsLexGreater(b, a);
    TupleLessAsymmetric(Negated(a), Negated(b));
  }

  lemma LexGreaterTransitive(a: Multidegree, b: Multidegree, c: Multidegree)
    requires LexGreater(a, b) && LexGreater(b, c)
    ensures LexGreater(a, c)
  {
    NegatedTupleLessIsLexGreater(a, b);
    NegatedTupleLessIsLexGreater(b, c);
    NegatedTupleLessIsLexGreater(a, c);
    TupleLessTransitive(Negated(a), Negated(b), Negated(c));
  }

  /** Two distinct multidegrees of the same arity are always comparable. */
  lemma LexTotal(a: Multidegree, b: Multidegree)
    requires |a| == |b|
    ensures a == b || LexGreater(a, b) || LexGreater(b, a)
  {
    NegatedTupleLessIsLexGreater(a, b);
    NegatedTupleLessIsLexGreater(b, a);
    TupleLessTrichotomy(Negated(a), Negated(b));
    if Negated(a) == Negated(b) {
      NegatedInjective(a, b);
    }
  }

  lemma LexGeqTransitive(a: Multidegree, b: Multidegree, c: Multidegree)
    requires LexGeq(a, b) && LexGeq(b, c)
    ensures LexGeq(a, c)
  {
    if a != b && b != c {
      LexGreaterTransitive(a, b, c);
    }
  }

  lemma LexGeqAntisymmetric(a: Multidegree, b: Multidegree)
    requires LexGeq(a, b) && LexGeq(b, a)
    ensures a == b
  {
    if a != b {
      LexGreaterAsymmetric(a, b);
    }
  }
}
