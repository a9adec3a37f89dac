/**
 * (coefficient, multidegree) pairs and the sort the polynomial constructor
 * applies to them: Python's stable `sorted` with the key "every exponent
 * negated", compared as Python tuples.
 */
module Terms {
  import opened MonomialOrder

  /** One (coefficient, multidegree) pair as produced by `zip`. Coefficients are
      never inspected by the constructor, so `int` stands for any value. */
  datatype Term = Term(coefficient: int, multidegree: Multidegree)

  /** The sort key `tuple(-d for d in md)` of a pair. */
  function Key(t: Term): seq<int>
  {
    Negated(t.multidegree)
  }

  /** The order `sorted` produces: no later key is smaller than an earlier one. */
  predicate KeySorted(ts: seq<Term>)
  {
    forall i, j :: 0 <= i < j < |ts| ==> !TupleLess(Key(ts[j]), Key(ts[i]))
  }

  /** Every pair's multidegree has `n` exponents. */
  predicate SameArity(ts: seq<Term>, n: int)
  {
    AllOfArity(Multidegrees(ts), n)
  }

  /** Non-increasing pure lexicographic order of the multidegrees. */
  predicate LexDescending(ts: seq<Term>)
  {
    LexNonIncreasing(Multidegrees(ts))
  }

  /** The pairs whose multidegree is `m`, in their order in `ts`. */
  function Filter(ts: seq<Term>, m: Multidegree): seq<Term>
  {
    if ts == [] then []
    else (if ts[0].multidegree == m then [ts[0]] else []) + Filter(ts[1..], m)
  }

  // ---------------------------------------------------------------------------
  // zip and zip(*...)
  // ---------------------------------------------------------------------------

  /** `zip(coefficients, multidegrees)` on equal-length inputs. */
  function Zip(cs: seq<int>, mds: seq<Multidegree>): (ts: seq<Term>)
    requires |cs| == |mds|
    ensures |ts| == |cs|
    ensures forall i :: 0 <= i < |ts| ==> ts[i].coefficient == cs[i] && ts[i].multidegree == mds[i]
  {
    seq(|cs|, i requires 0 <= i < |cs| => Term(cs[i], mds[i]))
  }

  /** The first component of `zip(*ts)`. */
  function Coefficients(ts: seq<Term>): (cs: seq<int>)
    ensures |cs| == |ts|
    ensures forall i :: 0 <= i < |ts| ==> cs[i] == ts[i].coefficient
  {
    seq(|ts|, i requires 0 <= i < |ts| => ts[i].coefficient)
  }

  /** The second component of `zip(*ts)`. */
  function Multidegrees(ts: seq<Term>): (mds: seq<Multidegree>)
    ensures |mds| == |ts|
    ensures forall i :: 0 <= i < |ts| ==> mds[i] == ts[i].multidegree
  {
    seq(|ts|, i requires 0 <= i < |ts| => ts[i].multidegree)
  }

  /** Unzipping and zipping again gives back the pairs. */
  lemma ZipUnzip(ts: seq<Term>)
    ensures Zip(Coefficients(ts), Multidegrees(ts)) == ts
  {
  }

  /** Zipping and unzipping again gives back both sequences. */
  lemma UnzipZip(cs: seq<int>, mds: seq<Multidegree>)
    requires |cs| == |mds|
    ensures Coefficients(Zip(cs, mds)) == cs && Multidegrees(Zip(cs, mds)) == mds
  {
  }

  // ---------------------------------------------------------------------------
  // The stable sort
  // ---------------------------------------------------------------------------

  /** Puts `t` in front of the first pair whose key is not smaller than its own,
      that is, before every pair of equal key: earlier input stays earlier. */
  function Insert(t: Term, ts: seq<Term>): (r: seq<Term>)
    ensures multiset(r) == multiset(ts) + multiset{t}
  {
    if ts == [] || !TupleLess(Key(ts[0]), Key(t)) then [t] + ts
    else
      assert ts == [ts[0]] + ts[1..];
      [ts[0]] + Insert(t, ts[1..])
  }

  /** The model of `sorted(pairs, key = lambda x: tuple(-d for d in x[1]))`:
      a stable insertion sort. `SortedUnique` shows that any stable sort by this
      key gives the same result. */
  function SortByKey(ts: seq<Term>): (r: seq<Term>)
    ensures multiset(r) == multiset(ts) && |r| == |ts|
  {
    if ts == [] then []
    else
      assert ts == [ts[0]] + ts[1..];
      Insert(ts[0], SortByKey(ts[1..]))
  }

  /** Being not smaller is transitive. */
  lemma NotLessTransitive(a: seq<int>, b: seq<int>, c: seq<int>)
    requires !TupleLess(b, a) && !TupleLess(c, b)
    ensures !TupleLess(c, a)
  {
    TupleLessTrichotomy(a, b);
    if TupleLess(c, a) && TupleLess(a, b) {
      TupleLessTransitive(c, a, b);
    }
  }

  lemma {:induction false} InsertKeySorted(t: Term, ts: seq<Term>)
    requires KeySorted(ts)
    ensures KeySorted(Insert(t, ts))
  {
    var r := Insert(t, ts);
    if ts == [] || !TupleLess(Key(ts[0]), Key(t)) {
      forall i, j | 0 <= i < j < |r| ensures !TupleLess(Key(r[j]), Key(r[i])) {
        if i == 0 {
          assert r[j] == ts[j - 1];
          if j > 1 {
            NotLessTransitive(Key(t), Key(ts[0]), Key(ts[j - 1]));
          }
        } else {
          assert r[i] == ts[i - 1] && r[j] == ts[j - 1];
        }
      }
    } else {
      var rest := Insert(t, ts[1..]);
      InsertKeySorted(t, ts[1..]);
      assert r == [ts[0]] + rest;
      forall i, j | 0 <= i < j < |r| ensures !TupleLess(Key(r[j]), Key(r[i])) {
        if i == 0 {
          assert r[j] in multiset(rest);
          assert r[j] == t || r[j] in multiset(ts[1..]);
          if r[j] == t {
            TupleLessAsymmetric(Key(ts[0]), Key(t));
          } else {
            var k :| 0 <= k < |ts[1..]| && ts[1..][k] == r[j];
            assert ts[k + 1] == r[j];
          }
        } else {
          assert r[i] == rest[i - 1] && r[j] == rest[j - 1];
        }
      }
    }
  }

  /** The sort's result is in key order. */
  lemma {:induction false} SortByKeySorted(ts: seq<Term>)
    ensures KeySorted(SortByKey(ts))
  {
    if ts != [] {
      SortByKeySorted(ts[1..]);
      InsertKeySorted(ts[0], SortByKey(ts[1..]));
    }
  }

  lemma {:induction false} FilterAppend(a: seq<Term>, b: seq<Term>, m: Multidegree)
    ensures Filter(a + b, m) == Filter(a, m) + Filter(b, m)
  {
    if a == [] {
      assert a + b == b;
    } else {
      assert (a + b)[0] == a[0];
      assert (a + b)[1..] == a[1..] + b;
      FilterAppend(a[1..], b, m);
    }
  }

  /** Inserting keeps the relative order of the pairs of every multidegree
      that `t` has when `t` stands first. */
  lemma {:induction false} InsertStable(t: Term, ts: seq<Term>, m: Multidegree)
    ensures Filter(Insert(t, ts), m) == Filter([t] + ts, m)
  {
    if ts != [] && TupleLess(Key(ts[0]), Key(t)) {
      InsertStable(t, ts[1..], m);
      FilterAppend([ts[0]], Insert(t, ts[1..]), m);
      FilterAppend([t], ts[1..], m);
      FilterAppend([ts[0]], [t] + ts[1..], m);
      FilterAppend([t], ts, m);
      assert ts == [ts[0]] + ts[1..];
      FilterAppend([ts[0]], ts[1..], m);
      if ts[0].multidegree == m && t.multidegree == m {
        TupleLessIrreflexive(Key(t));
      }
    }
  }

  /** Stability: pairs with the same multidegree keep their input order. */
  lemma {:induction false} SortByKeyStable(ts: seq<Term>, m: Multidegree)
    ensures Filter(SortByKey(ts), m) == Filter(ts, m)
  {
    if ts != [] {
      SortByKeyStable(ts[1..], m);
      InsertStable(ts[0], SortByKey(ts[1..]), m);
      FilterAppend([ts[0]], SortByKey(ts[1..]), m);
    }
  }

  /** The subsequence of multidegree `m` of a two-pair sequence. */
  lemma FilterTwo(a: Term, b: Term, m: Multidegree)
    ensures Filter([a, b], m) == (if a.multidegree == m then [a] else []) + (if b.multidegree == m then [b] else [])
  {
    assert [a, b][1..] == [b];
    assert [b][1..] == [];
    assert Filter([b], m) == (if b.multidegree == m then [b] else []) + Filter([], m);
  }

  /** The subsequence of multidegree `m` of a three-pair sequence. */
  lemma FilterThree(a: Term, b: Term, c: Term, m: Multidegree)
    ensures Filter([a, b, c], m) == (if a.multidegree == m then [a] else [])
                                    + (if b.multidegree == m then [b] else [])
                                    + (if c.multidegree == m then [c] else [])
  {
    assert [a, b, c][1..] == [b, c];
    FilterTwo(b, c, m);
  }

  lemma {:induction false} FilterMembership(ts: seq<Term>, m: Multidegree, x: Term)
    ensures x in Filter(ts, m) <==> x in ts && x.multidegree == m
  {
    if ts != [] {
      FilterMembership(ts[1..], m, x);
      assert x in ts <==> x == ts[0] || x in ts[1..];
    }
  }

  /** The first pair of multidegree `m` in `Filter(ts, m)` is the first such
      pair of `ts`. */
  lemma {:induction false} FilterHead(ts: seq<Term>, m: Multidegree)
    requires Filter(ts, m) != []
    ensures exists k :: 0 <= k < |ts| && ts[k] == Filter(ts, m)[0] && ts[k].multidegree == m
                        && forall j :: 0 <= j < k ==> ts[j].multidegree != m
  {
    if ts[0].multidegree != m {
      FilterHead(ts[1..], m);
      var k :| 0 <= k < |ts[1..]| && ts[1..][k] == Filter(ts[1..], m)[0] && ts[1..][k].multidegree == m
               && forall j :: 0 <= j < k ==> ts[1..][j].multidegree != m;
      assert forall j :: 0 <= j < k + 1 ==> ts[j].multidegree != m by {
        forall j | 0 <= j < k + 1 ensures ts[j].multidegree != m {
          if j > 0 { assert ts[j] == ts[1..][j - 1]; }
        }
      }
    } else {
      assert ts[0] == Filter(ts, m)[0];
    }
  }

  lemma KeySortedTail(ts: seq<Term>)
    requires KeySorted(ts) && ts != []
    ensures KeySorted(ts[1..])
  {
    forall i, j | 0 <= i < j < |ts| - 1 ensures !TupleLess(Key(ts[1..][j]), Key(ts[1..][i])) {
      assert ts[1..][j] == ts[j + 1] && ts[1..][i] == ts[i + 1];
    }
  }

  /** In a key-sorted sequence no pair has a smaller key than the first. */
  lemma KeySortedHeadLeast(ts: seq<Term>, x: Term)
    requires KeySorted(ts) && x in ts
    ensures !TupleLess(Key(x), Key(ts[0]))
  {
    var k :| 0 <= k < |ts| && ts[k] == x;
    if k == 0 {
      TupleLessIrreflexive(Key(x));
    }
  }

  /** Two key-sorted sequences with the same pairs of every multidegree start
      with the same pair. */
  lemma SortedHeadsAgree(t: seq<Term>, u: seq<Term>)
    requires KeySorted(t) && KeySorted(u) && t != [] && u != []
    requires forall m :: Filter(t, m) == Filter(u, m)
    ensures t[0] == u[0]
  {
    var m0, n0 := t[0].multidegree, u[0].multidegree;
    FilterMembership(t, m0, t[0]);
    FilterMembership(u, m0, t[0]);
    FilterMembership(u, n0, u[0]);
    FilterMembership(t, n0, u[0]);
    assert Filter(t, m0) == Filter(u, m0) && Filter(t, n0) == Filter(u, n0);
    KeySortedHeadLeast(u, t[0]);
    KeySortedHeadLeast(t, u[0]);
    TupleLessTrichotomy(Key(t[0]), Key(u[0]));
    NegatedInjective(m0, n0);
    assert Filter(t, m0) == [t[0]] + Filter(t[1..], m0);
    assert Filter(u, m0) == [u[0]] + Filter(u[1..], m0);
    assert Filter(t, m0)[0] == t[0] && Filter(u, m0)[0] == u[0];
  }

  /** Removing an equal first pair keeps the per-multidegree subsequences equal. */
  lemma FilterTailsAgree(t: seq<Term>, u: seq<Term>, m: Multidegree)
    requires t != [] && u != [] && t[0] == u[0]
    requires Filter(t, m) == Filter(u, m)
    ensures Filter(t[1..], m) == Filter(u[1..], m)
  {
    if t[0].multidegree == m {
      assert Filter(t, m) == [t[0]] + Filter(t[1..], m);
      assert Filter(u, m) == [t[0]] + Filter(u[1..], m);
      assert ([t[0]] + Filter(t[1..], m))[1..] == Filter(t[1..], m);
      assert ([t[0]] + Filter(u[1..], m))[1..] == Filter(u[1..], m);
    } else {
      assert Filter(t, m) == Filter(t[1..], m);
      assert Filter(u, m) == Filter(u[1..], m);
    }
  }

  /** Two key-sorted sequences with the same pairs of every multidegree, in the
      same order, are equal: the result of a stable sort is unique. */
  lemma {:induction false} SortedUnique(t: seq<Term>, u: seq<Term>)
    requires KeySorted(t) && KeySorted(u)
    requires forall m :: Filter(t, m) == Filter(u, m)
    ensures t == u
    decreases |t|
  {
    if t != [] {
      assert Filter(u, t[0].multidegree) == Filter(t, t[0].multidegree) != [];
    }
    if u != [] {
      assert Filter(t, u[0].multidegree) == Filter(u, u[0].multidegree) != [];
    }
    if t != [] && u != [] {
      SortedHeadsAgree(t, u);
      forall m ensures Filter(t[1..], m) == Filter(u[1..], m) {
        FilterTailsAgree(t, u, m);
      }
      KeySortedTail(t);
      KeySortedTail(u);
      SortedUnique(t[1..], u[1..]);
      assert t == [t[0]] + t[1..] && u == [u[0]] + u[1..];
    }
  }

  /** `SortByKey` is THE stable sort: any key-sorted arrangement of `ts` that
      keeps the order of equal multidegrees is `SortByKey(ts)`. */
  lemma StableSortIsSortByKey(ts: seq<Term>, r: seq<Term>)
    requires KeySorted(r)
    requires forall m :: Filter(r, m) == Filter(ts, m)
    ensures r == SortByKey(ts)
  {
    SortByKeySorted(ts);
    forall m ensures Filter(r, m) == Filter(SortByKey(ts), m) {
      SortByKeyStable(ts, m);
    }
    SortedUnique(r, SortByKey(ts));
  }

  /** Sorting an already sorted sequence changes nothing. */
  lemma {:induction false} SortByKeyOfSorted(ts: seq<Term>)
    requires KeySorted(ts)
    ensures SortByKey(ts) == ts
  {
    if ts != [] {
      SortByKeyOfSorted(ts[1..]);
      assert ts == [ts[0]] + ts[1..];
    }
  }

  /** For pairs of one arity, key order is non-increasing lex order. */
  lemma KeySortedIsLexDescending(ts: seq<Term>, n: int)
    requires SameArity(ts, n)
    ensures KeySorted(ts) <==> LexDescending(ts)
  {
    forall i, j | 0 <= i < j < |ts|
      ensures !TupleLess(Key(ts[j]), Key(ts[i])) <==> LexGeq(ts[i].multidegree, ts[j].multidegree)
    {
      var a, b := ts[i].multidegree, ts[j].multidegree;
      NegatedTupleLessIsLexGreater(b, a);
      LexTotal(a, b);
      if a == b {
        LexGreaterIrreflexive(a);
      } else if LexGreater(a, b) {
        LexGreaterAsymmetric(a, b);
      }
    }
  }
}
