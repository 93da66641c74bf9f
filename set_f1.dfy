/** Exact-match F1 between a reference list and a candidate list of items.
    Both lists are turned into sets first, so only distinct items matter;
    ratios are exact rationals (`real`), not floating-point numbers. */
module SetF1 {
  import opened Outcome

  /** The distinct items of a list, as Python's `set(xs)` builds them. */
  function ToSet<T(==,!new)>(xs: seq<T>): (s: set<T>)
    ensures forall x :: x in s <==> x in xs
    ensures s == {} <==> xs == []
  {
    if xs == [] then {} else assert xs[0] in xs; set x | x in xs
  }

  /** A subset is no larger than its superset, and only the superset itself
      is as large. */
  lemma {:induction false} SubsetCardinality<T(!new)>(a: set<T>, b: set<T>)
    requires a <= b
    ensures |a| <= |b|
    ensures |a| == |b| ==> a == b
  {
    if a != {} {
      var x :| x in a;
      SubsetCardinality(a - {x}, b - {x});
    } else if |b| == 0 {
      assert b == {};
    }
  }

  /** Share of the candidate's distinct items that also occur in the reference. */
  function Precision<T(==,!new)>(r: set<T>, c: set<T>): (p: real)
    requires c != {}
    ensures 0.0 <= p <= 1.0
    ensures p == 0.0 <==> r * c == {}
    ensures p == 1.0 <==> c <= r
    ensures p * |c| as real == |r * c| as real
  {
    SubsetCardinality(r * c, c);
    assert c <= r <==> r * c == c;
    |r * c| as real / |c| as real
  }

  /** Share of the reference's distinct items that the candidate recovers. */
  function Recall<T(==,!new)>(r: set<T>, c: set<T>): (q: real)
    requires r != {}
    ensures 0.0 <= q <= 1.0
    ensures q == 0.0 <==> r * c == {}
    ensures q == 1.0 <==> r <= c
    ensures q * |r| as real == |r * c| as real
  {
    SubsetCardinality(r * c, r);
    assert r <= c <==> r * c == r;
    |r * c| as real / |r| as real
  }

  /** The harmonic mean of the two ratios over a common numerator collapses
      to twice the numerator over the sum of the denominators. */
  lemma HarmonicMeanOfRatios(i: real, n: real, m: real)
    requires i > 0.0 && n > 0.0 && m > 0.0
    ensures i / m + i / n > 0.0
    ensures 2.0 * (i / m) * (i / n) / (i / m + i / n) == 2.0 * i / (n + m)
  {
  }

  /** A ratio of a part to a positive whole lies in [0,1]; it is 1 only for
      the whole and 0 only for nothing. */
  lemma RatioInUnit(part: real, whole: real)
    requires whole > 0.0 && 0.0 <= part <= whole
    ensures 0.0 <= part / whole <= 1.0
    ensures part / whole == 1.0 <==> part == whole
    ensures part / whole == 0.0 <==> part == 0.0
  {
  }

  /** F1 of two non-empty item sets: 0 when they share nothing, otherwise the
      harmonic mean of precision and recall. */
  function F1OfSets<T(==,!new)>(r: set<T>, c: set<T>): (f: real)
    requires r != {} && c != {}
    ensures 0.0 <= f <= 1.0
    ensures r * c != {} ==> f == 2.0 * |r * c| as real / (|r| + |c|) as real
    ensures f == 0.0 <==> r * c == {}
    ensures f == 1.0 <==> r == c
  {
    var i := |r * c|;
    var p := Precision(r, c);
    var q := Recall(r, c);
    if i == 0 then 0.0
    else
      HarmonicMeanOfRatios(i as real, |r| as real, |c| as real);
      PerfectOverlap(r, c);
      RatioInUnit(2.0 * i as real, (|r| + |c|) as real);
      2.0 * p * q / (p + q)
  }

  /** With a non-empty overlap, twice the overlap reaches the total size
      exactly when the two sets are equal, and never exceeds it. */
  lemma PerfectOverlap<T(!new)>(r: set<T>, c: set<T>)
    ensures 2 * |r * c| <= |r| + |c|
    ensures 2 * |r * c| == |r| + |c| <==> r == c
  {
    SubsetCardinality(r * c, r);
    SubsetCardinality(r * c, c);
    if 2 * |r * c| == |r| + |c| {
      assert r * c == r && r * c == c;
    }
    if r == c {
      assert r * c == r;
    }
  }

  /** `calculate_f1(ref, cand)`: precision is computed first, so an empty
      candidate fails before an empty reference is noticed. */
  function CalculateF1<T(==,!new)>(ref: seq<T>, cand: seq<T>): (res: Result<real>)
    ensures cand == [] ==> res == Err(EmptyCandidate)
    ensures cand != [] && ref == [] ==> res == Err(EmptyReference)
    ensures res.Ok? <==> ref != [] && cand != []
    ensures res.Ok? ==> 0.0 <= res.value <= 1.0
  {
    if cand == [] then Err(EmptyCandidate)
    else if ref == [] then Err(EmptyReference)
    else Ok(F1OfSets(ToSet(ref), ToSet(cand)))
  }

  /** No item of the reference occurs in the candidate. */
  predicate NoSharedItem<T(==)>(ref: seq<T>, cand: seq<T>)
  {
    forall x :: x in ref ==> x !in cand
  }

  /** Both lists hold the same distinct items. */
  predicate SameItems<T(==)>(ref: seq<T>, cand: seq<T>)
  {
    (forall x :: x in ref ==> x in cand) && (forall x :: x in cand ==> x in ref)
  }

  /** F1 is 0 exactly when no item of the reference occurs in the candidate. */
  lemma ZeroIffDisjoint<T(!new)>(ref: seq<T>, cand: seq<T>)
    requires ref != [] && cand != []
    ensures CalculateF1(ref, cand).value == 0.0 <==> NoSharedItem(ref, cand)
  {
    var r, c := ToSet(ref), ToSet(cand);
    if r * c != {} {
      var x :| x in r * c;
      assert x in ref && x in cand;
    }
    forall x | x in ref && x in cand ensures x in r * c {
      assert x in r && x in c;
    }
  }

  /** F1 is 1 exactly when both lists hold the same distinct items. */
  lemma OneIffSameItems<T(!new)>(ref: seq<T>, cand: seq<T>)
    requires ref != [] && cand != []
    ensures CalculateF1(ref, cand).value == 1.0 <==> SameItems(ref, cand)
  {
  }

  /** With at least one shared item, F1 is twice the number of shared items
      over the total number of distinct items on both sides. */
  lemma F1ClosedForm<T(!new)>(ref: seq<T>, cand: seq<T>)
    requires exists x :: x in ref && x in cand
    ensures CalculateF1(ref, cand)
         == Ok(2.0 * |ToSet(ref) * ToSet(cand)| as real / (|ToSet(ref)| + |ToSet(cand)|) as real)
  {
  }

  /** Only the distinct items of each list matter. */
  lemma OnlyDistinctItemsMatter<T(!new)>(ref: seq<T>, ref': seq<T>, cand: seq<T>, cand': seq<T>)
    requires forall x :: x in ref <==> x in ref'
    requires forall x :: x in cand <==> x in cand'
    ensures CalculateF1(ref, cand) == CalculateF1(ref', cand')
  {
    assert ToSet(ref) == ToSet(ref');
    assert ToSet(cand) == ToSet(cand');
  }

  /** Repeating an item that is already present changes nothing, on either side. */
  lemma RepetitionIgnored<T(!new)>(ref: seq<T>, cand: seq<T>, x: T, y: T)
    requires x in ref && y in cand
    ensures CalculateF1(ref + [x], cand) == CalculateF1(ref, cand)
    ensures CalculateF1(ref, cand + [y]) == CalculateF1(ref, cand)
  {
    OnlyDistinctItemsMatter(ref + [x], ref, cand, cand);
    OnlyDistinctItemsMatter(ref, ref, cand + [y], cand);
  }

  /** Swapping the arguments swaps precision and recall; F1 does not change. */
  lemma Symmetric<T(!new)>(ref: seq<T>, cand: seq<T>)
    ensures CalculateF1(ref, cand).Ok? <==> CalculateF1(cand, ref).Ok?
    ensures CalculateF1(ref, cand).Ok? ==> CalculateF1(ref, cand) == CalculateF1(cand, ref)
  {
    if ref != [] && cand != [] {
      var r, c := ToSet(ref), ToSet(cand);
      assert r * c == c * r;
      if r * c != {} {
        assert F1OfSets(r, c) == 2.0 * |r * c| as real / (|r| + |c|) as real;
        assert F1OfSets(c, r) == 2.0 * |c * r| as real / (|c| + |r|) as real;
      }
    }
  }

  /** One shared item out of two on each side gives precision, recall and
      F1 of one half. */
  lemma HalfOverlapExample()
    ensures Precision({"cat", "dog"}, {"dog", "bird"}) == 0.5
    ensures Recall({"cat", "dog"}, {"dog", "bird"}) == 0.5
    ensures CalculateF1(["cat", "dog"], ["dog", "bird"]) == Ok(0.5)
  {
    var r: set<string>, c: set<string> := {"cat", "dog"}, {"dog", "bird"};
    assert "cat" != "dog" && "dog" != "bird" && "cat" != "bird";
    assert |r| == 2 && |c| == 2;
    assert r * c == {"dog"};
    assert ToSet(["cat", "dog"]) == r;
    assert ToSet(["dog", "bird"]) == c;
    F1ClosedForm(["cat", "dog"], ["dog", "bird"]);
  }
}
