/** The corpus score of the F1 evaluation: each reference list is paired
    with the candidate list at the same position (as `zip` pairs them, so
    the longer input's extra lists are ignored), every pair is scored with
    `CalculateF1`, and the scores are averaged with equal weight. */
module MacroF1 {
  import opened Outcome
  import opened SetF1

  /** The number of pairs `zip` forms from lists of these lengths: it
      stops at the end of the shorter list. */
  function Min(a: nat, b: nat): (n: nat)
    ensures n <= a && n <= b
    ensures n == a || n == b
  {
    if a <= b then a else b
  }

  /** The pairs at positions `lo` up to `hi` all have items on both sides. */
  predicate AllScorable<T>(refs: seq<seq<T>>, cands: seq<seq<T>>, lo: nat, hi: nat)
    requires hi <= |refs| && hi <= |cands|
  {
    forall i :: lo <= i < hi ==> refs[i] != [] && cands[i] != []
  }

  /** The scores of the zipped pairs from position `k` on, in order. The pairs
      are scored front to back, so the first pair that fails decides the error. */
  function ScoreFrom<T(==,!new)>(refs: seq<seq<T>>, cands: seq<seq<T>>, k: nat): (res: Result<seq<real>>)
    requires k <= Min(|refs|, |cands|)
    ensures res.Ok? <==> AllScorable(refs, cands, k, Min(|refs|, |cands|))
    ensures res.Ok? ==> |res.value| == Min(|refs|, |cands|) - k
    ensures res.Ok? ==> forall i :: 0 <= i < |res.value| ==> CalculateF1(refs[k + i], cands[k + i]) == Ok(res.value[i])
    decreases Min(|refs|, |cands|) - k
  {
    if k == Min(|refs|, |cands|) then Ok([])
    else
      var head := CalculateF1(refs[k], cands[k]);
      if head.Err? then
        Err(head.error)
      else
        var tail := ScoreFrom(refs, cands, k + 1);
        if tail.Err? then Err(tail.error)
        else
          var scores := [head.value] + tail.value;
          assert forall i :: 0 < i < |scores| ==>
            scores[i] == tail.value[i - 1] && CalculateF1(refs[k + i], cands[k + i]) == Ok(tail.value[i - 1]);
          Ok(scores)
  }

  /** A failure from position `k` on is the failure of the first pair at or
      after `k` that cannot be scored. */
  lemma {:induction false} ScoreFromFailure<T(!new)>(refs: seq<seq<T>>, cands: seq<seq<T>>, k: nat)
    requires k <= Min(|refs|, |cands|) && ScoreFrom(refs, cands, k).Err?
    ensures exists i :: k <= i < Min(|refs|, |cands|) && AllScorable(refs, cands, k, i)
                        && CalculateF1(refs[i], cands[i]) == Err(ScoreFrom(refs, cands, k).error)
    decreases Min(|refs|, |cands|) - k
  {
    if CalculateF1(refs[k], cands[k]).Err? {
      assert AllScorable(refs, cands, k, k);
    } else {
      ScoreFromFailure(refs, cands, k + 1);
      var j :| k + 1 <= j < Min(|refs|, |cands|) && AllScorable(refs, cands, k + 1, j)
               && CalculateF1(refs[j], cands[j]) == Err(ScoreFrom(refs, cands, k + 1).error);
      assert AllScorable(refs, cands, k, j);
    }
  }

  /** The per-pair scores of the whole corpus, one per pair `zip` forms. */
  function ScorePairs<T(==,!new)>(refs: seq<seq<T>>, cands: seq<seq<T>>): (res: Result<seq<real>>)
    ensures res.Ok? <==> AllScorable(refs, cands, 0, Min(|refs|, |cands|))
    ensures res.Ok? ==> |res.value| == Min(|refs|, |cands|)
    ensures res.Ok? ==> forall i :: 0 <= i < |res.value| ==> CalculateF1(refs[i], cands[i]) == Ok(res.value[i])
    ensures res.Err? ==> exists i :: 0 <= i < Min(|refs|, |cands|) && AllScorable(refs, cands, 0, i)
                                     && CalculateF1(refs[i], cands[i]) == Err(res.error)
  {
    var res := ScoreFrom(refs, cands, 0);
    if res.Err? then ScoreFromFailure(refs, cands, 0); res
    else res
  }

  /** Python's `sum`: the scores added left to right, starting from zero. */
  function Sum(xs: seq<real>): real
  {
    if xs == [] then 0.0 else Sum(xs[..|xs| - 1]) + xs[|xs| - 1]
  }

  /** Scores in [0,1] add up to at most their number; the sum reaches that
      number only when every score is 1 and is 0 only when every score is 0. */
  lemma {:induction false} SumBounds(xs: seq<real>)
    requires forall i :: 0 <= i < |xs| ==> 0.0 <= xs[i] <= 1.0
    ensures 0.0 <= Sum(xs) <= |xs| as real
    ensures Sum(xs) == |xs| as real <==> forall i :: 0 <= i < |xs| ==> xs[i] == 1.0
    ensures Sum(xs) == 0.0 <==> forall i :: 0 <= i < |xs| ==> xs[i] == 0.0
  {
    if xs != [] {
      var init := xs[..|xs| - 1];
      assert forall i :: 0 <= i < |init| ==> init[i] == xs[i];
      SumBounds(init);
    }
  }

  /** The macro F1 of the corpus: the mean of the per-pair scores. With no
      pair to score the mean divides by zero. */
  function Macro<T(==,!new)>(refs: seq<seq<T>>, cands: seq<seq<T>>): (res: Result<real>)
    ensures res == Err(NoPairs) <==> Min(|refs|, |cands|) == 0
    ensures res.Ok? <==> 0 < Min(|refs|, |cands|) && AllScorable(refs, cands, 0, Min(|refs|, |cands|))
    ensures res.Ok? ==> 0.0 <= res.value <= 1.0
    ensures res.Err? && 0 < Min(|refs|, |cands|)
        ==> exists i :: 0 <= i < Min(|refs|, |cands|) && AllScorable(refs, cands, 0, i)
                         && CalculateF1(refs[i], cands[i]) == Err(res.error)
  {
    var scored := ScorePairs(refs, cands);
    if scored.Err? then Err(scored.error)
    else if |scored.value| == 0 then Err(NoPairs)
    else
      var scores := scored.value;
      SumBounds(scores);
      RatioInUnit(Sum(scores), |scores| as real);
      Ok(Sum(scores) / |scores| as real)
  }

  /** The macro F1 is the sum of the per-pair F1 values over the number of pairs. */
  lemma MacroIsMean<T(!new)>(refs: seq<seq<T>>, cands: seq<seq<T>>, scores: seq<real>)
    requires |scores| == Min(|refs|, |cands|) > 0
    requires forall i :: 0 <= i < |scores| ==> CalculateF1(refs[i], cands[i]) == Ok(scores[i])
    ensures Macro(refs, cands) == Ok(Sum(scores) / |scores| as real)
  {
    assert AllScorable(refs, cands, 0, |scores|);
    var r := ScorePairs(refs, cands);
    forall i | 0 <= i < |scores| ensures r.value[i] == scores[i] {
      assert CalculateF1(refs[i], cands[i]) == Ok(r.value[i]);
    }
    assert r.value == scores;
  }

  /** A perfect corpus score means every pair has the same items on both sides. */
  lemma MacroPerfect<T(!new)>(refs: seq<seq<T>>, cands: seq<seq<T>>)
    requires 0 < Min(|refs|, |cands|) && AllScorable(refs, cands, 0, Min(|refs|, |cands|))
    ensures Macro(refs, cands).value == 1.0
        <==> forall i :: 0 <= i < Min(|refs|, |cands|) ==> SameItems(refs[i], cands[i])
  {
    var scores := ScorePairs(refs, cands).value;
    var n := |scores|;
    SumBounds(scores);
    RatioInUnit(Sum(scores), n as real);
    assert Macro(refs, cands).value == Sum(scores) / n as real;
    assert Macro(refs, cands).value == 1.0 <==> forall i :: 0 <= i < n ==> scores[i] == 1.0;
    forall i | 0 <= i < n
      ensures scores[i] == 1.0 <==> SameItems(refs[i], cands[i])
    {
      assert CalculateF1(refs[i], cands[i]) == Ok(scores[i]);
      OneIffSameItems(refs[i], cands[i]);
    }
  }

  /** A zero corpus score means no pair shares an item. */
  lemma MacroZero<T(!new)>(refs: seq<seq<T>>, cands: seq<seq<T>>)
    requires 0 < Min(|refs|, |cands|) && AllScorable(refs, cands, 0, Min(|refs|, |cands|))
    ensures Macro(refs, cands).value == 0.0
        <==> forall i :: 0 <= i < Min(|refs|, |cands|) ==> NoSharedItem(refs[i], cands[i])
  {
    var scores := ScorePairs(refs, cands).value;
    var n := |scores|;
    SumBounds(scores);
    RatioInUnit(Sum(scores), n as real);
    assert Macro(refs, cands).value == Sum(scores) / n as real;
    assert Macro(refs, cands).value == 0.0 <==> forall i :: 0 <= i < n ==> scores[i] == 0.0;
    forall i | 0 <= i < n
      ensures scores[i] == 0.0 <==> NoSharedItem(refs[i], cands[i])
    {
      assert CalculateF1(refs[i], cands[i]) == Ok(scores[i]);
      ZeroIffDisjoint(refs[i], cands[i]);
    }
  }

  /** Lists beyond the length of the shorter input play no part. */
  lemma ZipIgnoresExtra<T(!new)>(refs: seq<seq<T>>, cands: seq<seq<T>>)
    ensures Macro(refs, cands) == Macro(refs[..Min(|refs|, |cands|)], cands[..Min(|refs|, |cands|)])
  {
    var n := Min(|refs|, |cands|);
    ScoreFromPrefix(refs, cands, n, 0);
  }

  /** Scoring from position `k` sees only the pairs below `n`. */
  lemma {:induction false} ScoreFromPrefix<T(!new)>(refs: seq<seq<T>>, cands: seq<seq<T>>, n: nat, k: nat)
    requires n == Min(|refs|, |cands|) && k <= n
    ensures ScoreFrom(refs, cands, k) == ScoreFrom(refs[..n], cands[..n], k)
    decreases n - k
  {
    var refs', cands' := refs[..n], cands[..n];
    assert Min(|refs'|, |cands'|) == n;
    if k < n {
      ScoreFromPrefix(refs, cands, n, k + 1);
      assert CalculateF1(refs'[k], cands'[k]) == CalculateF1(refs[k], cands[k]);
    }
  }
}
