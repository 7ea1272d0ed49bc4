/** Mean-square fluctuations with the weight mask `weight > 0`
    (pdbensemble.py:432-451). Frames are `frames[f][a]`, weights
    `weights[f][a]`; `a` is a position already restricted to the selection. */
module Statistics {
  import opened Geometry

  /** The value at one atom: a number, or `nan` when no frame resolves it. */
  datatype Msf = Defined(value: real) | Undefined

  /** `weights > 0` as a 0/1 factor. */
  function Mask(w: real): real
  {
    if w > 0.0 then 1.0 else 0.0
  }

  predicate Covers(frames: seq<Frame>, weights: seq<seq<real>>, a: nat)
  {
    |frames| == |weights| &&
    forall f :: 0 <= f < |frames| ==> a < |frames[f]| && a < |weights[f]|
  }

  /** `weights.sum(0)` at atom `a` over the first `k` frames. */
  function IncludedCount(frames: seq<Frame>, weights: seq<seq<real>>, a: nat, k: nat): (r: nat)
    requires Covers(frames, weights, a) && k <= |frames|
    ensures r <= k
  {
    if k == 0 then 0
    else IncludedCount(frames, weights, a, k - 1) + (if weights[k - 1][a] > 0.0 then 1 else 0)
  }

  /** `mean += conf * weights[i]` at atom `a` over the first `k` frames. */
  function MaskedSum(frames: seq<Frame>, weights: seq<seq<real>>, a: nat, k: nat): Point
    requires Covers(frames, weights, a) && k <= |frames|
  {
    if k == 0 then Origin
    else Add(MaskedSum(frames, weights, a, k - 1), Scale(frames[k - 1][a], Mask(weights[k - 1][a])))
  }

  /** `ssqf += ((conf - mean) * weights[i]) ** 2` at atom `a` over the
      first `k` frames. */
  function MaskedSquares(frames: seq<Frame>, weights: seq<seq<real>>, a: nat, k: nat, mean: Point): Point
    requires Covers(frames, weights, a) && k <= |frames|
  {
    if k == 0 then Origin
    else Add(MaskedSquares(frames, weights, a, k - 1, mean),
             Square(Scale(Sub(frames[k - 1][a], mean), Mask(weights[k - 1][a]))))
  }

  /** The mean position of atom `a` over the frames that resolve it: scaled
      by the number of those frames it gives back their sum. */
  function MaskedMean(frames: seq<Frame>, weights: seq<seq<real>>, a: nat): (r: Point)
    requires Covers(frames, weights, a)
    ensures IncludedCount(frames, weights, a, |frames|) == 0 ==> r == Origin
    ensures IncludedCount(frames, weights, a, |frames|) > 0 ==>
      Scale(r, IncludedCount(frames, weights, a, |frames|) as real) == MaskedSum(frames, weights, a, |frames|)
  {
    var c := IncludedCount(frames, weights, a, |frames|);
    if c == 0 then Origin
    else
      ScaleDiv(MaskedSum(frames, weights, a, |frames|), c as real);
      Div(MaskedSum(frames, weights, a, |frames|), c as real)
  }

  /** The mean-square fluctuation of atom `a`: the squared deviations from
      the masked mean, summed over the included frames and over x, y, z,
      divided by the number of included frames; `nan` exactly when no frame
      resolves the atom. */
  function MsfAt(frames: seq<Frame>, weights: seq<seq<real>>, a: nat): (r: Msf)
    requires Covers(frames, weights, a)
    ensures r.Undefined? <==> IncludedCount(frames, weights, a, |frames|) == 0
    ensures r.Defined? ==>
      r.value * IncludedCount(frames, weights, a, |frames|) as real ==
      Total(MaskedSquares(frames, weights, a, |frames|, MaskedMean(frames, weights, a)))
  {
    var c := IncludedCount(frames, weights, a, |frames|);
    if c == 0 then Undefined
    else
      var t := Total(MaskedSquares(frames, weights, a, |frames|, MaskedMean(frames, weights, a)));
      DivTimes(t, c as real);
      Defined(t / c as real)
  }

  lemma DivTimes(x: real, c: real)
    requires c != 0.0
    ensures (x / c) * c == x
  {
  }

  lemma ScaleDiv(p: Point, c: real)
    requires c != 0.0
    ensures Scale(Div(p, c), c) == p
  {
    var q := Scale(Div(p, c), c);
    assert q.0 == p.0 && q.1 == p.1 && q.2 == p.2;
  }

  /** Two ensembles that agree at atom `a` in every frame that resolves it. */
  predicate AgreeWhereResolved(frames: seq<Frame>, other: seq<Frame>, weights: seq<seq<real>>, a: nat)
    requires Covers(frames, weights, a) && Covers(other, weights, a)
  {
    forall f :: 0 <= f < |frames| && weights[f][a] > 0.0 ==> frames[f][a] == other[f][a]
  }

  lemma {:induction false} MaskedSumIgnoresMasked(frames: seq<Frame>, other: seq<Frame>, weights: seq<seq<real>>, a: nat, k: nat)
    requires Covers(frames, weights, a) && Covers(other, weights, a) && k <= |frames|
    requires AgreeWhereResolved(frames, other, weights, a)
    ensures MaskedSum(frames, weights, a, k) == MaskedSum(other, weights, a, k)
  {
    if k > 0 {
      MaskedSumIgnoresMasked(frames, other, weights, a, k - 1);
    }
  }

  lemma {:induction false} MaskedSquaresIgnoresMasked(frames: seq<Frame>, other: seq<Frame>, weights: seq<seq<real>>, a: nat, k: nat, mean: Point)
    requires Covers(frames, weights, a) && Covers(other, weights, a) && k <= |frames|
    requires AgreeWhereResolved(frames, other, weights, a)
    ensures MaskedSquares(frames, weights, a, k, mean) == MaskedSquares(other, weights, a, k, mean)
  {
    if k > 0 {
      MaskedSquaresIgnoresMasked(frames, other, weights, a, k - 1, mean);
    }
  }

  lemma {:induction false} CountSameFrames(frames: seq<Frame>, other: seq<Frame>, weights: seq<seq<real>>, a: nat, k: nat)
    requires Covers(frames, weights, a) && Covers(other, weights, a) && k <= |frames|
    ensures IncludedCount(frames, weights, a, k) == IncludedCount(other, weights, a, k)
  {
    if k > 0 {
      CountSameFrames(frames, other, weights, a, k - 1);
    }
  }

  /** Frames masked out at an atom do not affect that atom's value. */
  lemma MsfIgnoresMaskedFrames(frames: seq<Frame>, other: seq<Frame>, weights: seq<seq<real>>, a: nat)
    requires Covers(frames, weights, a) && Covers(other, weights, a)
    requires AgreeWhereResolved(frames, other, weights, a)
    ensures MsfAt(frames, weights, a) == MsfAt(other, weights, a)
  {
    var n := |frames|;
    CountSameFrames(frames, other, weights, a, n);
    MaskedSumIgnoresMasked(frames, other, weights, a, n);
    MaskedSquaresIgnoresMasked(frames, other, weights, a, n, MaskedMean(frames, weights, a));
  }

  lemma {:induction false} SumOfIdentical(frames: seq<Frame>, weights: seq<seq<real>>, a: nat, k: nat, p: Point)
    requires Covers(frames, weights, a) && k <= |frames|
    requires forall f :: 0 <= f < |frames| && weights[f][a] > 0.0 ==> frames[f][a] == p
    ensures MaskedSum(frames, weights, a, k) == Scale(p, IncludedCount(frames, weights, a, k) as real)
  {
    if k == 0 {
      ScaleByZero(p);
    } else {
      SumOfIdentical(frames, weights, a, k - 1, p);
      var c := IncludedCount(frames, weights, a, k - 1) as real;
      assert IncludedCount(frames, weights, a, k) as real == c + (if weights[k - 1][a] > 0.0 then 1.0 else 0.0);
      if weights[k - 1][a] > 0.0 {
        assert frames[k - 1][a] == p;
        ScaleAddOne(p, c);
      } else {
        ScaleByZero(frames[k - 1][a]);
      }
    }
  }

  lemma {:induction false} SquaresAtMean(frames: seq<Frame>, weights: seq<seq<real>>, a: nat, k: nat, p: Point)
    requires Covers(frames, weights, a) && k <= |frames|
    requires forall f :: 0 <= f < |frames| && weights[f][a] > 0.0 ==> frames[f][a] == p
    ensures MaskedSquares(frames, weights, a, k, p) == Origin
  {
    if k > 0 {
      SquaresAtMean(frames, weights, a, k - 1, p);
      SquareAtMean(frames[k - 1][a], p, weights[k - 1][a]);
    }
  }

  /** One frame's term: zero when the frame is masked out or sits at `p`. */
  lemma SquareAtMean(q: Point, p: Point, w: real)
    requires w > 0.0 ==> q == p
    ensures Square(Scale(Sub(q, p), Mask(w))) == Origin
  {
    if w > 0.0 {
      assert Sub(q, p) == Origin;
      assert Scale(Origin, 1.0) == Origin;
    } else {
      ScaleByZero(Sub(q, p));
    }
    assert Square(Origin) == Origin;
  }

  lemma ScaleAddOne(p: Point, c: real)
    ensures Add(Scale(p, c), Scale(p, 1.0)) == Scale(p, c + 1.0)
  {
    assert p.0 * c + p.0 * 1.0 == p.0 * (c + 1.0);
    assert p.1 * c + p.1 * 1.0 == p.1 * (c + 1.0);
    assert p.2 * c + p.2 * 1.0 == p.2 * (c + 1.0);
  }

  lemma ScaleByZero(p: Point)
    ensures Scale(p, 0.0) == Origin
  {
  }

  lemma DivCancel(x: real, c: real)
    requires c != 0.0
    ensures (x * c) / c == x
  {
  }

  lemma DivScale(p: Point, c: real)
    requires c != 0.0
    ensures Div(Scale(p, c), c) == p
  {
    var q := Div(Scale(p, c), c);
    DivCancel(p.0, c);
    assert q.0 == p.0;
    DivCancel(p.1, c);
    assert q.1 == p.1;
    DivCancel(p.2, c);
    assert q.2 == p.2;
    assert q == (q.0, q.1, q.2);
  }

  /** Identical included coordinates give a fluctuation of zero. */
  lemma MsfOfIdenticalIsZero(frames: seq<Frame>, weights: seq<seq<real>>, a: nat, p: Point)
    requires Covers(frames, weights, a)
    requires forall f :: 0 <= f < |frames| && weights[f][a] > 0.0 ==> frames[f][a] == p
    requires exists f :: 0 <= f < |frames| && weights[f][a] > 0.0
    ensures MsfAt(frames, weights, a) == Defined(0.0)
  {
    var n := |frames|;
    CountPositive(frames, weights, a, n);
    SumOfIdentical(frames, weights, a, n, p);
    var c := IncludedCount(frames, weights, a, n) as real;
    assert MaskedSum(frames, weights, a, n) == Scale(p, c);
    DivScale(p, c);
    assert MaskedMean(frames, weights, a) == p;
    SquaresAtMean(frames, weights, a, n, p);
  }

  lemma {:induction false} CountPositive(frames: seq<Frame>, weights: seq<seq<real>>, a: nat, k: nat)
    requires Covers(frames, weights, a) && k <= |frames|
    ensures IncludedCount(frames, weights, a, k) > 0 <==> exists f :: 0 <= f < k && weights[f][a] > 0.0
  {
    if k > 0 {
      CountPositive(frames, weights, a, k - 1);
      if weights[k - 1][a] > 0.0 {
        assert exists f :: 0 <= f < k && weights[f][a] > 0.0;
      }
    }
  }

  /** An atom no frame resolves has no defined fluctuation; one that some
      frame resolves has one. */
  lemma MsfUndefinedIffUnresolved(frames: seq<Frame>, weights: seq<seq<real>>, a: nat)
    requires Covers(frames, weights, a)
    ensures MsfAt(frames, weights, a).Undefined? <==>
      forall f :: 0 <= f < |frames| ==> weights[f][a] <= 0.0
  {
    CountPositive(frames, weights, a, |frames|);
  }

  lemma {:induction false} SquaresNonNegative(frames: seq<Frame>, weights: seq<seq<real>>, a: nat, k: nat, mean: Point)
    requires Covers(frames, weights, a) && k <= |frames|
    ensures var s := MaskedSquares(frames, weights, a, k, mean); s.0 >= 0.0 && s.1 >= 0.0 && s.2 >= 0.0
  {
    if k > 0 {
      SquaresNonNegative(frames, weights, a, k - 1, mean);
      var d := Scale(Sub(frames[k - 1][a], mean), Mask(weights[k - 1][a]));
      assert d.0 * d.0 >= 0.0 && d.1 * d.1 >= 0.0 && d.2 * d.2 >= 0.0;
    }
  }

  /** A defined fluctuation is never negative. */
  lemma MsfNonNegative(frames: seq<Frame>, weights: seq<seq<real>>, a: nat)
    requires Covers(frames, weights, a)
    ensures MsfAt(frames, weights, a).Defined? ==> MsfAt(frames, weights, a).value >= 0.0
  {
    SquaresNonNegative(frames, weights, a, |frames|, MaskedMean(frames, weights, a));
  }
}
