/** Selection of the best entry of a score sequence, with ties going to the
    earliest entry. Used for `np.argmax` over eigenvalue gaps and for the
    "update only on strict improvement over a best value starting at 0.0"
    searches of the aligner and the resegmenter. */
module ArgMax {
  import opened Wrappers

  /** The first index of a maximal element (what `np.argmax` returns). */
  function FirstArgMax(xs: seq<real>): (k: nat)
    requires |xs| > 0
    ensures k < |xs|
    ensures forall m :: 0 <= m < |xs| ==> xs[m] <= xs[k]
    ensures forall m :: 0 <= m < k ==> xs[m] < xs[k]
  {
    if |xs| == 1 then 0
    else
      var k := FirstArgMax(xs[..|xs| - 1]);
      if xs[|xs| - 1] > xs[k] then |xs| - 1 else k
  }

  /** The index a search `best := 0.0; for each x: if x > best: best := x`
      settles on: the first maximal index if the maximum is positive, else
      nothing. */
  function FirstBest(xs: seq<real>): (r: Option<nat>)
    ensures r.None? <==> forall m :: 0 <= m < |xs| ==> xs[m] <= 0.0
    ensures r.Some? ==> r.value < |xs| && xs[r.value] > 0.0
    ensures r.Some? ==> forall m :: 0 <= m < |xs| ==> xs[m] <= xs[r.value]
    ensures r.Some? ==> forall m :: 0 <= m < r.value ==> xs[m] < xs[r.value]
  {
    if |xs| == 0 then None
    else
      var k := FirstArgMax(xs);
      if xs[k] > 0.0 then Some(k) else None
  }

  /** The value the search holds as its best so far. */
  function BestValue(xs: seq<real>): (v: real)
    ensures v >= 0.0
    ensures forall m :: 0 <= m < |xs| ==> xs[m] <= v
  {
    match FirstBest(xs)
    case None => 0.0
    case Some(k) => xs[k]
  }

  /** The conditions in FirstBest's contract determine its result. */
  lemma FirstBestUnique(xs: seq<real>, r: Option<nat>)
    requires r.None? <==> forall m :: 0 <= m < |xs| ==> xs[m] <= 0.0
    requires r.Some? ==> r.value < |xs| && xs[r.value] > 0.0
    requires r.Some? ==> forall m :: 0 <= m < |xs| ==> xs[m] <= xs[r.value]
    requires r.Some? ==> forall m :: 0 <= m < r.value ==> xs[m] < xs[r.value]
    ensures r == FirstBest(xs)
  {
    var f := FirstBest(xs);
    if r.Some? && f.Some? {
      var a, b := r.value, f.value;
      assert xs[a] <= xs[b] && xs[b] <= xs[a];
      assert !(a < b) && !(b < a);
    }
  }

  /** One more step of the search: the new entry wins exactly when it is
      strictly better than the best so far. */
  lemma FirstBestSnoc(xs: seq<real>, x: real)
    ensures FirstBest(xs + [x]) == if x > BestValue(xs) then Some(|xs|) else FirstBest(xs)
  {
    var ys := xs + [x];
    assert forall m :: 0 <= m < |xs| ==> ys[m] == xs[m];
    var r := if x > BestValue(xs) then Some(|xs|) else FirstBest(xs);
    if r.Some? {
      assert ys[r.value] > 0.0;
    } else {
      assert forall m :: 0 <= m < |ys| ==> ys[m] <= 0.0;
    }
    FirstBestUnique(ys, r);
  }
}
