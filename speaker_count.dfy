/** The model-order choice of the AffinityEstimator: the number of speakers is
    one plus the position of the largest gap between consecutive Laplacian
    eigenvalues. Computing the eigenvalues (affinity matrix, normalised
    Laplacian, `eigh`) is floating-point linear algebra; they are an input. */
module SpeakerCount {
  import opened Wrappers
  import ArgMax

  /** The ways the pipeline stops with an exception. */
  datatype PipelineError =
    | NoEmbeddings        // no valid embedding: `np.vstack` of no windows, or
                          // `pairwise_distances` of zero rows, fails
    | TooFewEmbeddings    // one embedding: no eigenvalue gap, `np.argmax` of nothing fails
    | NoFineTunedText     // the fine-tuned recogniser's result has no "text" entry

  /** Largest eigenvalue index requested from `eigh`: `min(9, n - 1)`. */
  function MaxIndex(n: nat): int
  {
    if 9 <= n - 1 then 9 else n - 1
  }

  /** `np.diff(eigenvals)`: consecutive differences. */
  function Gaps(eigenvals: seq<real>): (gaps: seq<real>)
    requires |eigenvals| > 0
  {
    seq(|eigenvals| - 1, j requires 0 <= j < |eigenvals| - 1 => eigenvals[j + 1] - eigenvals[j])
  }

  /** `best_k = np.argmax(gaps) + 1` for `n` valid embeddings whose `eigh`
      returned the `MaxIndex(n) + 1` smallest eigenvalues. The result lies in
      `1 .. min(9, n - 1)`, sits after a largest gap, and no earlier gap is as
      large. */
  function EstimateSpeakerCount(n: nat, eigenvals: seq<real>): (r: Result<nat, PipelineError>)
    requires n >= 1 && |eigenvals| == MaxIndex(n) + 1
    ensures r.Err? <==> n == 1
    ensures r.Err? ==> r.error == TooFewEmbeddings
    ensures r.Ok? ==> 1 <= r.value <= MaxIndex(n) && r.value <= 9 && r.value <= n - 1
    ensures r.Ok? ==> forall j :: 0 <= j < MaxIndex(n) ==>
              eigenvals[j + 1] - eigenvals[j] <= eigenvals[r.value] - eigenvals[r.value - 1]
    ensures r.Ok? ==> forall j :: 0 <= j < r.value - 1 ==>
              eigenvals[j + 1] - eigenvals[j] < eigenvals[r.value] - eigenvals[r.value - 1]
  {
    var gaps := Gaps(eigenvals);
    assert forall j :: 0 <= j < |gaps| ==> gaps[j] == eigenvals[j + 1] - eigenvals[j];
    if |gaps| == 0 then Err(TooFewEmbeddings)
    else
      var k := ArgMax.FirstArgMax(gaps);
      Ok(k + 1)
  }
}
