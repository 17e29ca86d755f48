/** The face-matching step of `handleProcessImage` in
    src/components/FaceRecognition.tsx: a linear scan of the gallery of
    criminal photos for the hash nearest to the uploaded image's, the
    distance-to-confidence formula and the match decision. Loading and
    hashing each photo is done by the browser; the model receives, per
    gallery entry, either the hash or the fact that hashing failed. */
module FaceMatch {
  import opened Wrappers
  import ImageHash
  import opened JsMath

  /** The outcome of `computeAHash` for one gallery photo: a failed load is
      caught and the entry is skipped. */
  datatype HashOutcome = HashFailed | Hashed(hash: string)

  /** The running best distance, which starts at `Infinity`. */
  datatype Dist = Infinite | Finite(d: nat)

  function DistAt(query: string, gallery: seq<HashOutcome>, i: nat): nat
    requires i < |gallery| && gallery[i].Hashed?
  {
    ImageHash.Distance(query, gallery[i].hash)
  }

  /** i is a hashed entry at minimum distance, and every hashed entry before
      it is strictly farther: ties go to the earliest index. */
  predicate IsFirstNearest(query: string, gallery: seq<HashOutcome>, i: nat) {
    && i < |gallery| && gallery[i].Hashed?
    && (forall j :: 0 <= j < |gallery| && gallery[j].Hashed? ==>
          DistAt(query, gallery, i) <= DistAt(query, gallery, j))
    && (forall j :: 0 <= j < i && gallery[j].Hashed? ==>
          DistAt(query, gallery, i) < DistAt(query, gallery, j))
  }

  predicate AllFailed(gallery: seq<HashOutcome>) {
    forall i :: 0 <= i < |gallery| ==> gallery[i].HashFailed?
  }

  /** There is at most one first-nearest entry. */
  lemma FirstNearestUnique(query: string, gallery: seq<HashOutcome>, i: nat, j: nat)
    requires IsFirstNearest(query, gallery, i) && IsFirstNearest(query, gallery, j)
    ensures i == j
  {
  }

  /** The `for` loop over the gallery, with the strict `d < bestDistance`
      update; failed entries are skipped. */
  method FindNearest(query: string, gallery: seq<HashOutcome>) returns (bestIndex: Option<nat>, bestDistance: Dist)
    ensures bestIndex.None? <==> AllFailed(gallery)
    ensures bestIndex.None? ==> bestDistance == Infinite
    ensures bestIndex.Some? ==>
              && IsFirstNearest(query, gallery, bestIndex.value)
              && bestDistance == Finite(DistAt(query, gallery, bestIndex.value))
  {
    bestIndex := None;
    bestDistance := Infinite;
    for i := 0 to |gallery|
      invariant bestIndex.None? <==> AllFailed(gallery[..i])
      invariant bestIndex.None? ==> bestDistance == Infinite
      invariant bestIndex.Some? ==>
                  && bestIndex.value < i && gallery[bestIndex.value].Hashed?
                  && bestDistance == Finite(DistAt(query, gallery, bestIndex.value))
                  && (forall j :: 0 <= j < i && gallery[j].Hashed? ==>
                        DistAt(query, gallery, bestIndex.value) <= DistAt(query, gallery, j))
                  && (forall j :: 0 <= j < bestIndex.value && gallery[j].Hashed? ==>
                        DistAt(query, gallery, bestIndex.value) < DistAt(query, gallery, j))
    {
      match gallery[i]
      case HashFailed =>
        assert gallery[..i + 1] == gallery[..i] + [gallery[i]];
      case Hashed(h) =>
        var d := ImageHash.HammingDistance(query, h);
        if bestDistance.Infinite? || d < bestDistance.d {
          bestDistance := Finite(d);
          bestIndex := Some(i);
        }
        assert !AllFailed(gallery[..i + 1]) by {
          assert gallery[..i + 1][i].Hashed?;
        }
    }
    assert gallery[..|gallery|] == gallery;
  }

  /** `Math.max(0, Math.min(100, Math.round(100 - bestDistance * 2.5)))`;
      with no hashed entry the distance is `Infinity` and the result is 0. */
  function Confidence(best: Dist): (c: int)
    ensures 0 <= c <= 100
  {
    match best
    case Infinite => 0
    case Finite(d) => Clamp(Round(100.0 - 2.5 * d as real), 0, 100)
  }

  lemma RoundExact(d: nat)
    ensures Round(100.0 - 2.5 * d as real) == 100 - (5 * d) / 2
  {
    var q := (5 * d) / 2;
    assert 5 * d == 2 * q + (5 * d) % 2;
    var k := 100 - q;
    var x := 100.0 - 2.5 * d as real + 0.5;
    assert 2.5 * d as real == (5 * d) as real / 2.0;
    assert k as real <= x < k as real + 1.0;
  }

  /** The formula in integers: 100 - floor(5d / 2), never below 0. */
  lemma ConfidenceInIntegers(d: nat)
    ensures Confidence(Finite(d)) == if 5 * d / 2 >= 100 then 0 else 100 - 5 * d / 2
  {
    RoundExact(d);
  }

  /** A smaller distance never gives a smaller confidence. */
  lemma ConfidenceMonotone(d1: nat, d2: nat)
    requires d1 <= d2
    ensures Confidence(Finite(d1)) >= Confidence(Finite(d2))
  {
    ConfidenceInIntegers(d1);
    ConfidenceInIntegers(d2);
    assert 5 * d1 <= 5 * d2;
  }

  lemma ConfidenceOfIdentical()
    ensures Confidence(Finite(0)) == 100
  {
    ConfidenceInIntegers(0);
  }

  /** `isMatch`: an entry was found, `bestDistance <= 10` and `confidence >= 70`. */
  predicate IsMatch(bestIndex: Option<nat>, best: Dist) {
    bestIndex.Some? && best.Finite? && best.d <= 10 && Confidence(best) >= 70
  }

  /** The confidence test is implied by the distance test: d <= 10 gives at
      least 75. */
  lemma MatchIsDistanceTest(bestIndex: Option<nat>, best: Dist)
    ensures IsMatch(bestIndex, best) <==> bestIndex.Some? && best.Finite? && best.d <= 10
  {
    if best.Finite? && best.d <= 10 {
      ConfidenceInIntegers(best.d);
      assert Confidence(best) >= 75;
    }
  }

  /** What `setResult` receives: the matched index, or none when there is no
      match; the confidence is reported either way. */
  datatype FaceResult = FaceResult(matched: Option<nat>, confidence: int, hash: string)

  /** The body of `handleProcessImage` from the uploaded image's hash onwards.
      A failure to hash the uploaded image is caught by the outer handler,
      which sets no new result (an earlier result stays on screen). */
  method ProcessImage(uploaded: HashOutcome, gallery: seq<HashOutcome>) returns (r: Option<FaceResult>)
    ensures uploaded.HashFailed? <==> r.None?
    ensures r.Some? ==> r.value.hash == uploaded.hash && 0 <= r.value.confidence <= 100
    ensures r.Some? && AllFailed(gallery) ==> r.value.matched.None? && r.value.confidence == 0
    ensures r.Some? ==> forall i :: IsFirstNearest(uploaded.hash, gallery, i) ==>
              && r.value.confidence == Confidence(Finite(DistAt(uploaded.hash, gallery, i)))
              && (r.value.matched.Some? <==> DistAt(uploaded.hash, gallery, i) <= 10)
    ensures r.Some? && r.value.matched.Some? ==>
              && IsFirstNearest(uploaded.hash, gallery, r.value.matched.value)
              && DistAt(uploaded.hash, gallery, r.value.matched.value) <= 10
  {
    match uploaded
    case HashFailed =>
      r := None;
    case Hashed(query) =>
      var bestIndex, bestDistance := FindNearest(query, gallery);
      var confidence := Confidence(bestDistance);
      var isMatch := IsMatch(bestIndex, bestDistance);
      MatchIsDistanceTest(bestIndex, bestDistance);
      if bestIndex.Some? {
        forall i | IsFirstNearest(query, gallery, i)
          ensures i == bestIndex.value
        {
          FirstNearestUnique(query, gallery, i, bestIndex.value);
        }
      }
      r := Some(FaceResult(if isMatch then bestIndex else None, confidence, query));
  }
}
