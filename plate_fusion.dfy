/** `processPlateRecognition` of src/components/NumberPlateRecognition.tsx:
    every preprocessed variant of the uploaded image is read by the OCR
    engine in two page-segmentation modes, each reading that yields a plate
    candidate contributes a plate and a confidence, the most confident
    reading wins, and the plate is looked up in the list of flagged plates.
    The OCR engine, the variant generator, the plate normalizer and the
    random draws are parameters of the model. */
module PlateFusion {
  import opened Wrappers
  import opened Text
  import opened Seqs
  import opened JsMath
  import opened Plate

  // ---------------------------------------------------------------------
  // What the OCR engine returns

  /** A recognised word; either field may be absent. */
  datatype OcrWord = OcrWord(text: Option<string>, confidence: Option<real>)

  /** The `data` of one `Tesseract.recognize` call. */
  datatype OcrData = OcrData(text: Option<string>, confidence: Option<real>, words: Option<seq<OcrWord>>)

  function IsNewline(c: char): bool { c == '\n' }

  /** `(data.text || '').toUpperCase().replace(/\n+/g, ' ')`. */
  function RawText(data: OcrData): (r: string)
    ensures forall i :: 0 <= i < |r| ==> r[i] != '\n' && !('a' <= r[i] <= 'z')
  {
    var t := ToUpper(data.text.GetOr(""));
    var r := CollapseRuns(t, IsNewline);
    assert forall i :: 0 <= i < |r| ==> r[i] == ' ' || r[i] in t by {
      CollapseKeepsChars(t, IsNewline);
    }
    r
  }

  lemma {:induction false} CollapseKeepsChars(s: string, inRun: char -> bool)
    ensures forall i :: 0 <= i < |CollapseRuns(s, inRun)| ==> CollapseRuns(s, inRun)[i] == ' ' || CollapseRuns(s, inRun)[i] in s
    decreases |s|
  {
    if s != [] {
      if inRun(s[0]) {
        var d := DropRun(s[1..], inRun);
        CollapseKeepsChars(d, inRun);
        assert forall c :: c in d ==> c in s;
      } else {
        CollapseKeepsChars(s[1..], inRun);
      }
    }
  }

  // ---------------------------------------------------------------------
  // Confidence of one reading

  /** `plate.split(/[- ]/).filter(Boolean)`. */
  function Parts(plate: string): (r: seq<string>)
    ensures forall i :: 0 <= i < |r| ==> r[i] != ""
  {
    Filter(Split(plate, {'-', ' '}), NonEmpty)
  }

  /** `parts.some(p => w.text?.toUpperCase().includes(p))`. */
  predicate MentionsPart(parts: seq<string>, w: OcrWord) {
    w.text.Some? && exists i :: 0 <= i < |parts| && Contains(ToUpper(w.text.value), parts[i])
  }

  function MentionsAnyPart(parts: seq<string>): OcrWord -> bool {
    w => MentionsPart(parts, w)
  }

  /** The words that overlap the plate. */
  function MatchedWords(plate: string, data: OcrData): (r: seq<OcrWord>)
    ensures |r| <= |data.words.GetOr([])|
    ensures forall i :: 0 <= i < |r| ==> MentionsPart(Parts(plate), r[i])
  {
    Filter(data.words.GetOr([]), MentionsAnyPart(Parts(plate)))
  }

  /** `w.confidence || 0`. */
  function WordConfidence(w: OcrWord): real {
    w.confidence.GetOr(0.0)
  }

  function SumConfidence(ws: seq<OcrWord>): real
    decreases |ws|
  {
    if ws == [] then 0.0 else WordConfidence(ws[0]) + SumConfidence(ws[1..])
  }

  /** `data.confidence || 80`: absent or zero means 80. */
  function OverallConfidence(data: OcrData): real {
    if data.confidence.None? || data.confidence.value == 0.0 then 80.0 else data.confidence.value
  }

  /** The rounded mean confidence of the overlapping words, or the rounded
      overall confidence when no word overlaps, clamped to [50, 100]. */
  function PassConfidence(plate: string, data: OcrData): (c: int)
    ensures 50 <= c <= 100
  {
    var matched := MatchedWords(plate, data);
    var avg := if |matched| > 0 then Round(SumConfidence(matched) / |matched| as real)
               else Round(OverallConfidence(data));
    Clamp(avg, 50, 100)
  }

  /** With no overlapping word and no usable overall confidence, a reading
      scores 80. */
  lemma PassConfidenceDefault(plate: string, data: OcrData)
    requires |MatchedWords(plate, data)| == 0
    requires data.confidence.None? || data.confidence == Some(0.0)
    ensures PassConfidence(plate, data) == 80
  {
  }

  /** With no overlapping word, the overall confidence decides, clamped. */
  lemma PassConfidenceFallback(plate: string, data: OcrData)
    requires |MatchedWords(plate, data)| == 0
    requires data.confidence.Some? && 50.0 <= data.confidence.value <= 100.0
    ensures PassConfidence(plate, data) == Round(data.confidence.value)
  {
    RoundBetween(data.confidence.value, 50, 100);
  }

  lemma {:induction false} SumConfidenceBounds(ws: seq<OcrWord>, lo: real, hi: real)
    requires forall i :: 0 <= i < |ws| ==> lo <= WordConfidence(ws[i]) <= hi
    ensures |ws| as real * lo <= SumConfidence(ws) <= |ws| as real * hi
    decreases |ws|
  {
    if ws != [] {
      SumConfidenceBounds(ws[1..], lo, hi);
      assert |ws| as real * lo == lo + (|ws| - 1) as real * lo;
      assert |ws| as real * hi == hi + (|ws| - 1) as real * hi;
    }
  }

  lemma MeanBetween(sum: real, n: nat, lo: real, hi: real)
    requires n > 0 && n as real * lo <= sum <= n as real * hi
    ensures lo <= sum / n as real <= hi
  {
    assert (sum / n as real) * n as real == sum;
  }

  /** When every overlapping word scores between 50 and 100, the reading's
      confidence is their rounded mean: the clamp changes nothing. */
  lemma PassConfidenceIsMean(plate: string, data: OcrData)
    requires |MatchedWords(plate, data)| > 0
    requires forall i :: 0 <= i < |MatchedWords(plate, data)| ==>
               50.0 <= WordConfidence(MatchedWords(plate, data)[i]) <= 100.0
    ensures PassConfidence(plate, data)
         == Round(SumConfidence(MatchedWords(plate, data)) / |MatchedWords(plate, data)| as real)
  {
    var m := MatchedWords(plate, data);
    MeanRoundsInRange(m);
  }

  /** The rounded mean of word confidences between 50 and 100 is between 50
      and 100. */
  lemma MeanRoundsInRange(ws: seq<OcrWord>)
    requires |ws| > 0
    requires forall i :: 0 <= i < |ws| ==> 50.0 <= WordConfidence(ws[i]) <= 100.0
    ensures 50 <= Round(SumConfidence(ws) / |ws| as real) <= 100
  {
    SumConfidenceBounds(ws, 50.0, 100.0);
    MeanBetween(SumConfidence(ws), |ws|, 50.0, 100.0);
    RoundBetween(SumConfidence(ws) / |ws| as real, 50, 100);
  }

  // ---------------------------------------------------------------------
  // Readings of all variants and passes

  datatype PlateRead = PlateRead(plate: string, conf: int)

  function Conf(r: PlateRead): int { r.conf }

  /** `tessedit_pageseg_mode` of the two passes: a single line, then a block. */
  const Passes: seq<string> := ["7", "6"]

  /** What one reading contributes to `results`: nothing when the text holds
      no candidate, otherwise the normalized first candidate and its
      confidence. */
  function Contribution(data: OcrData, normalize: string -> string): (r: seq<PlateRead>)
    ensures |r| <= 1
    ensures r == [] <==> ExtractPlateCandidates(RawText(data)) == []
    ensures forall i :: 0 <= i < |r| ==> 50 <= r[i].conf <= 100
  {
    FirstReading(ExtractPlateCandidates(RawText(data)), data, normalize)
  }

  /** `if (cands.length)`: the normalized first candidate and its confidence. */
  function FirstReading(cands: seq<string>, data: OcrData, normalize: string -> string): (r: seq<PlateRead>)
    ensures |r| <= 1
    ensures r == [] <==> cands == []
    ensures forall i :: 0 <= i < |r| ==> r[i].plate == normalize(cands[0]) && 50 <= r[i].conf <= 100
  {
    if cands == [] then []
    else
      var plate := normalize(cands[0]);
      [PlateRead(plate, PassConfidence(plate, data))]
  }

  function ContributionOf(normalize: string -> string): OcrData -> seq<PlateRead> {
    data => Contribution(data, normalize)
  }

  /** A reading contributes at most one result, scoring between 50 and 100. */
  ghost predicate ContributesAtMostOne(contribute: OcrData -> seq<PlateRead>) {
    forall data :: |contribute(data)| <= 1 && forall i :: 0 <= i < |contribute(data)| ==> 50 <= contribute(data)[i].conf <= 100
  }

  lemma ContributionAtMostOne(normalize: string -> string)
    ensures ContributesAtMostOne(ContributionOf(normalize))
  {
  }

  /** The OCR engine: the reading of an image in a page-segmentation mode, or
      none when the call rejects. */
  type Recognizer = (string, string) -> Option<OcrData>

  /** The contributions of the passes over one variant, in order; none when
      an OCR call rejects, which aborts the whole recognition. */
  function ReadPasses(v: string, passes: seq<string>, recognize: Recognizer,
                      contribute: OcrData -> seq<PlateRead>): Option<seq<PlateRead>>
    decreases |passes|
  {
    if passes == [] then Some([])
    else
      match ReadPasses(v, passes[..|passes| - 1], recognize, contribute)
      case None => None
      case Some(rs) =>
        match recognize(v, passes[|passes| - 1])
        case None => None
        case Some(data) => Some(rs + contribute(data))
  }

  /** The contributions of every variant, in order. */
  function ReadVariants(variants: seq<string>, passes: seq<string>, recognize: Recognizer,
                        contribute: OcrData -> seq<PlateRead>): Option<seq<PlateRead>>
    decreases |variants|
  {
    if variants == [] then Some([])
    else
      match ReadVariants(variants[..|variants| - 1], passes, recognize, contribute)
      case None => None
      case Some(rs) =>
        match ReadPasses(variants[|variants| - 1], passes, recognize, contribute)
        case None => None
        case Some(more) => Some(rs + more)
  }

  lemma {:induction false} ReadPassesBound(v: string, passes: seq<string>, recognize: Recognizer,
                                           contribute: OcrData -> seq<PlateRead>)
    requires ContributesAtMostOne(contribute)
    ensures ReadPasses(v, passes, recognize, contribute).Some? ==>
              var rs := ReadPasses(v, passes, recognize, contribute).value;
              |rs| <= |passes| && forall i :: 0 <= i < |rs| ==> 50 <= rs[i].conf <= 100
    decreases |passes|
  {
    if passes != [] {
      ReadPassesBound(v, passes[..|passes| - 1], recognize, contribute);
    }
  }

  /** `results` holds at most one reading per variant and pass, each scoring
      between 50 and 100. */
  lemma {:induction false} ReadVariantsBound(variants: seq<string>, passes: seq<string>, recognize: Recognizer,
                                             contribute: OcrData -> seq<PlateRead>)
    requires ContributesAtMostOne(contribute)
    ensures ReadVariants(variants, passes, recognize, contribute).Some? ==>
              var rs := ReadVariants(variants, passes, recognize, contribute).value;
              |rs| <= |variants| * |passes| && forall i :: 0 <= i < |rs| ==> 50 <= rs[i].conf <= 100
    decreases |variants|
  {
    if variants != [] {
      ReadVariantsBound(variants[..|variants| - 1], passes, recognize, contribute);
      ReadPassesBound(variants[|variants| - 1], passes, recognize, contribute);
      assert |variants| * |passes| == (|variants| - 1) * |passes| + |passes|;
    }
  }

  lemma {:induction false} ReadPassesAborts(v: string, passes: seq<string>, k: nat, recognize: Recognizer,
                                            contribute: OcrData -> seq<PlateRead>)
    requires k <= |passes| && ReadPasses(v, passes[..k], recognize, contribute).None?
    ensures ReadPasses(v, passes, recognize, contribute).None?
    decreases |passes| - k
  {
    if k < |passes| {
      assert passes[..k + 1][..k] == passes[..k];
      ReadPassesAborts(v, passes, k + 1, recognize, contribute);
    } else {
      assert passes[..k] == passes;
    }
  }

  lemma {:induction false} ReadVariantsAborts(variants: seq<string>, k: nat, passes: seq<string>, recognize: Recognizer,
                                              contribute: OcrData -> seq<PlateRead>)
    requires k <= |variants| && ReadVariants(variants[..k], passes, recognize, contribute).None?
    ensures ReadVariants(variants, passes, recognize, contribute).None?
    decreases |variants| - k
  {
    if k < |variants| {
      assert variants[..k + 1][..k] == variants[..k];
      ReadVariantsAborts(variants, k + 1, passes, recognize, contribute);
    } else {
      assert variants[..k] == variants;
    }
  }

  lemma ReadPassesStep(v: string, passes: seq<string>, j: nat, batch: seq<PlateRead>, recognize: Recognizer,
                       contribute: OcrData -> seq<PlateRead>)
    requires j < |passes| && ReadPasses(v, passes[..j], recognize, contribute) == Some(batch)
    ensures recognize(v, passes[j]).None? ==> ReadPasses(v, passes[..j + 1], recognize, contribute).None?
    ensures recognize(v, passes[j]).Some? ==>
              ReadPasses(v, passes[..j + 1], recognize, contribute)
              == Some(batch + contribute(recognize(v, passes[j]).value))
  {
    assert passes[..j + 1][..j] == passes[..j];
  }

  lemma ReadVariantsStep(variants: seq<string>, i: nat, passes: seq<string>, results: seq<PlateRead>,
                         recognize: Recognizer, contribute: OcrData -> seq<PlateRead>)
    requires i < |variants| && ReadVariants(variants[..i], passes, recognize, contribute) == Some(results)
    ensures ReadPasses(variants[i], passes, recognize, contribute).None? ==>
              ReadVariants(variants[..i + 1], passes, recognize, contribute).None?
    ensures ReadPasses(variants[i], passes, recognize, contribute).Some? ==>
              ReadVariants(variants[..i + 1], passes, recognize, contribute)
              == Some(results + ReadPasses(variants[i], passes, recognize, contribute).value)
  {
    assert variants[..i + 1][..i] == variants[..i];
  }

  /** How the OCR branch ends. */
  datatype Fusion = OcrFailed | NoReading | Best(read: PlateRead)

  /** The nested loops over variants and passes pushing onto `results`,
      then `results.sort((a, b) => b.conf - a.conf)` and `results[0]`: the
      first of the most confident readings. */
  method Fuse(variants: seq<string>, recognize: Recognizer, contribute: OcrData -> seq<PlateRead>)
    returns (outcome: Fusion)
    ensures ReadVariants(variants, Passes, recognize, contribute).None? <==> outcome == OcrFailed
    ensures ReadVariants(variants, Passes, recognize, contribute) == Some([]) <==> outcome == NoReading
    ensures outcome.Best? ==>
              var rs := ReadVariants(variants, Passes, recognize, contribute).value;
              rs != [] && outcome.read == rs[FirstMaxIndex(rs, Conf)]
  {
    var results: seq<PlateRead> := [];
    for i := 0 to |variants|
      invariant ReadVariants(variants[..i], Passes, recognize, contribute) == Some(results)
    {
      ReadVariantsStep(variants, i, Passes, results, recognize, contribute);
      var failed;
      results, failed := ReadVariant(variants[i], results, recognize, contribute);
      if failed {
        ReadVariantsAborts(variants, i + 1, Passes, recognize, contribute);
        return OcrFailed;
      }
    }
    assert variants[..|variants|] == variants;
    outcome := PickBest(results);
  }

  /** The inner loop: both passes over one variant, pushing onto `results`;
      `failed` when an OCR call rejects. */
  method ReadVariant(v: string, results0: seq<PlateRead>, recognize: Recognizer,
                     contribute: OcrData -> seq<PlateRead>)
    returns (results: seq<PlateRead>, failed: bool)
    ensures failed <==> ReadPasses(v, Passes, recognize, contribute).None?
    ensures !failed ==> results == results0 + ReadPasses(v, Passes, recognize, contribute).value
  {
    results := results0;
    ghost var batch: seq<PlateRead> := [];
    for j := 0 to |Passes|
      invariant results == results0 + batch
      invariant ReadPasses(v, Passes[..j], recognize, contribute) == Some(batch)
    {
      var data := recognize(v, Passes[j]);
      ReadPassesStep(v, Passes, j, batch, recognize, contribute);
      if data.None? {
        ReadPassesAborts(v, Passes, j + 1, recognize, contribute);
        return results, true;
      }
      var c := contribute(data.value);
      results := results + c;
      batch := batch + c;
    }
    assert Passes[..|Passes|] == Passes;
    failed := false;
  }

  /** `results.sort((a, b) => b.conf - a.conf)`, then `results[0]` when
      there is one. */
  method PickBest(results: seq<PlateRead>) returns (outcome: Fusion)
    ensures outcome != OcrFailed
    ensures outcome == NoReading <==> results == []
    ensures outcome.Best? ==> results != [] && outcome.read == results[FirstMaxIndex(results, Conf)]
  {
    if |results| > 0 {
      var sorted := SortByKeyDesc(results, Conf);
      SortHeadIsFirstMax(results, Conf);
      outcome := Best(sorted[0]);
    } else {
      outcome := NoReading;
    }
  }

  // ---------------------------------------------------------------------
  // The recognition result

  /** The plates on the watch list. */
  const FlaggedPlates: seq<string> := ["ABC-123", "XYZ-789", "DEF-456"]

  /** The random values the component draws: the plates `generateRandomPlate`
      makes for the two fallbacks, whether `Math.random() > 0.7`, and the
      confidence in 80..94 used when none was computed. */
  datatype RandomDraws = RandomDraws(noReadingPlate: string, emptyPlate: string, randomFlag: bool, randomConfidence: int)

  /** What `generateRandomPlate` returns: three letters, '-', three digits. */
  predicate RandomPlateShaped(p: string) {
    |p| == 7 && p[3] == '-'
    && (forall i :: 0 <= i < 3 ==> 'A' <= p[i] <= 'Z')
    && (forall i :: 4 <= i < 7 ==> '0' <= p[i] <= '9')
  }

  /** The values the random sources can produce. */
  predicate ValidDraws(draws: RandomDraws) {
    RandomPlateShaped(draws.noReadingPlate) && RandomPlateShaped(draws.emptyPlate)
    && 80 <= draws.randomConfidence <= 94
  }

  /** The shown result; the random vehicle type is not modelled. */
  datatype PlateResult = PlateResult(plateNumber: string, confidence: int, flagged: bool, reason: Option<string>)

  /** How a recognition request ends: not started (an input guard), failed
      (caught by the handler, which sets no new result, so a result from an
      earlier request stays on screen) or a new result. */
  datatype Recognition = NotStarted | Failed | Shown(result: PlateResult)

  /** The flag and reason for a detected plate. */
  function FlagResult(plate: string, confidence: int, draws: RandomDraws): (r: PlateResult)
    ensures r.plateNumber == plate
    ensures r.flagged <==> plate in FlaggedPlates || draws.randomFlag
    ensures plate in FlaggedPlates ==> r.flagged && r.reason == Some("Stolen vehicle")
    ensures plate !in FlaggedPlates && draws.randomFlag ==> r.reason == Some("Traffic violation history")
    ensures !r.flagged <==> r.reason.None?
    ensures r.confidence == if confidence == 0 then draws.randomConfidence else confidence
  {
    var listed := plate in FlaggedPlates;
    var flagged := listed || draws.randomFlag;
    PlateResult(plate, if confidence == 0 then draws.randomConfidence else confidence, flagged,
                if flagged then Some(if listed then "Stolen vehicle" else "Traffic violation history") else None)
  }

  /** `processPlateRecognition(plateNumber)`: a given plate is upper-cased and
      used as it is; otherwise the uploaded image, if any, goes through OCR. */
  method ProcessPlateRecognition(plateNumber: Option<string>, uploadedImage: Option<string>,
                                 variantsOf: string -> seq<string>, recognize: Recognizer,
                                 normalize: string -> string, draws: RandomDraws)
    returns (r: Recognition)
    requires ValidDraws(draws)
    ensures r != NotStarted
    ensures r.Shown? ==> 50 <= r.result.confidence <= 100 && r.result.plateNumber != ""
    ensures r == Failed <==>
              && ToUpper(plateNumber.GetOr("")) == "" && uploadedImage.Some?
              && ReadVariants(variantsOf(uploadedImage.value), Passes, recognize, ContributionOf(normalize)).None?
    ensures ToUpper(plateNumber.GetOr("")) != "" ==>
              r == Shown(FlagResult(ToUpper(plateNumber.value), 0, draws))
    ensures ToUpper(plateNumber.GetOr("")) == "" && uploadedImage.None? ==>
              r == Shown(FlagResult(draws.emptyPlate, 90, draws))
    ensures r.Shown? && ToUpper(plateNumber.GetOr("")) == "" && uploadedImage.Some? ==>
              var rs := ReadVariants(variantsOf(uploadedImage.value), Passes, recognize, ContributionOf(normalize)).value;
              if rs == [] then r == Shown(FlagResult(draws.noReadingPlate, 60, draws))
              else
                var best := rs[FirstMaxIndex(rs, Conf)];
                r == Shown(if best.plate == "" then FlagResult(draws.emptyPlate, 90, draws)
                           else FlagResult(best.plate, best.conf, draws))
  {
    var detectedPlate := ToUpper(plateNumber.GetOr(""));
    var confidence := 0;
    if detectedPlate == "" && uploadedImage.Some? {
      var fused := Fuse(variantsOf(uploadedImage.value), recognize, ContributionOf(normalize));
      match fused
      case OcrFailed =>
        return Failed;
      case NoReading =>
        detectedPlate := draws.noReadingPlate;
        confidence := 60;
      case Best(read) =>
        ContributionAtMostOne(normalize);
        ReadVariantsBound(variantsOf(uploadedImage.value), Passes, recognize, ContributionOf(normalize));
        detectedPlate := read.plate;
        confidence := read.conf;
    }
    if detectedPlate == "" {
      detectedPlate := draws.emptyPlate;
      confidence := 90;
    }
    r := Shown(FlagResult(detectedPlate, confidence, draws));
  }

  /** `handleManualCheck`: a blank entry starts nothing; otherwise the
      upper-cased entry is checked without OCR. */
  method HandleManualCheck(manualPlate: string, uploadedImage: Option<string>,
                           variantsOf: string -> seq<string>, recognize: Recognizer,
                           normalize: string -> string, draws: RandomDraws)
    returns (r: Recognition)
    requires ValidDraws(draws)
    ensures Trim(manualPlate) == "" <==> r == NotStarted
    ensures Trim(manualPlate) != "" ==> r == Shown(FlagResult(ToUpper(manualPlate), 0, draws))
  {
    if Trim(manualPlate) == "" {
      return NotStarted;
    }
    assert ToUpper(manualPlate) != "";
    ToUpperIdempotent(manualPlate);
    r := ProcessPlateRecognition(Some(ToUpper(manualPlate)), uploadedImage, variantsOf, recognize, normalize, draws);
  }

  /** `handleProcessImage`: without an uploaded image nothing starts. */
  method HandleProcessImage(uploadedImage: Option<string>,
                            variantsOf: string -> seq<string>, recognize: Recognizer,
                            normalize: string -> string, draws: RandomDraws)
    returns (r: Recognition)
    requires ValidDraws(draws)
    ensures uploadedImage.None? <==> r == NotStarted
    ensures uploadedImage.Some? ==>
              (r == Failed <==> ReadVariants(variantsOf(uploadedImage.value), Passes, recognize, ContributionOf(normalize)).None?)
  {
    if uploadedImage.None? {
      return NotStarted;
    }
    r := ProcessPlateRecognition(None, uploadedImage, variantsOf, recognize, normalize, draws);
  }
}
