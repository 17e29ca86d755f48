# vigil-vision-suite in Dafny

A Dafny model of the deterministic core of the vigil-vision-suite security
dashboard, a React/TypeScript single-page application. The model covers:

- the perceptual image hash and the Hamming distance (`src/lib/imageUtils.ts`);
- the face matcher's nearest-neighbour scan, its confidence formula and its
  match decision (`src/components/FaceRecognition.tsx`);
- licence-plate candidate extraction and the fusion of OCR passes
  (`src/components/NumberPlateRecognition.tsx`);
- the record store: criminals, cases, blocked addresses, id generation and
  its nine actions (`src/store/securityStore.ts`);
- the IP block list page (`src/components/IPBlocking.tsx`);
- criminal search and the charge-list parser (`src/components/CriminalDatabase.tsx`);
- the case list filter and its badge colours (`src/components/CaseTracking.tsx`).

Files:

- `wrappers.dfy`: `Option`.
- `text.dfy`: the JavaScript string operations the code uses. These are
  ASCII `toLowerCase`/`toUpperCase`, `trim`, `includes`, `split`, `join`,
  `padStart`, `Number`, `String` and `parseInt`.
- `seqs.dfy`: filter, subsequence, first-seen deduplication, and a stable
  sort by key (what `Array.prototype.sort` is since ES2019).
- `types.dfy`: the record types of `src/types/index.ts` and the sample data
  of `src/data/mockData.ts`.
- `js_math.dfy`: `Math.round` and clamping.
- `patterns.dfy`: ECMAScript regular-expression matching, with greedy
  backtracking, for patterns made of a sequence of bounded character-class
  repetitions. It also models the leftmost, non-overlapping matches of a
  global `matchAll`.
- `image_hash.dfy`, `face_match.dfy`, `plate.dfy`, `plate_fusion.dfy`,
  `store.dfy`, `ip_blocking.dfy`, `criminal_db.dfy`, `case_tracking.dfy`:
  one module per core file, as listed above.

Imperative code is modelled as methods with loops. This covers the gray-vector
loop, the Hamming loop, the gallery scan and the OCR fusion loops. The store
is a class whose three list fields are replaced by its actions. The IP page
is a class holding its own list. Each method is proved against a pure
function, and the lemmas state what those functions do.

A failing OCR call is not skipped. In `processPlateRecognition`, an OCR
call that rejects is not caught inside the loops: the exception reaches the
outer `catch`, so the whole recognition fails and no new result is set (a
result from an earlier request stays on screen). The model says so:
`ReadPassesAborts`, `ReadVariantsAborts`, and `Failed` in
`ProcessPlateRecognition`.

## Model

| member | source | states |
|---|---|---|
| ImageHash.GraySpec | src/lib/imageUtils.ts:21-25 | one luminance for every four bytes of the buffer; `GrayVector` is proved equal to it |
| ImageHash.GrayVector | src/lib/imageUtils.ts:21-25 | the push loop yields one luminance per pixel, from the red, green and blue bytes, in buffer order |
| ImageHash.Threshold | src/lib/imageUtils.ts:26-27 | one character per luminance and every character is '0' or '1' |
| ImageHash.ThresholdIsMeanTest | src/lib/imageUtils.ts:26-27 | a character is '1' exactly when its luminance is at least the real mean |
| ImageHash.UniformIsAllOnes | src/lib/imageUtils.ts:26-27 | a uniform grid hashes to all '1' because the test is `>=` |
| ImageHash.SomeBitIsOne | src/lib/imageUtils.ts:26-27 | a non-empty grid always has at least one '1' (its maximum is at least the mean) |
| ImageHash.SumOfConstant | src/lib/imageUtils.ts:26 | the `reduce` sum of n copies of c is n*c |
| ImageHash.SumAtMost | src/lib/imageUtils.ts:26 | a sum of n values each at most b is at most n*b |
| ImageHash.DivideCompare | src/lib/imageUtils.ts:26-27 | comparing v*n with the sum is the same as comparing v with the real mean |
| ImageHash.AHashFromImageData | src/lib/imageUtils.ts:13-28 | the hash of a size x size RGBA buffer has size*size characters, each '0' or '1', and is the mean threshold of its gray vector |
| ImageHash.Mismatches | src/lib/imageUtils.ts:31-33 | the count over the first n positions is at most n |
| ImageHash.Distance | src/lib/imageUtils.ts:30-35 | the distance lies between the length difference and the longer length |
| ImageHash.HammingDistance | src/lib/imageUtils.ts:30-35 | the counting loop returns `Distance(a, b)` |
| ImageHash.DistanceSymmetric | src/lib/imageUtils.ts:30-35 | the distance is symmetric |
| ImageHash.MismatchesSymmetric | src/lib/imageUtils.ts:31-33 | the prefix count is symmetric |
| ImageHash.DistanceZeroIff | src/lib/imageUtils.ts:31-34 | the distance is 0 exactly when the strings are equal |
| ImageHash.MismatchesZero | src/lib/imageUtils.ts:31-33 | no mismatch in the first n positions exactly when they agree |
| ImageHash.MismatchesCountsPositions | src/lib/imageUtils.ts:31-33 | the prefix count equals the size of the set of differing positions |
| ImageHash.DistanceEqualLength | src/lib/imageUtils.ts:31-33 | for equal lengths the distance is the number of differing positions |
| FaceMatch.FirstNearestUnique | src/components/FaceRecognition.tsx:56-63 | the earliest index at minimum distance is unique |
| FaceMatch.FindNearest | src/components/FaceRecognition.tsx:54-67 | no index exactly when every entry failed to hash (then the distance stays infinite); otherwise the earliest hashed entry at minimum distance and its distance |
| FaceMatch.Confidence | src/components/FaceRecognition.tsx:70 | the confidence lies in 0..100 |
| FaceMatch.RoundExact | src/components/FaceRecognition.tsx:70 | `Math.round(100 - 2.5d)` equals `100 - (5d)/2` with floor division |
| FaceMatch.ConfidenceInIntegers | src/components/FaceRecognition.tsx:70 | the clamped confidence is `100 - 5d/2`, or 0 once that reaches 100 |
| FaceMatch.ConfidenceMonotone | src/components/FaceRecognition.tsx:70 | a larger distance never gives a higher confidence |
| FaceMatch.ConfidenceOfIdentical | src/components/FaceRecognition.tsx:70 | distance 0 gives confidence 100 |
| FaceMatch.IsMatch | src/components/FaceRecognition.tsx:71 | `isMatch`: an entry was found, the distance is at most 10 and the confidence at least 70. The predicate has no contract; MatchIsDistanceTest states that the distance test alone decides it |
| FaceMatch.MatchIsDistanceTest | src/components/FaceRecognition.tsx:71 | a match is declared exactly when an entry was found at distance at most 10; the confidence test is implied |
| FaceMatch.ProcessImage | src/components/FaceRecognition.tsx:41-84 | a failing upload hash gives no new result. Otherwise: the hash is reported with a 0..100 confidence; an all-failed gallery gives no match and 0; the confidence is that of the nearest entry; a match is reported exactly when it is within 10, and it is the first nearest |
| JsMath.Round | src/components/FaceRecognition.tsx:70 | `Math.round`: the nearest integer, halves rounded up |
| JsMath.Clamp | src/components/FaceRecognition.tsx:70 | for lo <= hi the result lies in lo..hi: x inside the range, the nearer bound outside it. This is `Math.max(lo, Math.min(hi, x))` here and `Math.min(hi, Math.max(lo, x))` at NumberPlateRecognition.tsx line 78; the two nestings agree when lo <= hi |
| JsMath.RoundBetween | src/components/NumberPlateRecognition.tsx:77-78 | rounding a value between two integers stays between them |
| Patterns.Run | src/components/NumberPlateRecognition.tsx:134-135 | a greedy repetition takes at most `hi` characters of the class, and stops only at the bound, the end, or a character outside the class |
| Patterns.MatchAt | src/components/NumberPlateRecognition.tsx:134-135 | a match from a position ends inside the text |
| Patterns.TryCounts | src/components/NumberPlateRecognition.tsx:134-135 | backtracking over repetition counts ends at least `lo` characters on |
| Patterns.FitsFirst | src/components/NumberPlateRecognition.tsx:134-135 | a fitting string splits into a first repetition and a fitting rest |
| Patterns.MatchAtSound | src/components/NumberPlateRecognition.tsx:134-135 | the text a match covers fits the pattern |
| Patterns.TryCountsSound | src/components/NumberPlateRecognition.tsx:134-135 | the text covered by a backtracking match fits the pattern |
| Patterns.MatchAtComplete | src/components/NumberPlateRecognition.tsx:134-135 | if some prefix from a position fits, the matcher finds a match there |
| Patterns.RunAtLeast | src/components/NumberPlateRecognition.tsx:134-135 | a greedy run covers any shorter run of the class |
| Patterns.TryCountsComplete | src/components/NumberPlateRecognition.tsx:134-135 | backtracking finds a match whenever one with fewer repetitions exists |
| Patterns.FindFrom | src/components/NumberPlateRecognition.tsx:137 | the search gives the leftmost start at or after a position; none exactly when no position matches |
| Patterns.AllMatches | src/components/NumberPlateRecognition.tsx:137 | `matchAll` gives non-overlapping matches in increasing order, and none exactly when nothing matches |
| Patterns.MatchedTexts | src/components/NumberPlateRecognition.tsx:137 | one matched text per match |
| Patterns.MatchedTextsFit | src/components/NumberPlateRecognition.tsx:137 | every matched text fits the pattern |
| Patterns.NoMatchesIff | src/components/NumberPlateRecognition.tsx:137 | no match exactly when no substring fits the pattern |
| Plate.PlatePattern | src/components/NumberPlateRecognition.tsx:134 | `/[A-Z]{2,3}[- ]?[0-9]{3,4}/g` as three bounded atoms; the function has no contract. MatchIsPlateShaped, FoundAreMatches and CandidatesEmptyIff state what its matches are |
| Plate.BlockPattern | src/components/NumberPlateRecognition.tsx:135 | `/[A-Z0-9]{2,4}[- ]?[A-Z0-9]{2,4}/g` as three bounded atoms; the function has no contract. MatchIsPlateShaped, FoundAreMatches and CandidatesEmptyIff state what its matches are |
| Plate.Clean | src/components/NumberPlateRecognition.tsx:132 | cleaning keeps the length, keeps allowed characters and turns every other character into a space |
| Plate.DropRun | src/components/NumberPlateRecognition.tsx:138 | dropping a run leaves a suffix that starts outside the run class |
| Plate.CollapseRuns | src/components/NumberPlateRecognition.tsx:138 | `replace(/\s+/g, ' ')` never lengthens the text and leaves no run character except a single space |
| Plate.CollapseRunsNoop | src/components/NumberPlateRecognition.tsx:138 | text whose run characters are lone spaces is unchanged |
| Plate.ClassIsAlNum | src/components/NumberPlateRecognition.tsx:134-135 | the letter, digit and alphanumeric classes hold only A-Z and 0-9 |
| Plate.SplitThree | src/components/NumberPlateRecognition.tsx:134-135 | a match of block, optional separator, block splits into those three parts |
| Plate.ThreeAtomShape | src/components/NumberPlateRecognition.tsx:134-135 | such a match has bounded length, allowed characters only, alphanumeric ends and no two adjacent separators |
| Plate.MatchIsPlateShaped | src/components/NumberPlateRecognition.tsx:133-136 | a full match of either pattern is 4 to 9 allowed characters with alphanumeric ends and at most one separator |
| Plate.PlateWhitespace | src/components/NumberPlateRecognition.tsx:138 | among allowed characters only the space is whitespace |
| Plate.NormalizeShaped | src/components/NumberPlateRecognition.tsx:138 | collapsing and trimming leave a plate-shaped match unchanged |
| Plate.Normalize | src/components/NumberPlateRecognition.tsx:138 | `f.replace(/\s+/g, ' ').trim()`; the function has no contract. NormalizeShaped and NormalizeFound state that it leaves every match unchanged |
| Plate.NormalizeAll | src/components/NumberPlateRecognition.tsx:138 | normalization maps each found text to one result |
| Plate.FoundAreMatches | src/components/NumberPlateRecognition.tsx:137 | every found text is a full match of one of the two patterns |
| Plate.NormalizeFound | src/components/NumberPlateRecognition.tsx:138 | normalizing the found texts changes none of them |
| Plate.ExtractPlateCandidates | src/components/NumberPlateRecognition.tsx:131-141 | `extractPlateCandidates`: longest first, and at most one candidate per found text. CandidatesOrder, CandidatesWellFormed and CandidatesEmptyIff state the rest |
| Plate.CandidatesOrder | src/components/NumberPlateRecognition.tsx:137-139 | no duplicates; non-increasing length; among equal lengths, first-found order (pattern 1 before pattern 2) |
| Plate.CandidatesWellFormed | src/components/NumberPlateRecognition.tsx:132-138 | every candidate is a full pattern match and plate-shaped |
| Plate.CandidatesEmptyIff | src/components/NumberPlateRecognition.tsx:131-141 | no candidate exactly when no substring of the cleaned text fits either pattern |
| PlateFusion.RawText | src/components/NumberPlateRecognition.tsx:70 | the raw text has no newline and no lower-case letter |
| PlateFusion.CollapseKeepsChars | src/components/NumberPlateRecognition.tsx:70 | collapsing newline runs introduces no character but a space |
| PlateFusion.Parts | src/components/NumberPlateRecognition.tsx:75 | `split(/[- ]/).filter(Boolean)`: no part is empty |
| PlateFusion.MatchedWords | src/components/NumberPlateRecognition.tsx:74-76 | the matched words are among the reading's words, and each one mentions some part of the plate |
| PlateFusion.PassConfidence | src/components/NumberPlateRecognition.tsx:74-78 | per-pass confidence lies in 50..100 |
| PlateFusion.PassConfidenceDefault | src/components/NumberPlateRecognition.tsx:77-78 | with no matching word and an overall confidence that is absent or 0, the confidence is 80 |
| PlateFusion.PassConfidenceFallback | src/components/NumberPlateRecognition.tsx:77-78 | with no matching word and an overall confidence within 50..100, the confidence is that value rounded |
| PlateFusion.SumConfidenceBounds | src/components/NumberPlateRecognition.tsx:77 | the sum of word confidences lies between n*lo and n*hi |
| PlateFusion.MeanBetween | src/components/NumberPlateRecognition.tsx:77 | a mean of values in a range lies in the range |
| PlateFusion.PassConfidenceIsMean | src/components/NumberPlateRecognition.tsx:75-78 | with in-range word confidences, the confidence is the rounded mean over the words that mention a plate part |
| PlateFusion.Contribution | src/components/NumberPlateRecognition.tsx:70-80 | a reading pushes at most one result; nothing exactly when it holds no candidate; the confidence lies in 50..100 |
| PlateFusion.ContributionAtMostOne | src/components/NumberPlateRecognition.tsx:72-79 | this holds for every reading |
| PlateFusion.ReadPasses | src/components/NumberPlateRecognition.tsx:64-81 | the passes over one variant, none on a rejected OCR call; the function has no contract. ReadPassesBound, ReadPassesAborts and ReadPassesStep state what it gives |
| PlateFusion.ReadVariants | src/components/NumberPlateRecognition.tsx:63-82 | every variant's passes, in order; the function has no contract. ReadVariantsBound, ReadVariantsAborts and ReadVariantsStep state what it gives |
| PlateFusion.ReadPassesBound | src/components/NumberPlateRecognition.tsx:64-81 | one variant's passes push at most one result per pass, each scoring 50..100 |
| PlateFusion.ReadVariantsBound | src/components/NumberPlateRecognition.tsx:58-82 | `results` has at most variants x passes entries, each scoring 50..100 |
| PlateFusion.ReadPassesAborts | src/components/NumberPlateRecognition.tsx:64-66 | one rejected OCR call fails the variant |
| PlateFusion.ReadVariantsAborts | src/components/NumberPlateRecognition.tsx:63-66 | one rejected OCR call fails the whole recognition |
| PlateFusion.ReadPassesStep | src/components/NumberPlateRecognition.tsx:64-80 | one more pass either fails or appends that reading's contribution |
| PlateFusion.ReadVariantsStep | src/components/NumberPlateRecognition.tsx:63-82 | one more variant either fails or appends that variant's results |
| PlateFusion.ReadVariant | src/components/NumberPlateRecognition.tsx:64-81 | the inner loop fails exactly when a pass is rejected, and otherwise appends that variant's results |
| PlateFusion.PickBest | src/components/NumberPlateRecognition.tsx:83-86 | no reading exactly when `results` is empty; otherwise the first result of maximum confidence (the stable descending sort) |
| PlateFusion.Fuse | src/components/NumberPlateRecognition.tsx:62-86 | failure exactly when some OCR call rejects; no reading exactly when nothing was pushed; otherwise the first most confident result |
| PlateFusion.FlagResult | src/components/NumberPlateRecognition.tsx:99-106 | flagged exactly when the plate is listed or the random draw says so. A listed plate always has the reason 'Stolen vehicle', an unlisted flagged one 'Traffic violation history', and an unflagged one no reason. A confidence of 0 is replaced by the random one |
| PlateFusion.ProcessPlateRecognition | src/components/NumberPlateRecognition.tsx:49-129 | a given plate is upper-cased and skips OCR; no plate and no image gives the random plate at 90; failure exactly when OCR rejects; no reading gives the random plate at 60; otherwise the best reading; a shown confidence is in 50..100 and the plate is never empty |
| PlateFusion.HandleManualCheck | src/components/NumberPlateRecognition.tsx:155-165 | a blank entry starts nothing; otherwise the upper-cased entry is checked without OCR |
| PlateFusion.HandleProcessImage | src/components/NumberPlateRecognition.tsx:143-153 | without an image nothing starts; otherwise failure exactly when some OCR call rejects |
| Store.MaxNumber | src/store/securityStore.ts:50 | `Math.max` is NaN exactly when some argument is NaN; otherwise it is one of them and bounds them all |
| Store.Numbers | src/store/securityStore.ts:50 | `ids.map(Number)` converts each id |
| Store.NumberNonNegative | src/store/securityStore.ts:50 | a numeric id string never converts to a negative number |
| Store.NumberOfOne | src/store/securityStore.ts:50 | `Number("1")` is 1 |
| Store.NextNumericId | src/store/securityStore.ts:50-52 | `nextCriminalId` and `nextIPId` (lines 50 and 52): "1" for an empty list, else one more than the largest id as a number. The function has no contract; NextIdAboveAll, NextIdFresh and NextIdPoisoned state what it gives |
| Store.NextIdAboveAll | src/store/securityStore.ts:50-52 | with numeric ids, the next id is numeric and greater than each of them |
| Store.NextIdFresh | src/store/securityStore.ts:50-52 | with numeric ids (or none), the next id is numeric, above every id and not among them |
| Store.NextIdPoisoned | src/store/securityStore.ts:50-52 | one non-numeric id makes the next id "NaN", and the one after it too |
| Store.IdentificationNumber | src/store/securityStore.ts:63 | `CR` and the id's number padded to three digits; the function has no contract. IdentificationEncodesId states what it spells |
| Store.PaddedDecimal | src/store/securityStore.ts:51-63 | `padStart(3, '0')` of a decimal is at least three digits with the same value |
| Store.IdentificationEncodesId | src/store/securityStore.ts:63 | the identification number is "CR" and the id's value zero-padded to at least 3 digits |
| Store.CaseId | src/store/securityStore.ts:51 | `CASE` and the counter padded to three digits; the function has no contract. CaseIdInjective and NewCaseIdFresh state what it gives |
| Store.CaseIdInjective | src/store/securityStore.ts:51 | different counters give different case ids |
| Store.CriminalIds | src/store/securityStore.ts:50 | the ids of the criminals, in order |
| Store.NewCriminalRecord | src/store/securityStore.ts:62-74 | the record `addCriminal` builds; the function has no contract. NewCriminalRecordFresh states its id, identification number and fields |
| Store.NewCriminalRecordFresh | src/store/securityStore.ts:61-74 | a new criminal gets a fresh numeric id, the identification number of that id, today as last seen, and the input's name, age, charges, status, image and description |
| Store.Merge | src/store/securityStore.ts:81 | `{ ...c, ...input }`: the patch's id and present fields win; the function has no contract. UpdateCriminalsEffect states the field-by-field result |
| Store.UpdateCriminals | src/store/securityStore.ts:79-83 | keeps the length of the list. UpdateCriminalsEffect states the record-by-record effect |
| Store.UpdateCriminalsEffect | src/store/securityStore.ts:79-83 | the length is kept; a matching record takes each given field and keeps the absent ones; other records are unchanged |
| Store.UpdateCriminalsIdempotent | src/store/securityStore.ts:81 | applying the same update twice equals applying it once |
| Store.UpdateCriminalsKeepsIds | src/store/securityStore.ts:81 | an update keeps every id and so keeps ids unique |
| Store.DeleteCriminal | src/store/securityStore.ts:85-87 | no record with that id remains, and the list does not grow. DeleteCriminalEffect states the rest |
| Store.DeleteCriminalEffect | src/store/securityStore.ts:85-87 | removes exactly the records with that id and keeps the order of the rest; deleting twice equals deleting once |
| Store.DeleteCriminalKeepsIds | src/store/securityStore.ts:86 | deletion keeps ids unique and numeric |
| Store.NewCaseRecord | src/store/securityStore.ts:89-100 | the case `addCase` builds: the next case id, the input's fields, today, open, no evidence. The function has no contract; NewCaseIdFresh and AddCaseKeepsIds state the freshness of its id |
| Store.NewCaseIdFresh | src/store/securityStore.ts:51 | if every case id is CASE-numbered up to the count, the new id `CASE` + count+1 is fresh and the invariant survives prepending |
| Store.CaseUpdatesKeepIds | src/store/securityStore.ts:105-116 | status and evidence changes keep the case ids unique and in range |
| Store.SameIdsKeepRange | src/store/securityStore.ts:105-116 | lists with the same ids in the same places share the id invariant |
| Store.SetCaseStatus | src/store/securityStore.ts:105-109 | keeps the length of the list. SetCaseStatusEffect states which cases change |
| Store.SetCaseStatusEffect | src/store/securityStore.ts:105-109 | only the matching cases change, and only their status; a later status overrides an earlier one |
| Store.AddEvidence | src/store/securityStore.ts:111-116 | keeps the length of the list. AddEvidenceEffect states which cases change |
| Store.AddEvidenceEffect | src/store/securityStore.ts:111-116 | whitespace-only evidence changes nothing; otherwise the trimmed text is appended to the matching cases only |
| Store.IPIds | src/store/securityStore.ts:52 | the ids of the blocked addresses, in order |
| Store.NewBlockRecord | src/store/securityStore.ts:118-127 | the entry `blockIP` builds; the function has no contract. NewBlockRecordFresh states its id and fields |
| Store.NewBlockRecordFresh | src/store/securityStore.ts:118-130 | a new block gets a fresh numeric id, the input's address, reason and officer, today as its date, and status active |
| Store.ExpireIP | src/store/securityStore.ts:132-136 | keeps the length of the list. ExpireIPEffect states which entries change |
| Store.ExpireIPEffect | src/store/securityStore.ts:132-136 | the matching entries become expired, nothing else changes, the ids are kept, and unblocking twice equals once |
| Store.DeleteIP | src/store/securityStore.ts:138-140 | no entry with that id remains, and the list does not grow. DeleteIPEffect states the rest |
| Store.DeleteIPEffect | src/store/securityStore.ts:138-140 | removes exactly the entries with that id, keeps the order of the rest, keeps ids unique, and deleting twice equals deleting once |
| Store.DeleteIPKeepsNumeric | src/store/securityStore.ts:139 | deletion keeps the ids numeric |
| Store.AddCaseKeepsIds | src/store/securityStore.ts:89-103 | prepending a new case keeps ids unique and CASE-numbered up to the count |
| Store.AddCriminalKeepsIds | src/store/securityStore.ts:61-77 | appending a new criminal keeps ids unique and numeric |
| Store.BlockKeepsIds | src/store/securityStore.ts:118-130 | prepending a new block keeps ids unique and numeric |
| Store.IPIdsCons | src/store/securityStore.ts:128 | prepending an entry prepends its id |
| Store.NumeralsOneToThree | src/store/securityStore.ts:57-59 | the sample ids "1", "2", "3" are numeric |
| Store.SampleCriminalIds | src/store/securityStore.ts:57 | the sample criminals have unique numeric ids |
| Store.SampleIPIds | src/store/securityStore.ts:59 | the sample blocks have unique numeric ids |
| Store.SampleCaseIds | src/store/securityStore.ts:58 | the sample cases have unique ids numbered up to their count |
| Store.Store.constructor | src/store/securityStore.ts:57-59 | the store starts with the sample data and satisfies its invariant |
| Store.Store.AddCriminal | src/store/securityStore.ts:61-77 | appends the new record, leaves the other lists alone and keeps the invariant |
| Store.Store.UpdateCriminal | src/store/securityStore.ts:79-83 | replaces the criminals by their update and keeps the invariant |
| Store.Store.DeleteCriminalById | src/store/securityStore.ts:85-87 | filters the criminals and keeps the invariant |
| Store.Store.AddCase | src/store/securityStore.ts:89-103 | prepends the new case and keeps the invariant |
| Store.Store.UpdateCaseStatus | src/store/securityStore.ts:105-109 | sets the status of the matching cases and keeps the invariant |
| Store.Store.AddEvidenceToCase | src/store/securityStore.ts:111-116 | adds the trimmed evidence, or nothing when it is blank, and keeps the invariant |
| Store.Store.BlockIP | src/store/securityStore.ts:118-130 | prepends the new active block and keeps the invariant |
| Store.Store.UnblockIP | src/store/securityStore.ts:132-136 | expires the matching entries and keeps the invariant |
| Store.Store.DeleteIPById | src/store/securityStore.ts:138-140 | filters the blocks and keeps the invariant |
| IPBlocking.ValidateIP | src/components/IPBlocking.tsx:33-36 | `validateIP`: the anchored pattern, as four '.'-separated fields each matching one octet alternative. The predicate has no contract; ValidateIPFields, ValidateIPIsJoin and ValidateIPOnlyJoins state what it accepts |
| IPBlocking.ThreeDigitValue | src/components/IPBlocking.tsx:34 | the value of three digits |
| IPBlocking.TwoDigitValue | src/components/IPBlocking.tsx:34 | the value of two digits is at most 99 |
| IPBlocking.OneDigitValue | src/components/IPBlocking.tsx:34 | the value of one digit is at most 9 |
| IPBlocking.OctetIsSmallNumeral | src/components/IPBlocking.tsx:34 | an octet alternative matches exactly 1 to 3 ASCII digits with value at most 255 |
| IPBlocking.ValidateIPFields | src/components/IPBlocking.tsx:33-36 | accepted exactly when there are four '.'-separated fields, each 1 to 3 digits with value at most 255 |
| IPBlocking.ValidateIPIsJoin | src/components/IPBlocking.tsx:34 | four valid octets joined by '.' are accepted |
| IPBlocking.ValidateIPOnlyJoins | src/components/IPBlocking.tsx:34 | an accepted address is exactly its four fields joined by '.' |
| IPBlocking.MorePermissiveThanRfc3986 | src/components/IPBlocking.tsx:34 | every dec-octet of RFC 3986 section 3.2.2 is accepted, and so are "010" and "001", which are not dec-octets |
| IPBlocking.FilteredIPs | src/components/IPBlocking.tsx:26-31 | `filteredIPs`: every entry shown is in the list and matches both boxes. FilteredIPsEffect states the converse and the order |
| IPBlocking.FilteredIPsEffect | src/components/IPBlocking.tsx:26-31 | an order-preserving subsequence. An entry is kept exactly when its address contains the query (case-sensitive) or its reason does (ignoring case), and the status filter is 'all' or its status. An empty query with 'all' keeps everything |
| IPBlocking.HasActive | src/components/IPBlocking.tsx:58 | `blockedIPs.some(ip => ip.ipAddress === address && ip.status === 'active')`; the predicate has no contract. BlockDecisionEffect and BlockKeepsOneActive use it |
| IPBlocking.BlockDecision | src/components/IPBlocking.tsx:38-76 | the guards of `handleBlockIP` and the entry it builds; the function has no contract. BlockDecisionEffect states the outcome |
| IPBlocking.BlockDecisionEffect | src/components/IPBlocking.tsx:38-76 | each outcome exactly when its guard is the first to fail, in this order: missing address or reason, invalid address, an active entry for the address. Otherwise an active record with id = length+1 and the given fields |
| IPBlocking.BlockKeepsOneActive | src/components/IPBlocking.tsx:58-76 | prepending an address with no active entry keeps at most one active entry per address |
| IPBlocking.UnblockKeepsOneActive | src/components/IPBlocking.tsx:91-96 | expiring entries keeps at most one active entry per address |
| IPBlocking.PanelIdCanCollide | src/components/IPBlocking.tsx:68 | after deleting id "1" from the sample list, the next id is "3", which is already taken |
| IPBlocking.IPBlockingPanel.constructor | src/components/IPBlocking.tsx:14 | the page starts with the sample list, which has at most one active entry per address |
| IPBlocking.IPBlockingPanel.HandleBlockIP | src/components/IPBlocking.tsx:38-89 | follows the decision: prepends only on success, otherwise the list is unchanged; the invariant is kept |
| IPBlocking.IPBlockingPanel.HandleUnblockIP | src/components/IPBlocking.tsx:91-96 | expires the matching entries and keeps the invariant |
| IPBlocking.IPBlockingPanel.HandleDeleteIP | src/components/IPBlocking.tsx:105-106 | removes the matching entries and keeps the invariant |
| CriminalDb.FilteredCriminals | src/components/CriminalDatabase.tsx:45-51 | `filteredCriminals`: every record shown is in the list and mentions the query. FilteredCriminalsEffect states the converse and the order |
| CriminalDb.FilteredCriminalsEffect | src/components/CriminalDatabase.tsx:45-51 | an order-preserving subsequence; a record is kept exactly when its name, identification number or some charge contains the query, ignoring case; an empty query keeps everything |
| CriminalDb.ParseCharges | src/components/CriminalDatabase.tsx:61 | `split(',').map(trim).filter(Boolean)`: no parsed charge is empty, and there are no more charges than fields. ParseChargesWellFormed and ChargesRoundTrip state the rest |
| CriminalDb.TrimAll | src/components/CriminalDatabase.tsx:61 | `map(s => s.trim())` trims each field |
| CriminalDb.ParseChargesWellFormed | src/components/CriminalDatabase.tsx:61 | parsed charges are non-empty, trimmed and comma-free |
| CriminalDb.ParsedChargeWellFormed | src/components/CriminalDatabase.tsx:61 | each parsed charge is non-empty, trimmed and comma-free |
| CriminalDb.ParsedChargeField | src/components/CriminalDatabase.tsx:61 | each parsed charge is the trim of some comma-separated field |
| CriminalDb.TrimmedFieldWellFormed | src/components/CriminalDatabase.tsx:61 | a trimmed field is trimmed and comma-free |
| CriminalDb.TrimAfterSpace | src/components/CriminalDatabase.tsx:79 | trimming a space-prefixed charge gives the charge back |
| CriminalDb.ChargesRoundTrip | src/components/CriminalDatabase.tsx:79-96 | parsing the `join(', ')` of well-formed charges gives them back |
| CriminalDb.JoinedFieldsTrimBack | src/components/CriminalDatabase.tsx:79-96 | splitting the join on ',' and trimming gives the charges back |
| CriminalDb.SplitJoined | src/components/CriminalDatabase.tsx:79-96 | splitting the join gives the first charge and then each charge after a space |
| CriminalDb.PaddedFieldsTrimBack | src/components/CriminalDatabase.tsx:61 | trimming those fields gives the charges back |
| CriminalDb.ParseJoinParse | src/components/CriminalDatabase.tsx:79-96 | editing without changes keeps the parsed charges: parse, join, parse equals parse |
| CriminalDb.AddInput | src/components/CriminalDatabase.tsx:58-66 | what `handleAddCriminal` passes to `addCriminal`; the function has no contract. AddInputEffect states its age, charges and image |
| CriminalDb.AddInputEffect | src/components/CriminalDatabase.tsx:53-66 | the new record's age is `parseInt` of the entry, its charges are well formed and its image is the entry or the default photo, never empty |
| CriminalDb.EditPatch | src/components/CriminalDatabase.tsx:92-100 | what `handleEditCriminal` passes to `updateCriminal`, with every field present; the function has no contract. HandleEditCriminal and EditWithoutChangesIsNoop state its effect |
| CriminalDb.EditFormOf | src/components/CriminalDatabase.tsx:73-85 | `openEdit`: the dialog's fields for a record, with `String(age)` and `join(', ')`. The function has no contract; EditWithoutChangesIsNoop states that saving it unchanged is a no-op |
| CriminalDb.EditWithoutChangesIsNoop | src/components/CriminalDatabase.tsx:73-103 | opening the edit dialog and saving it unchanged leaves the record as it was |
| CriminalDb.NumberStringNonEmpty | src/components/CriminalDatabase.tsx:78-91 | `String(age)` is never empty, so the opened dialog passes the age guard |
| CriminalDb.HandleAddCriminal | src/components/CriminalDatabase.tsx:53-71 | rejected exactly when the name or age is empty, and then the store is untouched; otherwise the store appends the parsed record |
| CriminalDb.HandleEditCriminal | src/components/CriminalDatabase.tsx:87-103 | accepted exactly when the id, name and age are non-empty; then the store updates that record with every dialog field; otherwise nothing changes |
| CriminalDb.HandleDeleteCriminal | src/components/CriminalDatabase.tsx:105-108 | the store drops that id and keeps its invariant |
| CriminalDb.StatusVariant | src/components/CriminalDatabase.tsx:110-117 | `statusVariant`; the function has no contract. StatusVariantDistinct states that the badges are distinct and never 'outline' |
| CriminalDb.StatusVariantDistinct | src/components/CriminalDatabase.tsx:110-117 | each status has its own badge variant, and none gets the 'outline' fallback |
| CaseTracking.FilteredCases | src/components/CaseTracking.tsx:25-34 | `filteredCases`: every case shown is in the list and passes the search box and both selectors. FilteredCasesEffect states the converse and the order |
| CaseTracking.FilteredCasesEffect | src/components/CaseTracking.tsx:25-34 | an order-preserving subsequence; a case is kept exactly when its title, id or reporter contains the query (ignoring case) and each selector is 'all' or its value; with an empty query and both 'all' every case is kept |
| CaseTracking.StatusSelectorSelects | src/components/CaseTracking.tsx:30 | selecting a status shows only cases with that status |
| CaseTracking.CaseStatusNameInjective | src/components/CaseTracking.tsx:30 | distinct statuses have distinct names, none of them 'all' |
| CaseTracking.PrioritySelectorSelects | src/components/CaseTracking.tsx:31 | selecting a priority shows only cases with that priority |
| CaseTracking.PriorityNameInjective | src/components/CaseTracking.tsx:31 | distinct priorities have distinct names, none of them 'all' |
| CaseTracking.StatusColor | src/components/CaseTracking.tsx:36-43 | `getStatusColor`; the function has no contract. StatusColorsDistinct states its properties |
| CaseTracking.PriorityColor | src/components/CaseTracking.tsx:45-53 | `getPriorityColor`; the function has no contract. PriorityColors states its properties |
| CaseTracking.StatusColorsDistinct | src/components/CaseTracking.tsx:36-43 | each status has its own colour, and none gets the 'outline' fallback |
| CaseTracking.PriorityColors | src/components/CaseTracking.tsx:45-53 | red ('destructive') exactly for high and critical; 'default' exactly for medium; 'secondary' exactly for low |

## Left out

- Image loading and decoding (`loadImage`, `computeAHash`, canvas `drawImage`/`getImageData`, `FileReader`): the model starts from the RGBA bytes, or, in the face matcher, from each photo's hash or the fact that hashing failed. When no 2D context is available, `aHashFromImageData` returns `''`; that canvas path is not modelled.
- ImageHash.GrayVector: luminance is `299R + 587G + 114B`, an exact integer. Floating-point rounding in `0.299R + 0.587G + 0.114B` is not modelled.
- OCR: `Tesseract.recognize` is a function parameter giving the reading for an image and page-segmentation mode, or none when the call rejects.
- `generatePreprocessedVariants` and `normalizePlate` are called but not defined in `NumberPlateRecognition.tsx`. The variant list and the normalization are parameters with no assumed behaviour.
- Random values (`generateRandomPlate`, `Math.random() > 0.7`, the random confidence, the random vehicle type): the plates, the flag and the confidence are drawn values passed in. The vehicle type is not modelled.
- PlateFusion.PassConfidenceIsMean: it is proved only for word confidences in 50..100. Other word confidences are covered only by the clamp bound of `PassConfidence`.
- Clocks: every `new Date()` is a date-string parameter.
- React state, toasts, dialogs, rendering, the report download, and the store's `persist`/localStorage layer are not modelled.
- handleStatusChange in `CaseTracking.tsx` (lines 64-72) only forwards to the store's `updateCaseStatus`, which `Store.Store.UpdateCaseStatus` models.
- `handleAddToDatabase` and the upload handlers of the recognition pages are not part of the model.
- Text: case mapping, `trim` and whitespace are ASCII only (plus the JavaScript whitespace characters `trim` removes), with no Unicode tables.
- Text: in `Number(s)`, after trimming, the empty string gives 0 and a run of ASCII digits gives its value. Signs, hex, exponents, fractions and `Infinity` give NaN; for example, "-5" is NaN here but -5 in JavaScript. `parseInt` reads leading whitespace, an optional sign and decimal digits, with no hex prefix.
- Numbers are unbounded integers. The 2^53 precision of JavaScript numbers is not modelled.
- PlateFusion.PassConfidence: a NaN word or overall confidence is not modelled; word confidences are reals.
- `statusVariant` in `CriminalDatabase.tsx` has a default branch returning 'outline'. No `CriminalStatus` value reaches it, so the Dafny function has no default; the lemma states that no status maps to 'outline'.
- Asynchronous execution: the awaits happen one at a time, so the loops are modelled as sequential loops.
- `src/pages/Dashboard.tsx`, `src/pages/Index.tsx`: not part of this model.
