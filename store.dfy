/** The application state of src/store/securityStore.ts: the lists of wanted
    criminals, cases and blocked addresses, the three id generators and the
    nine actions that change the lists. Each action is a method of `Store`
    whose new state is given by a pure function of the old lists; the
    lemmas say what those functions do to the records. The current date,
    which the actions read from the clock, is a parameter. */
module Store {
  import opened Wrappers
  import opened Text
  import opened Seqs
  import opened Types

  // ---------------------------------------------------------------------
  // Identifiers

  /** `Math.max(...xs)`: NaN as soon as one argument is NaN. */
  function MaxNumber(xs: seq<JsNumber>): (m: JsNumber)
    requires |xs| > 0
    ensures m.NaN? <==> exists i :: 0 <= i < |xs| && xs[i].NaN?
    ensures m.Num? ==> forall i :: 0 <= i < |xs| ==> xs[i].Num? && xs[i].value <= m.value
    ensures m.Num? ==> m in xs
    decreases |xs|
  {
    if |xs| == 1 then xs[0]
    else
      var rest := MaxNumber(xs[1..]);
      assert forall i :: 1 <= i < |xs| ==> xs[i] == xs[1..][i - 1];
      match (xs[0], rest)
      case (NaN, _) => NaN
      case (_, NaN) => NaN
      case (Num(a), Num(b)) => if a >= b then xs[0] else rest
  }

  /** `Number(s)` of each string. */
  function Numbers(ids: seq<string>): (r: seq<JsNumber>)
    ensures |r| == |ids| && forall i :: 0 <= i < |ids| ==> r[i] == StringToNumber(ids[i])
  {
    seq(|ids|, i requires 0 <= i < |ids| => StringToNumber(ids[i]))
  }

  function PlusOne(x: JsNumber): JsNumber {
    match x
    case NaN => NaN
    case Num(v) => Num(v + 1)
  }

  /** `nextCriminalId` and `nextIPId`, which are the same expression: one more
      than the largest id read as a number, "1" for an empty list. */
  function NextNumericId(ids: seq<string>): string {
    if ids == [] then "1" else NumberToString(PlusOne(MaxNumber(Numbers(ids))))
  }

  /** Every id reads as a number. */
  predicate AllNumeric(ids: seq<string>) {
    forall i :: 0 <= i < |ids| ==> StringToNumber(ids[i]).Num?
  }

  lemma NumberNonNegative(s: string)
    ensures StringToNumber(s).Num? ==> StringToNumber(s).value >= 0
  {
  }

  /** When every id is numeric, the next id is numeric, larger than every id
      in the list, and therefore not in it. */
  lemma NextIdFresh(ids: seq<string>)
    requires AllNumeric(ids)
    ensures StringToNumber(NextNumericId(ids)).Num?
    ensures forall i :: 0 <= i < |ids| ==>
              StringToNumber(ids[i]).value < StringToNumber(NextNumericId(ids)).value
    ensures NextNumericId(ids) !in ids
  {
    var next := NextNumericId(ids);
    if ids == [] {
      NumberOfOne();
    } else {
      NextIdAboveAll(ids);
    }
    assert forall i :: 0 <= i < |ids| ==> ids[i] != next;
  }

  lemma NumberOfOne()
    ensures StringToNumber("1") == Num(1)
  {
    TrimNoop("1");
    assert "1"[..0] == [];
  }

  lemma NextIdAboveAll(ids: seq<string>)
    requires ids != [] && AllNumeric(ids)
    ensures StringToNumber(NextNumericId(ids)).Num?
    ensures forall i :: 0 <= i < |ids| ==>
              StringToNumber(ids[i]).value < StringToNumber(NextNumericId(ids)).value
  {
    MaxOfNumeric(ids);
    var v: nat := MaxNumber(Numbers(ids)).value + 1;
    assert NextNumericId(ids) == ToDecimal(v);
    NumberRoundTrip(v);
  }

  /** The largest of numeric ids is a natural number bounding each of them. */
  lemma MaxOfNumeric(ids: seq<string>)
    requires ids != [] && AllNumeric(ids)
    ensures MaxNumber(Numbers(ids)).Num? && MaxNumber(Numbers(ids)).value >= 0
    ensures forall i :: 0 <= i < |ids| ==> StringToNumber(ids[i]).value <= MaxNumber(Numbers(ids)).value
  {
    var ns := Numbers(ids);
    var m := MaxNumber(ns);
    assert forall i :: 0 <= i < |ids| ==> ns[i] == StringToNumber(ids[i]);
    assert m.Num?;
    var j :| 0 <= j < |ids| && ns[j] == m;
    NumberNonNegative(ids[j]);
  }

  /** One id that is not a numeral makes every later id "NaN": after that,
      ids repeat. */
  lemma NextIdPoisoned(ids: seq<string>)
    requires !AllNumeric(ids)
    ensures NextNumericId(ids) == "NaN"
    ensures NextNumericId(ids + [NextNumericId(ids)]) == "NaN"
  {
    var i :| 0 <= i < |ids| && StringToNumber(ids[i]).NaN?;
    assert Numbers(ids)[i].NaN?;
    var ids2 := ids + [NextNumericId(ids)];
    assert Numbers(ids2)[i].NaN?;
  }

  /** `CR${String(Number(id)).padStart(3, '0')}`. */
  function IdentificationNumber(id: string): string {
    "CR" + PadStart(NumberToString(StringToNumber(id)), 3, '0')
  }

  /** A zero-padded numeral reads back as the number. */
  lemma PaddedDecimal(n: nat)
    ensures AllDigits(PadStart(ToDecimal(n), 3, '0'))
    ensures DigitsValue(PadStart(ToDecimal(n), 3, '0')) == n
    ensures |PadStart(ToDecimal(n), 3, '0')| >= 3
  {
    var d := ToDecimal(n);
    DecimalRoundTrip(n);
    if |d| < 3 {
      LeadingZeros(3 - |d|, d);
    }
  }

  /** For a numeric id the identification number is "CR" followed by at
      least three digits that spell the id's value. */
  lemma IdentificationEncodesId(id: string)
    requires StringToNumber(id).Num?
    ensures var s := IdentificationNumber(id);
      && |s| >= 5 && s[..2] == "CR" && AllDigits(s[2..])
      && DigitsValue(s[2..]) == StringToNumber(id).value
  {
    NumberNonNegative(id);
    var v: nat := StringToNumber(id).value;
    assert NumberToString(StringToNumber(id)) == ToDecimal(v);
    PaddedDecimal(v);
    var s := IdentificationNumber(id);
    assert s[2..] == PadStart(ToDecimal(v), 3, '0');
  }

  /** `CASE${String(n).padStart(3, '0')}`; `nextCaseId` uses n = length + 1. */
  function CaseId(n: nat): string {
    "CASE" + PadStart(ToDecimal(n), 3, '0')
  }

  /** Distinct numbers give distinct case ids. */
  lemma CaseIdInjective(a: nat, b: nat)
    ensures CaseId(a) == CaseId(b) <==> a == b
  {
    if CaseId(a) == CaseId(b) {
      PaddedDecimal(a);
      PaddedDecimal(b);
      assert CaseId(a)[4..] == PadStart(ToDecimal(a), 3, '0');
      assert CaseId(b)[4..] == PadStart(ToDecimal(b), 3, '0');
    }
  }

  // ---------------------------------------------------------------------
  // Criminals

  datatype NewCriminalInput = NewCriminalInput(
    name: string, age: JsNumber, charges: seq<string>, description: string,
    image: string, status: CriminalStatus)

  /** `UpdateCriminalInput`: the id and any subset of the input fields; an
      absent field is None. */
  datatype CriminalPatch = CriminalPatch(
    id: string, name: Option<string>, age: Option<JsNumber>, charges: Option<seq<string>>,
    description: Option<string>, image: Option<string>, status: Option<CriminalStatus>)

  function CriminalKey(c: Criminal): string { c.id }

  function CriminalIds(cs: seq<Criminal>): (r: seq<string>)
    ensures |r| == |cs| && forall i :: 0 <= i < |cs| ==> r[i] == cs[i].id
  {
    seq(|cs|, i requires 0 <= i < |cs| => cs[i].id)
  }

  /** The record `addCriminal` appends. */
  function NewCriminalRecord(cs: seq<Criminal>, input: NewCriminalInput, today: string): Criminal {
    var id := NextNumericId(CriminalIds(cs));
    Criminal(id, input.name, input.age, input.charges, today, input.status, input.image,
             input.description, IdentificationNumber(id))
  }

  /** `{ ...c, ...input }`: the fields present in the patch win. */
  function Merge(c: Criminal, patch: CriminalPatch): Criminal {
    c.(id := patch.id,
       name := patch.name.GetOr(c.name),
       age := patch.age.GetOr(c.age),
       charges := patch.charges.GetOr(c.charges),
       description := patch.description.GetOr(c.description),
       image := patch.image.GetOr(c.image),
       status := patch.status.GetOr(c.status))
  }

  function CriminalIdIs(id: string): Criminal -> bool { (c: Criminal) => c.id == id }

  function CriminalIdIsNot(id: string): Criminal -> bool { (c: Criminal) => c.id != id }

  function MergeWith(patch: CriminalPatch): Criminal -> Criminal { (c: Criminal) => Merge(c, patch) }

  /** `updateCriminal`. */
  function UpdateCriminals(cs: seq<Criminal>, patch: CriminalPatch): (r: seq<Criminal>)
    ensures |r| == |cs|
  {
    MapWhere(cs, CriminalIdIs(patch.id), MergeWith(patch))
  }

  /** `deleteCriminal`. */
  function DeleteCriminal(cs: seq<Criminal>, id: string): (r: seq<Criminal>)
    ensures |r| <= |cs|
    ensures forall i :: 0 <= i < |r| ==> r[i].id != id
  {
    Filter(cs, CriminalIdIsNot(id))
  }

  /** The appended record has a fresh numeric id and an identification number
      that spells it; every other field comes from the input and the date. */
  lemma NewCriminalRecordFresh(cs: seq<Criminal>, input: NewCriminalInput, today: string)
    requires AllNumeric(CriminalIds(cs))
    ensures var r := NewCriminalRecord(cs, input, today);
      && StringToNumber(r.id).Num?
      && (forall i :: 0 <= i < |cs| ==> cs[i].id != r.id)
      && r.identificationNumber == IdentificationNumber(r.id)
      && r.lastSeen == today
    ensures var r := NewCriminalRecord(cs, input, today);
      && r.name == input.name && r.age == input.age && r.charges == input.charges
      && r.status == input.status && r.image == input.image && r.description == input.description
  {
    var ids := CriminalIds(cs);
    NextIdFresh(ids);
    var r := NewCriminalRecord(cs, input, today);
    forall i | 0 <= i < |cs| ensures cs[i].id != r.id {
      assert ids[i] == cs[i].id;
    }
  }

  /** The records with another id are untouched; a record with the patch's id
      keeps its id, date and identification number, takes every field the
      patch carries and keeps every field it leaves out. */
  lemma UpdateCriminalsEffect(cs: seq<Criminal>, patch: CriminalPatch, i: nat)
    requires i < |cs|
    ensures |UpdateCriminals(cs, patch)| == |cs|
    ensures var r := UpdateCriminals(cs, patch)[i];
      if cs[i].id != patch.id then r == cs[i]
      else
        && r.id == cs[i].id && r.lastSeen == cs[i].lastSeen
        && r.identificationNumber == cs[i].identificationNumber
        && (patch.name.Some? ==> r.name == patch.name.value)
        && (patch.name.None? ==> r.name == cs[i].name)
        && (patch.age.Some? ==> r.age == patch.age.value)
        && (patch.age.None? ==> r.age == cs[i].age)
        && (patch.charges.Some? ==> r.charges == patch.charges.value)
        && (patch.charges.None? ==> r.charges == cs[i].charges)
        && (patch.description.Some? ==> r.description == patch.description.value)
        && (patch.description.None? ==> r.description == cs[i].description)
        && (patch.image.Some? ==> r.image == patch.image.value)
        && (patch.image.None? ==> r.image == cs[i].image)
        && (patch.status.Some? ==> r.status == patch.status.value)
        && (patch.status.None? ==> r.status == cs[i].status)
  {
  }

  /** Applying the same update twice is applying it once. */
  lemma UpdateCriminalsIdempotent(cs: seq<Criminal>, patch: CriminalPatch)
    ensures UpdateCriminals(UpdateCriminals(cs, patch), patch) == UpdateCriminals(cs, patch)
  {
    var once := UpdateCriminals(cs, patch);
    var twice := UpdateCriminals(once, patch);
    forall i | 0 <= i < |cs| ensures twice[i] == once[i] {
      UpdateCriminalsEffect(cs, patch, i);
      UpdateCriminalsEffect(once, patch, i);
    }
  }

  /** An update keeps the ids, so it keeps them unique and numeric. */
  lemma UpdateCriminalsKeepsIds(cs: seq<Criminal>, patch: CriminalPatch)
    ensures CriminalIds(UpdateCriminals(cs, patch)) == CriminalIds(cs)
    ensures UniqueBy(cs, CriminalKey) ==> UniqueBy(UpdateCriminals(cs, patch), CriminalKey)
  {
    MapWhereKeepsKeys(cs, CriminalIdIs(patch.id), MergeWith(patch), CriminalKey);
  }

  /** Delete removes exactly the records with the id, keeps the rest in
      order, and deleting again changes nothing. */
  lemma DeleteCriminalEffect(cs: seq<Criminal>, id: string)
    ensures forall i :: 0 <= i < |DeleteCriminal(cs, id)| ==> DeleteCriminal(cs, id)[i].id != id
    ensures forall i :: 0 <= i < |cs| && cs[i].id != id ==> cs[i] in DeleteCriminal(cs, id)
    ensures IsSubsequence(DeleteCriminal(cs, id), cs)
    ensures DeleteCriminal(DeleteCriminal(cs, id), id) == DeleteCriminal(cs, id)
  {
    FilterIsSubsequence(cs, CriminalIdIsNot(id));
    FilterIdempotent(cs, CriminalIdIsNot(id));
  }

  /** A sublist of records with numeric ids has numeric ids. */
  lemma DeleteCriminalKeepsIds(cs: seq<Criminal>, id: string)
    requires AllNumeric(CriminalIds(cs))
    ensures AllNumeric(CriminalIds(DeleteCriminal(cs, id)))
    ensures UniqueBy(cs, CriminalKey) ==> UniqueBy(DeleteCriminal(cs, id), CriminalKey)
  {
    var r := DeleteCriminal(cs, id);
    forall i | 0 <= i < |r| ensures StringToNumber(CriminalIds(r)[i]).Num? {
      var j :| 0 <= j < |cs| && cs[j] == r[i];
      assert CriminalIds(cs)[j] == cs[j].id;
    }
    if UniqueBy(cs, CriminalKey) {
      FilterUniqueBy(cs, CriminalIdIsNot(id), CriminalKey);
    }
  }

  // ---------------------------------------------------------------------
  // Cases

  datatype NewCaseInput = NewCaseInput(title: string, description: string, reportedBy: string, priority: Priority)

  function CaseKey(c: Case): string { c.id }

  /** The record `addCase` puts in front: open, no officer, no evidence. */
  function NewCaseRecord(cases: seq<Case>, input: NewCaseInput, today: string): Case {
    Case(CaseId(|cases| + 1), input.title, input.description, input.reportedBy, today,
         Open, input.priority, None, [])
  }

  function CaseIdIs(id: string): Case -> bool { (c: Case) => c.id == id }

  function WithStatus(status: CaseStatus): Case -> Case { (c: Case) => c.(status := status) }

  function WithEvidence(item: string): Case -> Case { (c: Case) => c.(evidence := c.evidence + [item]) }

  /** `updateCaseStatus`. */
  function SetCaseStatus(cases: seq<Case>, id: string, status: CaseStatus): (r: seq<Case>)
    ensures |r| == |cases|
  {
    MapWhere(cases, CaseIdIs(id), WithStatus(status))
  }

  /** `addEvidenceToCase`: blank evidence is ignored, otherwise the trimmed
      text is appended to the case's evidence. */
  function AddEvidence(cases: seq<Case>, id: string, evidence: string): (r: seq<Case>)
    ensures |r| == |cases|
  {
    if Trim(evidence) == "" then cases else MapWhere(cases, CaseIdIs(id), WithEvidence(Trim(evidence)))
  }

  /** Every case id is CaseId(k) for some k between 1 and the number of cases:
      true of the sample data, and kept by every case action because cases
      are never removed. */
  ghost predicate CaseIdsInRange(cases: seq<Case>) {
    forall i :: 0 <= i < |cases| ==> IsCaseIdUpTo(cases[i].id, |cases|)
  }

  /** id is CaseId(k) for some k in 1..n. */
  ghost predicate IsCaseIdUpTo(id: string, n: nat) {
    exists k :: 1 <= k <= n && id == CaseId(k)
  }

  /** The new case's id is not in use when the ids are in range. */
  lemma NewCaseIdFresh(cases: seq<Case>, input: NewCaseInput, today: string)
    requires CaseIdsInRange(cases)
    ensures forall i :: 0 <= i < |cases| ==> cases[i].id != CaseId(|cases| + 1)
    ensures CaseIdsInRange([NewCaseRecord(cases, input, today)] + cases)
  {
    forall i | 0 <= i < |cases| ensures cases[i].id != CaseId(|cases| + 1) {
      var k :| 1 <= k <= |cases| && cases[i].id == CaseId(k);
      CaseIdInjective(k, |cases| + 1);
    }
    var r := [NewCaseRecord(cases, input, today)] + cases;
    forall i | 0 <= i < |r| ensures IsCaseIdUpTo(r[i].id, |r|) {
      if i > 0 {
        assert r[i] == cases[i - 1];
        var k :| 1 <= k <= |cases| && cases[i - 1].id == CaseId(k);
        assert 1 <= k <= |r| && r[i].id == CaseId(k);
      } else {
        assert r[0].id == CaseId(|r|);
      }
    }
  }

  /** Prepending a new case keeps ids unique and CASE-numbered up to the count. */
  lemma AddCaseKeepsIds(cases: seq<Case>, input: NewCaseInput, today: string)
    requires UniqueBy(cases, CaseKey) && CaseIdsInRange(cases)
    ensures var r := [NewCaseRecord(cases, input, today)] + cases;
      UniqueBy(r, CaseKey) && CaseIdsInRange(r)
  {
    NewCaseIdFresh(cases, input, today);
    UniqueByCons(NewCaseRecord(cases, input, today), cases, CaseKey);
  }

  /** Changing a status or adding evidence never changes an id. */
  lemma CaseUpdatesKeepIds(cases: seq<Case>, id: string, status: CaseStatus, evidence: string)
    ensures CaseIdsInRange(cases) ==> CaseIdsInRange(SetCaseStatus(cases, id, status)) && CaseIdsInRange(AddEvidence(cases, id, evidence))
    ensures UniqueBy(cases, CaseKey) ==> UniqueBy(SetCaseStatus(cases, id, status), CaseKey) && UniqueBy(AddEvidence(cases, id, evidence), CaseKey)
  {
    MapWhereKeepsKeys(cases, CaseIdIs(id), WithStatus(status), CaseKey);
    MapWhereKeepsKeys(cases, CaseIdIs(id), WithEvidence(Trim(evidence)), CaseKey);
    SameIdsKeepRange(cases, SetCaseStatus(cases, id, status));
    SameIdsKeepRange(cases, AddEvidence(cases, id, evidence));
  }

  lemma SameIdsKeepRange(cases: seq<Case>, r: seq<Case>)
    requires |r| == |cases| && forall i :: 0 <= i < |cases| ==> CaseKey(r[i]) == CaseKey(cases[i])
    ensures CaseIdsInRange(cases) ==> CaseIdsInRange(r)
  {
    if CaseIdsInRange(cases) {
      forall i | 0 <= i < |r| ensures IsCaseIdUpTo(r[i].id, |r|) {
        var k :| 1 <= k <= |cases| && cases[i].id == CaseId(k);
        assert CaseKey(r[i]) == CaseKey(cases[i]);
        assert 1 <= k <= |r| && r[i].id == CaseId(k);
      }
      assert CaseIdsInRange(r);
    }
  }

  /** Only the status of the cases with the id changes; a later status
      replaces an earlier one. */
  lemma SetCaseStatusEffect(cases: seq<Case>, id: string, status: CaseStatus, later: CaseStatus)
    ensures forall i :: 0 <= i < |cases| ==>
      SetCaseStatus(cases, id, status)[i] == if cases[i].id == id then cases[i].(status := status) else cases[i]
    ensures SetCaseStatus(SetCaseStatus(cases, id, status), id, later) == SetCaseStatus(cases, id, later)
  {
  }

  /** Blank evidence changes nothing; otherwise only the cases with the id
      change, and only by one more evidence item, the trimmed text. */
  lemma AddEvidenceEffect(cases: seq<Case>, id: string, evidence: string)
    ensures Trim(evidence) == "" ==> AddEvidence(cases, id, evidence) == cases
    ensures Trim(evidence) != "" ==> forall i :: 0 <= i < |cases| ==>
      var r := AddEvidence(cases, id, evidence)[i];
      if cases[i].id == id then r.evidence == cases[i].evidence + [Trim(evidence)] && r.(evidence := cases[i].evidence) == cases[i]
      else r == cases[i]
    ensures forall i :: 0 <= i < |cases| ==> |AddEvidence(cases, id, evidence)[i].evidence| <= |cases[i].evidence| + 1
  {
  }

  // ---------------------------------------------------------------------
  // Blocked addresses

  datatype NewBlockedIPInput = NewBlockedIPInput(ipAddress: string, reason: string, blockedBy: string)

  function IPKey(b: BlockedIP): string { b.id }

  function IPIds(ips: seq<BlockedIP>): (r: seq<string>)
    ensures |r| == |ips| && forall i :: 0 <= i < |ips| ==> r[i] == ips[i].id
  {
    seq(|ips|, i requires 0 <= i < |ips| => ips[i].id)
  }

  /** The record `blockIP` puts in front: active, with the next numeric id. */
  function NewBlockRecord(ips: seq<BlockedIP>, input: NewBlockedIPInput, today: string): BlockedIP {
    BlockedIP(NextNumericId(IPIds(ips)), input.ipAddress, input.reason, today, input.blockedBy, BlockActive)
  }

  function IPIdIs(id: string): BlockedIP -> bool { (b: BlockedIP) => b.id == id }

  function IPIdIsNot(id: string): BlockedIP -> bool { (b: BlockedIP) => b.id != id }

  function Expire(): BlockedIP -> BlockedIP { (b: BlockedIP) => b.(status := BlockExpired) }

  /** `unblockIP`: the entry stays in the list, marked expired. */
  function ExpireIP(ips: seq<BlockedIP>, id: string): (r: seq<BlockedIP>)
    ensures |r| == |ips|
  {
    MapWhere(ips, IPIdIs(id), Expire())
  }

  /** `deleteIP`. */
  function DeleteIP(ips: seq<BlockedIP>, id: string): (r: seq<BlockedIP>)
    ensures |r| <= |ips|
    ensures forall i :: 0 <= i < |r| ==> r[i].id != id
  {
    Filter(ips, IPIdIsNot(id))
  }

  /** The new block has an id no entry uses, carries the input's address,
      reason and officer with today's date, and is active. */
  lemma NewBlockRecordFresh(ips: seq<BlockedIP>, input: NewBlockedIPInput, today: string)
    requires AllNumeric(IPIds(ips))
    ensures var r := NewBlockRecord(ips, input, today);
      StringToNumber(r.id).Num? && forall i :: 0 <= i < |ips| ==> ips[i].id != r.id
    ensures var r := NewBlockRecord(ips, input, today);
      && r.ipAddress == input.ipAddress && r.reason == input.reason && r.blockedBy == input.blockedBy
      && r.blockedDate == today && r.status == BlockActive
  {
    var ids := IPIds(ips);
    NextIdFresh(ids);
    forall i | 0 <= i < |ips| ensures ips[i].id != NewBlockRecord(ips, input, today).id {
      assert ids[i] == ips[i].id;
    }
  }

  /** Unblocking expires exactly the entries with the id, changes nothing else
      about them, and unblocking again changes nothing. */
  lemma ExpireIPEffect(ips: seq<BlockedIP>, id: string)
    ensures |ExpireIP(ips, id)| == |ips|
    ensures forall i :: 0 <= i < |ips| ==>
      var r := ExpireIP(ips, id)[i];
      r.(status := ips[i].status) == ips[i] && (r.status == BlockExpired <==> ips[i].id == id || ips[i].status == BlockExpired)
    ensures ExpireIP(ExpireIP(ips, id), id) == ExpireIP(ips, id)
    ensures forall i :: 0 <= i < |ips| ==> ExpireIP(ips, id)[i].id == ips[i].id
  {
  }

  /** Delete removes exactly the entries with the id, keeps the rest in order,
      and deleting again changes nothing. */
  lemma DeleteIPEffect(ips: seq<BlockedIP>, id: string)
    ensures forall i :: 0 <= i < |DeleteIP(ips, id)| ==> DeleteIP(ips, id)[i].id != id
    ensures forall i :: 0 <= i < |ips| && ips[i].id != id ==> ips[i] in DeleteIP(ips, id)
    ensures IsSubsequence(DeleteIP(ips, id), ips)
    ensures UniqueBy(ips, IPKey) ==> UniqueBy(DeleteIP(ips, id), IPKey)
    ensures DeleteIP(DeleteIP(ips, id), id) == DeleteIP(ips, id)
  {
    FilterIsSubsequence(ips, IPIdIsNot(id));
    FilterIdempotent(ips, IPIdIsNot(id));
    if UniqueBy(ips, IPKey) {
      FilterUniqueBy(ips, IPIdIsNot(id), IPKey);
    }
  }

  lemma DeleteIPKeepsNumeric(ips: seq<BlockedIP>, id: string)
    requires AllNumeric(IPIds(ips))
    ensures AllNumeric(IPIds(DeleteIP(ips, id)))
  {
    var r := DeleteIP(ips, id);
    forall i | 0 <= i < |r| ensures StringToNumber(IPIds(r)[i]).Num? {
      var j :| 0 <= j < |ips| && ips[j] == r[i];
      assert IPIds(ips)[j] == ips[j].id;
    }
  }

  /** Adding a record made by the store keeps the ids of its list unique and numeric. */
  lemma AddCriminalKeepsIds(cs: seq<Criminal>, input: NewCriminalInput, today: string)
    requires UniqueBy(cs, CriminalKey) && AllNumeric(CriminalIds(cs))
    ensures var r := cs + [NewCriminalRecord(cs, input, today)];
      UniqueBy(r, CriminalKey) && AllNumeric(CriminalIds(r))
  {
    var record := NewCriminalRecord(cs, input, today);
    NewCriminalRecordFresh(cs, input, today);
    UniqueBySnoc(cs, record, CriminalKey);
    CriminalIdsSnoc(cs, record);
    NumericSnoc(CriminalIds(cs), record.id);
  }

  lemma NumericSnoc(ids: seq<string>, id: string)
    requires AllNumeric(ids) && StringToNumber(id).Num?
    ensures AllNumeric(ids + [id])
  {
    var r := ids + [id];
    forall i | 0 <= i < |r| ensures StringToNumber(r[i]).Num? {
      if i < |ids| {
        assert r[i] == ids[i];
      }
    }
  }

  lemma NumericCons(id: string, ids: seq<string>)
    requires AllNumeric(ids) && StringToNumber(id).Num?
    ensures AllNumeric([id] + ids)
  {
    var r := [id] + ids;
    forall i | 0 <= i < |r| ensures StringToNumber(r[i]).Num? {
      if i > 0 {
        assert r[i] == ids[i - 1];
      }
    }
  }

  lemma CriminalIdsSnoc(cs: seq<Criminal>, c: Criminal)
    ensures CriminalIds(cs + [c]) == CriminalIds(cs) + [c.id]
  {
    var l, r := CriminalIds(cs + [c]), CriminalIds(cs) + [c.id];
    assert |l| == |r|;
    forall i | 0 <= i < |l| ensures l[i] == r[i] {
      if i < |cs| {
        assert (cs + [c])[i] == cs[i];
      }
    }
  }

  lemma BlockKeepsIds(ips: seq<BlockedIP>, input: NewBlockedIPInput, today: string)
    requires UniqueBy(ips, IPKey) && AllNumeric(IPIds(ips))
    ensures var r := [NewBlockRecord(ips, input, today)] + ips;
      UniqueBy(r, IPKey) && AllNumeric(IPIds(r))
  {
    var record := NewBlockRecord(ips, input, today);
    NewBlockRecordFresh(ips, input, today);
    UniqueByCons(record, ips, IPKey);
    IPIdsCons(record, ips);
    NumericCons(record.id, IPIds(ips));
  }

  lemma IPIdsCons(b: BlockedIP, ips: seq<BlockedIP>)
    ensures IPIds([b] + ips) == [b.id] + IPIds(ips)
  {
    var l, r := IPIds([b] + ips), [b.id] + IPIds(ips);
    assert |l| == |r|;
    forall i | 0 <= i < |l| ensures l[i] == r[i] {
      if i > 0 {
        assert ([b] + ips)[i] == ips[i - 1];
      }
    }
  }

  // ---------------------------------------------------------------------
  // The store

  class Store {
    var criminals: seq<Criminal>
    var cases: seq<Case>
    var blockedIPs: seq<BlockedIP>

    /** Ids are unique in each list; criminal and address ids are numerals and
        case ids are CASE001 up to the number of cases. */
    ghost predicate Valid()
      reads this
    {
      && UniqueBy(criminals, CriminalKey) && AllNumeric(CriminalIds(criminals))
      && UniqueBy(cases, CaseKey) && CaseIdsInRange(cases)
      && UniqueBy(blockedIPs, IPKey) && AllNumeric(IPIds(blockedIPs))
    }

    /** The store starts from the sample data. */
    constructor()
      ensures criminals == MockCriminals && cases == MockCases && blockedIPs == MockBlockedIPs
      ensures Valid()
    {
      criminals := MockCriminals;
      cases := MockCases;
      blockedIPs := MockBlockedIPs;
      new;
      SampleCriminalIds();
      SampleCaseIds();
      SampleIPIds();
    }

    method AddCriminal(input: NewCriminalInput, today: string) returns (record: Criminal)
      modifies this
      ensures record == NewCriminalRecord(old(criminals), input, today)
      ensures criminals == old(criminals) + [record]
      ensures cases == old(cases) && blockedIPs == old(blockedIPs)
      ensures old(Valid()) ==> Valid()
    {
      record := NewCriminalRecord(criminals, input, today);
      if Valid() {
        AddCriminalKeepsIds(criminals, input, today);
      }
      criminals := criminals + [record];
    }

    method UpdateCriminal(patch: CriminalPatch)
      modifies this
      ensures criminals == UpdateCriminals(old(criminals), patch)
      ensures cases == old(cases) && blockedIPs == old(blockedIPs)
      ensures old(Valid()) ==> Valid()
    {
      UpdateCriminalsKeepsIds(criminals, patch);
      criminals := UpdateCriminals(criminals, patch);
    }

    method DeleteCriminalById(id: string)
      modifies this
      ensures criminals == DeleteCriminal(old(criminals), id)
      ensures cases == old(cases) && blockedIPs == old(blockedIPs)
      ensures old(Valid()) ==> Valid()
    {
      if Valid() {
        DeleteCriminalKeepsIds(criminals, id);
      }
      criminals := DeleteCriminal(criminals, id);
    }

    method AddCase(input: NewCaseInput, today: string) returns (record: Case)
      modifies this
      ensures record == NewCaseRecord(old(cases), input, today)
      ensures cases == [record] + old(cases)
      ensures criminals == old(criminals) && blockedIPs == old(blockedIPs)
      ensures old(Valid()) ==> Valid()
    {
      record := NewCaseRecord(cases, input, today);
      if Valid() {
        AddCaseKeepsIds(cases, input, today);
      }
      cases := [record] + cases;
    }

    method UpdateCaseStatus(id: string, status: CaseStatus)
      modifies this
      ensures cases == SetCaseStatus(old(cases), id, status)
      ensures criminals == old(criminals) && blockedIPs == old(blockedIPs)
      ensures old(Valid()) ==> Valid()
    {
      CaseUpdatesKeepIds(cases, id, status, "");
      cases := SetCaseStatus(cases, id, status);
    }

    method AddEvidenceToCase(id: string, evidence: string)
      modifies this
      ensures cases == AddEvidence(old(cases), id, evidence)
      ensures criminals == old(criminals) && blockedIPs == old(blockedIPs)
      ensures old(Valid()) ==> Valid()
    {
      CaseUpdatesKeepIds(cases, id, Open, evidence);
      if Trim(evidence) != "" {
        cases := AddEvidence(cases, id, evidence);
      }
    }

    method BlockIP(input: NewBlockedIPInput, today: string) returns (record: BlockedIP)
      modifies this
      ensures record == NewBlockRecord(old(blockedIPs), input, today)
      ensures blockedIPs == [record] + old(blockedIPs)
      ensures criminals == old(criminals) && cases == old(cases)
      ensures old(Valid()) ==> Valid()
    {
      record := NewBlockRecord(blockedIPs, input, today);
      if Valid() {
        BlockKeepsIds(blockedIPs, input, today);
      }
      blockedIPs := [record] + blockedIPs;
    }

    method UnblockIP(id: string)
      modifies this
      ensures blockedIPs == ExpireIP(old(blockedIPs), id)
      ensures criminals == old(criminals) && cases == old(cases)
      ensures old(Valid()) ==> Valid()
    {
      MapWhereKeepsKeys(blockedIPs, IPIdIs(id), Expire(), IPKey);
      assert IPIds(ExpireIP(blockedIPs, id)) == IPIds(blockedIPs);
      blockedIPs := ExpireIP(blockedIPs, id);
    }

    method DeleteIPById(id: string)
      modifies this
      ensures blockedIPs == DeleteIP(old(blockedIPs), id)
      ensures criminals == old(criminals) && cases == old(cases)
      ensures old(Valid()) ==> Valid()
    {
      DeleteIPEffect(blockedIPs, id);
      if Valid() {
        DeleteIPKeepsNumeric(blockedIPs, id);
      }
      blockedIPs := DeleteIP(blockedIPs, id);
    }
  }

  /** The ids of the sample criminals and addresses are numerals. */
  lemma NumeralsOneToThree()
    ensures AllNumeric(["1", "2", "3"])
  {
    var ids := ["1", "2", "3"];
    assert forall i :: 0 <= i < |ids| ==> |ids[i]| == 1 && IsDigit(ids[i][0]);
    DigitsAreNumeric(ids);
  }

  /** One-digit ids are numeric. */
  lemma DigitsAreNumeric(ids: seq<string>)
    requires forall i :: 0 <= i < |ids| ==> |ids[i]| == 1 && IsDigit(ids[i][0])
    ensures AllNumeric(ids)
  {
    forall i | 0 <= i < |ids| ensures StringToNumber(ids[i]).Num? {
      DigitIsNumber(ids[i]);
    }
  }

  lemma DigitIsNumber(s: string)
    requires |s| == 1 && IsDigit(s[0])
    ensures StringToNumber(s).Num?
  {
    assert AllDigits(s);
    TrimNoop(s);
  }

  lemma SampleCriminalIds()
    ensures UniqueBy(MockCriminals, CriminalKey) && AllNumeric(CriminalIds(MockCriminals))
  {
    var cs := MockCriminals;
    assert cs[0].id == "1" && cs[1].id == "2" && cs[2].id == "3";
    forall i, j | 0 <= i < j < |cs| ensures CriminalKey(cs[i]) != CriminalKey(cs[j]) {
    }
    NumeralsOneToThree();
    assert CriminalIds(cs) == ["1", "2", "3"];
  }

  lemma SampleIPIds()
    ensures UniqueBy(MockBlockedIPs, IPKey) && AllNumeric(IPIds(MockBlockedIPs))
  {
    var ips := MockBlockedIPs;
    assert ips[0].id == "1" && ips[1].id == "2" && ips[2].id == "3";
    forall i, j | 0 <= i < j < |ips| ensures IPKey(ips[i]) != IPKey(ips[j]) {
    }
    NumeralsOneToThree();
    assert IPIds(ips) == ["1", "2", "3"];
  }

  /** The sample case ids are CASE001 to CASE003. */
  lemma SampleCaseIds()
    ensures UniqueBy(MockCases, CaseKey) && CaseIdsInRange(MockCases)
  {
    assert CaseId(1) == "CASE001";
    assert CaseId(2) == "CASE002";
    assert CaseId(3) == "CASE003";
    assert MockCases[0].id == CaseId(1);
    assert MockCases[1].id == CaseId(2);
    assert MockCases[2].id == CaseId(3);
  }
}
