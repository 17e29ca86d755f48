/** The wanted-criminals page of src/components/CriminalDatabase.tsx: the
    search filter, the comma-separated charges field, the add and edit
    dialogs (guards, then a call into the store) and the status badge. */
module CriminalDb {
  import opened Wrappers
  import opened Text
  import opened Seqs
  import opened Types
  import Store

  // ---------------------------------------------------------------------
  // filteredCriminals

  /** The name, the identification number or one of the charges contains
      the query, without regard to case. */
  function CriminalMatches(query: string): Criminal -> bool {
    (c: Criminal) =>
      || MentionsIgnoringCase(c.name, query)
      || MentionsIgnoringCase(c.identificationNumber, query)
      || exists k :: 0 <= k < |c.charges| && MentionsIgnoringCase(c.charges[k], query)
  }

  function FilteredCriminals(cs: seq<Criminal>, query: string): (r: seq<Criminal>)
    ensures |r| <= |cs|
    ensures forall i :: 0 <= i < |r| ==> r[i] in cs && CriminalMatches(query)(r[i])
  {
    Filter(cs, CriminalMatches(query))
  }

  /** The listing keeps the order of the records, shows exactly the records
      that mention the query, and everything for an empty query. */
  lemma FilteredCriminalsEffect(cs: seq<Criminal>, query: string)
    ensures IsSubsequence(FilteredCriminals(cs, query), cs)
    ensures forall i :: 0 <= i < |cs| ==>
      (cs[i] in FilteredCriminals(cs, query) <==>
        || MentionsIgnoringCase(cs[i].name, query)
        || MentionsIgnoringCase(cs[i].identificationNumber, query)
        || exists k :: 0 <= k < |cs[i].charges| && MentionsIgnoringCase(cs[i].charges[k], query))
    ensures query == "" ==> FilteredCriminals(cs, query) == cs
  {
    var p := CriminalMatches(query);
    FilterIsSubsequence(cs, p);
    forall i | 0 <= i < |cs| && cs[i] in FilteredCriminals(cs, query) ensures p(cs[i]) {
      var r := FilteredCriminals(cs, query);
      var k :| 0 <= k < |r| && r[k] == cs[i];
    }
    if query == "" {
      forall i | 0 <= i < |cs| ensures p(cs[i]) {
        ContainsEmpty(ToLower(cs[i].name));
      }
      FilterAll(cs, p);
    }
  }

  // ---------------------------------------------------------------------
  // The charges field

  function TrimAll(xs: seq<string>): (r: seq<string>)
    ensures |r| == |xs| && forall i :: 0 <= i < |xs| ==> r[i] == Trim(xs[i])
  {
    seq(|xs|, i requires 0 <= i < |xs| => Trim(xs[i]))
  }

  /** `text.split(',').map(c => c.trim()).filter(Boolean)`. */
  function ParseCharges(text: string): (r: seq<string>)
    ensures |r| <= |Split(text, {','})|
    ensures forall i :: 0 <= i < |r| ==> r[i] != ""
  {
    Filter(TrimAll(Split(text, {','})), NonEmpty)
  }

  /** Charges as the parser produces them: non-empty, trimmed, comma-free. */
  predicate WellFormedCharges(cs: seq<string>) {
    forall i :: 0 <= i < |cs| ==> cs[i] != "" && Trim(cs[i]) == cs[i] && ',' !in cs[i]
  }

  lemma ParseChargesWellFormed(text: string)
    ensures WellFormedCharges(ParseCharges(text))
  {
    var r := ParseCharges(text);
    forall i | 0 <= i < |r| ensures r[i] != "" && Trim(r[i]) == r[i] && ',' !in r[i] {
      ParsedChargeWellFormed(text, r[i]);
    }
  }

  lemma ParsedChargeWellFormed(text: string, x: string)
    requires x in ParseCharges(text)
    ensures x != "" && Trim(x) == x && ',' !in x
  {
    var f := Split(text, {','});
    var j := ParsedChargeField(text, x);
    TrimmedFieldWellFormed(f[j]);
  }

  /** A parsed charge is the trim of one of the comma-separated fields. */
  lemma ParsedChargeField(text: string, x: string) returns (j: nat)
    requires x in ParseCharges(text)
    ensures j < |Split(text, {','})| && x == Trim(Split(text, {','})[j]) && x != ""
  {
    FilterMember(TrimAll(Split(text, {','})), NonEmpty, x);
    j := TrimAllMember(Split(text, {','}), x);
  }

  lemma TrimAllMember(xs: seq<string>, x: string) returns (j: nat)
    requires x in TrimAll(xs)
    ensures j < |xs| && x == Trim(xs[j])
  {
    var t := TrimAll(xs);
    j :| 0 <= j < |t| && t[j] == x;
  }

  lemma TrimmedFieldWellFormed(field: string)
    requires ',' !in field
    ensures Trim(Trim(field)) == Trim(field) && ',' !in Trim(field)
  {
    TrimmedIsTrimmed(field);
    if ',' in Trim(field) {
      TrimKeepsChars(field, ',');
    }
  }

  /** One leading space is removed by trim from a trimmed, non-empty string. */
  lemma TrimAfterSpace(x: string)
    requires x != "" && Trim(x) == x
    ensures Trim(" " + x) == x
  {
    TrimmedIsTrimmed(x);
    var s := " " + x;
    assert s[1..] == x;
    assert TrimStart(x) == x;
    assert TrimStart(s) == x;
  }

  /** The edit dialog shows the charges joined with ", "; saving parses them
      back to the same list. */
  lemma ChargesRoundTrip(cs: seq<string>)
    requires WellFormedCharges(cs)
    ensures ParseCharges(Join(cs, ", ")) == cs
  {
    if cs == [] {
      assert Split([], {','}) == [[]];
      assert TrimAll([[]]) == [[]] by {
        assert Trim([]) == [];
      }
      assert Filter([[]], NonEmpty) == Filter([[]][1..], NonEmpty);
    } else {
      assert TrimAll(Split(Join(cs, ", "), {','})) == cs by {
        JoinedFieldsTrimBack(cs);
      }
      FilterAll(cs, NonEmpty);
    }
  }

  lemma JoinedFieldsTrimBack(cs: seq<string>)
    requires cs != [] && WellFormedCharges(cs)
    ensures TrimAll(Split(Join(cs, ", "), {','})) == cs
  {
    var f := SplitJoined(cs);
    PaddedFieldsTrimBack(cs, f);
  }

  /** Splitting the joined charges on commas leaves the space after each comma. */
  lemma SplitJoined(cs: seq<string>) returns (f: seq<string>)
    requires cs != [] && forall i :: 0 <= i < |cs| ==> ',' !in cs[i]
    ensures f == Split(Join(cs, ", "), {','})
    ensures |f| == |cs| && f[0] == cs[0] && forall i :: 1 <= i < |cs| ==> f[i] == " " + cs[i]
  {
    SplitJoin(cs, ',', " ");
    assert [','] + " " == ", ";
    f := Split(Join(cs, ", "), {','});
    assert f == [cs[0]] + seq(|cs| - 1, i requires 0 <= i < |cs| - 1 => " " + cs[i + 1]);
  }

  lemma PaddedFieldsTrimBack(cs: seq<string>, f: seq<string>)
    requires |f| == |cs| && |cs| > 0 && f[0] == cs[0]
    requires forall i :: 1 <= i < |cs| ==> f[i] == " " + cs[i]
    requires WellFormedCharges(cs)
    ensures TrimAll(f) == cs
  {
    var t := TrimAll(f);
    forall i | 0 <= i < |cs| ensures t[i] == cs[i] {
      assert Trim(f[i]) == cs[i] by {
        PaddedFieldAt(cs, f, i);
      }
    }
  }

  lemma PaddedFieldAt(cs: seq<string>, f: seq<string>, i: nat)
    requires |f| == |cs| && i < |cs| && f[0] == cs[0]
    requires forall j :: 1 <= j < |cs| ==> f[j] == " " + cs[j]
    requires WellFormedCharges(cs)
    ensures Trim(f[i]) == cs[i]
  {
    assert cs[i] != "" && Trim(cs[i]) == cs[i];
    if i > 0 {
      assert f[i] == " " + cs[i];
      TrimAfterSpace(cs[i]);
    }
  }

  /** Parsing what was parsed and joined gives the same charges. */
  lemma ParseJoinParse(text: string)
    ensures ParseCharges(Join(ParseCharges(text), ", ")) == ParseCharges(text)
  {
    ParseChargesWellFormed(text);
    ChargesRoundTrip(ParseCharges(text));
  }

  // ---------------------------------------------------------------------
  // The dialogs

  /** The text fields of the add and edit dialogs, as typed. */
  datatype CriminalForm = CriminalForm(
    id: string, name: string, age: string, charges: string, description: string,
    image: string, status: CriminalStatus)

  const DefaultImage: string := "https://images.unsplash.com/photo-1472099645785-5658abf4ff4e?w=200&h=200&fit=crop&crop=face"

  /** What `handleAddCriminal` passes to the store. */
  function AddInput(form: CriminalForm): Store.NewCriminalInput {
    Store.NewCriminalInput(form.name, ParseInt(form.age), ParseCharges(form.charges), form.description,
                           if form.image == "" then DefaultImage else form.image, form.status)
  }

  /** The new record always has a picture and well-formed charges. */
  lemma AddInputEffect(form: CriminalForm)
    ensures AddInput(form).image != ""
    ensures form.image != "" ==> AddInput(form).image == form.image
    ensures WellFormedCharges(AddInput(form).charges)
    ensures AddInput(form).age == ParseInt(form.age)
  {
    ParseChargesWellFormed(form.charges);
  }

  /** What `handleEditCriminal` passes to the store: every field present. */
  function EditPatch(form: CriminalForm): Store.CriminalPatch {
    Store.CriminalPatch(form.id, Some(form.name), Some(ParseInt(form.age)), Some(ParseCharges(form.charges)),
                        Some(form.description), Some(form.image), Some(form.status))
  }

  /** `openEdit`: the dialog's fields for a record. */
  function EditFormOf(c: Criminal): CriminalForm {
    CriminalForm(c.id, c.name, NumberToString(c.age), Join(c.charges, ", "), c.description, c.image, c.status)
  }

  /** Opening the edit dialog on a record and saving it untouched passes the
      guard and leaves the record as it was. */
  lemma EditWithoutChangesIsNoop(c: Criminal)
    requires c.id != "" && c.name != "" && WellFormedCharges(c.charges)
    ensures EditFormOf(c).age != ""
    ensures Store.Merge(c, EditPatch(EditFormOf(c))) == c
  {
    var p := EditPatch(EditFormOf(c));
    assert p.age == Some(c.age) by {
      ParseIntRoundTrip(c.age);
    }
    assert p.charges == Some(c.charges) by {
      ChargesRoundTrip(c.charges);
    }
    NumberStringNonEmpty(c.age);
  }

  lemma NumberStringNonEmpty(x: JsNumber)
    ensures NumberToString(x) != ""
  {
  }

  datatype AddOutcome = AddRejected | Added(record: Criminal)

  /** `handleAddCriminal`: an empty name or age is rejected and the store is
      left alone; otherwise the record is added through the store. */
  method HandleAddCriminal(store: Store.Store, form: CriminalForm, today: string) returns (outcome: AddOutcome)
    modifies store
    ensures outcome.AddRejected? <==> form.name == "" || form.age == ""
    ensures outcome.AddRejected? ==>
      store.criminals == old(store.criminals) && store.cases == old(store.cases) && store.blockedIPs == old(store.blockedIPs)
    ensures outcome.Added? ==>
      && outcome.record == Store.NewCriminalRecord(old(store.criminals), AddInput(form), today)
      && store.criminals == old(store.criminals) + [outcome.record]
      && store.cases == old(store.cases) && store.blockedIPs == old(store.blockedIPs)
    ensures old(store.Valid()) ==> store.Valid()
  {
    if form.name == "" || form.age == "" {
      outcome := AddRejected;
    } else {
      var record := store.AddCriminal(AddInput(form), today);
      outcome := Added(record);
    }
  }

  /** `handleEditCriminal`: an empty id, name or age is rejected; otherwise
      every field of the dialog is written to the records with that id. */
  method HandleEditCriminal(store: Store.Store, form: CriminalForm) returns (accepted: bool)
    modifies store
    ensures accepted <==> form.id != "" && form.name != "" && form.age != ""
    ensures !accepted ==> store.criminals == old(store.criminals)
    ensures accepted ==> store.criminals == Store.UpdateCriminals(old(store.criminals), EditPatch(form))
    ensures store.cases == old(store.cases) && store.blockedIPs == old(store.blockedIPs)
    ensures old(store.Valid()) ==> store.Valid()
  {
    accepted := form.id != "" && form.name != "" && form.age != "";
    if accepted {
      store.UpdateCriminal(EditPatch(form));
    }
  }

  /** `handleDeleteCriminal`. */
  method HandleDeleteCriminal(store: Store.Store, id: string)
    modifies store
    ensures store.criminals == Store.DeleteCriminal(old(store.criminals), id)
    ensures store.cases == old(store.cases) && store.blockedIPs == old(store.blockedIPs)
    ensures old(store.Valid()) ==> store.Valid()
  {
    store.DeleteCriminalById(id);
  }

  // ---------------------------------------------------------------------
  // Status badge

  /** `statusVariant`. */
  function StatusVariant(s: CriminalStatus): string {
    match s
    case Active => "destructive"
    case Captured => "default"
    case Deceased => "secondary"
  }

  /** Each status has its own badge, and none falls back to the outline. */
  lemma StatusVariantDistinct(a: CriminalStatus, b: CriminalStatus)
    ensures StatusVariant(a) == StatusVariant(b) <==> a == b
    ensures StatusVariant(a) != "outline"
  {
  }
}
