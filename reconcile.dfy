/** `compareECtoVIVO` of eCommonsVIVO.py: every role contributor field of
    every record is scored against every VIVO person, and each pair scoring
    above 90 yields one row in each of two duplicate-free output lists.

    The specification is built from the enumeration the loops perform:
    `RecordsHits` lists the accepted (record, field, person) triples in
    encounter order (records, then fields, then people), and `Reconciled`
    passes their rows through the guarded appends of `Dedup`.  The method
    `CompareECtoVIVO` runs the loops and is proved equal to `Reconciled`. */
module Reconcile {
  import opened Wrappers
  import opened Records
  import opened Distinct
  import Scorer

  /** A pair is accepted when its score is strictly above this. */
  const Threshold: int := 90

  /** What the first pass over a record's fields collects, with the header values. */
  datatype RecordInfo = RecordInfo(
    handle: Option<string>,
    setSpecs: seq<string>,
    oaiID: string,
    subjects: seq<string>,
    bibID: Option<string>)

  /** A `VIVOmatchrow`: uri, label, handle, qualifier, field text, subjects, bibID. */
  datatype PersonRow = PersonRow(
    uri: string, vivoLabel: string, handle: Option<string>, qualifier: string,
    ecLabel: string, subjects: seq<string>, bibID: Option<string>)

  /** An `ECmatchrow`: handle, setSpecs, oaiID, subjects, element, qualifier, person uri, bibID. */
  datatype RecordRow = RecordRow(
    handle: Option<string>, setSpecs: seq<string>, oaiID: string, subjects: seq<string>,
    element: string, qualifier: string, personUri: string, bibID: Option<string>)

  /** A person `(uri, label)` whose label matched the text of a role field of a record. */
  datatype Hit = Hit(info: RecordInfo, qualifier: string, text: string, uri: string, vivoLabel: string)

  function PersonRowOf(h: Hit): PersonRow {
    PersonRow(h.uri, h.vivoLabel, h.info.handle, h.qualifier, h.text, h.info.subjects, h.info.bibID)
  }

  function RecordRowOf(h: Hit): RecordRow {
    RecordRow(h.info.handle, h.info.setSpecs, h.info.oaiID, h.info.subjects,
              "contributor", h.qualifier, h.uri, h.info.bibID)
  }

  function PersonRows(hs: seq<Hit>): (rs: seq<PersonRow>)
    ensures |rs| == |hs| && forall i :: 0 <= i < |hs| ==> rs[i] == PersonRowOf(hs[i])
  {
    seq(|hs|, i requires 0 <= i < |hs| => PersonRowOf(hs[i]))
  }

  function RecordRows(hs: seq<Hit>): (rs: seq<RecordRow>)
    ensures |rs| == |hs| && forall i :: 0 <= i < |hs| ==> rs[i] == RecordRowOf(hs[i])
  {
    seq(|hs|, i requires 0 <= i < |hs| => RecordRowOf(hs[i]))
  }

  lemma RowsConcat(a: seq<Hit>, b: seq<Hit>)
    ensures PersonRows(a + b) == PersonRows(a) + PersonRows(b)
    ensures RecordRows(a + b) == RecordRows(a) + RecordRows(b)
  {
    assert forall i :: 0 <= i < |a + b| ==> PersonRows(a + b)[i] == (PersonRows(a) + PersonRows(b))[i];
    assert forall i :: 0 <= i < |a + b| ==> RecordRows(a + b)[i] == (RecordRows(a) + RecordRows(b))[i];
  }

  // ---------------------------------------------------------------------
  // The first pass over a record's fields

  predicate IsSubjectField(f: Field) { f.element == Some("subject") }

  /** The position of the last `identifier/q` field that has a text, or
      -1: the loop overwrites its variable at every such field, and a field
      whose `#text` is missing raises a `KeyError` that is caught and skipped. */
  function LastIdentifier(fields: seq<Field>, q: string): (i: int)
    ensures -1 <= i < |fields|
    ensures i >= 0 ==> IsIdentifier(fields[i], q) && fields[i].text.Some?
    ensures forall j :: i < j < |fields| ==> !(IsIdentifier(fields[j], q) && fields[j].text.Some?)
  {
    if fields == [] then -1
    else if IsIdentifier(fields[|fields| - 1], q) && fields[|fields| - 1].text.Some? then |fields| - 1
    else
      var init := fields[..|fields| - 1];
      assert forall j :: 0 <= j < |init| ==> init[j] == fields[j];
      LastIdentifier(init, q)
  }

  /** The text of that field, or None when there is none. */
  function LastIdentifierText(fields: seq<Field>, q: string): Option<string> {
    var i := LastIdentifier(fields, q);
    if i >= 0 then fields[i].text else None
  }

  /** The texts of the `subject` fields that have a text, in field order. */
  function Subjects(fields: seq<Field>): (r: seq<string>)
    ensures |r| <= |fields|
    ensures forall t :: t in r <==> exists i :: 0 <= i < |fields| && IsSubjectField(fields[i]) && fields[i].text == Some(t)
  {
    if fields == [] then []
    else
      var init := fields[..|fields| - 1];
      var f := fields[|fields| - 1];
      assert forall i :: 0 <= i < |init| ==> init[i] == fields[i];
      if IsSubjectField(f) && f.text.Some? then Subjects(init) + [f.text.value] else Subjects(init)
  }

  /** The first field loop: three guarded lookups per field. */
  method ScanFields(fields: seq<Field>) returns (handle: Option<string>, subjs: seq<string>, bibID: Option<string>)
    ensures handle == LastIdentifierText(fields, "uri")
    ensures subjs == Subjects(fields)
    ensures bibID == LastIdentifierText(fields, "bibID")
  {
    handle, subjs, bibID := None, [], None;
    var m := 0;
    while m < |fields|
      invariant 0 <= m <= |fields|
      invariant handle == LastIdentifierText(fields[..m], "uri")
      invariant subjs == Subjects(fields[..m])
      invariant bibID == LastIdentifierText(fields[..m], "bibID")
    {
      var field := fields[m];
      LastIdentifierTextStep(fields, m, "uri");
      LastIdentifierTextStep(fields, m, "bibID");
      SubjectsStep(fields, m);
      if IsIdentifier(field, "uri") && field.text.Some? {
        handle := field.text;
      }
      if IsSubjectField(field) && field.text.Some? {
        subjs := subjs + [field.text.value];
      }
      if IsIdentifier(field, "bibID") && field.text.Some? {
        bibID := field.text;
      }
      m := m + 1;
    }
    assert fields[..|fields|] == fields;
  }

  /** The header and metadata lookups of `r` do not raise. */
  predicate WellFormed(r: Record) {
    r.header.Some? && r.header.value.identifier.Some? && r.header.value.setSpec.Some? && r.metadata.Some?
  }

  /** The header and metadata lookups of a record, which are not guarded:
      a missing key ends the whole comparison. */
  function InfoOf(r: Record): (res: Result<(RecordInfo, seq<Field>), PyException>)
    ensures res.Ok? <==> WellFormed(r)
  {
    if r.header.None? then Err(KeyError("header"))
    else if r.header.value.identifier.None? then Err(KeyError("identifier"))
    else if r.header.value.setSpec.None? then Err(KeyError("setSpec"))
    else if r.metadata.None? then Err(KeyError("metadata"))
    else
      var fs := r.metadata.value;
      Ok((RecordInfo(LastIdentifierText(fs, "uri"), [r.header.value.setSpec.value],
                     r.header.value.identifier.value, Subjects(fs),
                     LastIdentifierText(fs, "bibID")), fs))
  }

  /** The values a well-formed record's rows carry: its field list, its
      header identifier, the one-element list of its setSpec, and what the
      first field pass collects. */
  lemma InfoOfValues(r: Record)
    requires InfoOf(r).Ok?
    ensures var (info, fs) := InfoOf(r).value;
            && fs == r.metadata.value
            && info.oaiID == r.header.value.identifier.value
            && info.setSpecs == [r.header.value.setSpec.value]
            && info.handle == LastIdentifierText(fs, "uri")
            && info.bibID == LastIdentifierText(fs, "bibID")
            && info.subjects == Subjects(fs)
  {
  }

  lemma LastIdentifierTextStep(fields: seq<Field>, m: nat, q: string)
    requires m < |fields|
    ensures LastIdentifierText(fields[..m + 1], q)
            == if IsIdentifier(fields[m], q) && fields[m].text.Some? then fields[m].text
               else LastIdentifierText(fields[..m], q)
  {
    assert fields[..m + 1][..m] == fields[..m];
  }

  lemma SubjectsStep(fields: seq<Field>, m: nat)
    requires m < |fields|
    ensures Subjects(fields[..m + 1])
            == if IsSubjectField(fields[m]) && fields[m].text.Some? then Subjects(fields[..m]) + [fields[m].text.value]
               else Subjects(fields[..m])
  {
    assert fields[..m + 1][..m] == fields[..m];
  }

  // ---------------------------------------------------------------------
  // The enumeration of accepted pairs

  /** The people whose label scores above the threshold against text `t`, in order. */
  function PeopleHits(sim: Scorer.Similarity, people: seq<(string, string)>,
                      info: RecordInfo, q: string, t: string): seq<Hit>
  {
    if people == [] then []
    else
      var rest := PeopleHits(sim, people[..|people| - 1], info, q, t);
      var (uri, vivoLabel) := people[|people| - 1];
      if Scorer.MatchingAlgos(sim, vivoLabel, t) > Threshold then rest + [Hit(info, q, t, uri, vivoLabel)] else rest
  }

  /** A role field with a text is compared with every person.  Without a
      `#text` the first comparison raises a `KeyError`, caught per field:
      no rows. */
  function FieldHits(sim: Scorer.Similarity, people: seq<(string, string)>, info: RecordInfo, f: Field): seq<Hit> {
    if IsRoleField(f) && f.text.Some? then PeopleHits(sim, people, info, f.qualifier.value, f.text.value) else []
  }

  function FieldsHits(sim: Scorer.Similarity, people: seq<(string, string)>,
                      info: RecordInfo, fields: seq<Field>): seq<Hit>
  {
    if fields == [] then []
    else FieldsHits(sim, people, info, fields[..|fields| - 1]) + FieldHits(sim, people, info, fields[|fields| - 1])
  }

  function RecordsHits(sim: Scorer.Similarity, people: seq<(string, string)>,
                       records: seq<Record>): Result<seq<Hit>, PyException>
  {
    if records == [] then Ok([])
    else
      match RecordsHits(sim, people, records[..|records| - 1])
      case Err(e) => Err(e)
      case Ok(hs) =>
        match InfoOf(records[|records| - 1])
        case Err(e) => Err(e)
        case Ok((info, fs)) => Ok(hs + FieldsHits(sim, people, info, fs))
  }

  /** The two output lists of `compareECtoVIVO`, or the exception it raises. */
  function Reconciled(sim: Scorer.Similarity, people: seq<(string, string)>,
                      records: seq<Record>): Result<(seq<PersonRow>, seq<RecordRow>), PyException>
  {
    match RecordsHits(sim, people, records)
    case Err(e) => Err(e)
    case Ok(hs) => Ok((Dedup(PersonRows(hs)), Dedup(RecordRows(hs))))
  }

  // ---------------------------------------------------------------------
  // The loops

  /** The loop over people for one role field with text `t`. */
  method MatchPeople(sim: Scorer.Similarity, people: seq<(string, string)>, info: RecordInfo,
                     q: string, t: string, vivo: seq<PersonRow>, ec: seq<RecordRow>)
    returns (vivo': seq<PersonRow>, ec': seq<RecordRow>)
    ensures vivo' == Extend(vivo, PersonRows(PeopleHits(sim, people, info, q, t)))
    ensures ec' == Extend(ec, RecordRows(PeopleHits(sim, people, info, q, t)))
  {
    vivo', ec' := vivo, ec;
    ghost var hs: seq<Hit> := [];
    var k := 0;
    while k < |people|
      invariant 0 <= k <= |people|
      invariant hs == PeopleHits(sim, people[..k], info, q, t)
      invariant vivo' == Extend(vivo, PersonRows(hs))
      invariant ec' == Extend(ec, RecordRows(hs))
    {
      var (uri, vivoLabel) := people[k];
      ghost var h := Hit(info, q, t, uri, vivoLabel);
      PeopleStep(sim, people, k, info, q, t);
      var matchranking := Scorer.MatchingAlgos(sim, vivoLabel, t);
      if matchranking > Threshold {
        var vivoRow := PersonRow(uri, vivoLabel, info.handle, q, t, info.subjects, info.bibID);
        var ecRow := RecordRow(info.handle, info.setSpecs, info.oaiID, info.subjects,
                               "contributor", q, uri, info.bibID);
        AppendStep(vivo, ec, hs, h);
        assert vivoRow == PersonRowOf(h) && ecRow == RecordRowOf(h);
        if vivoRow !in vivo' {
          vivo' := vivo' + [vivoRow];
        }
        if ecRow !in ec' {
          ec' := ec' + [ecRow];
        }
        hs := hs + [h];
      }
      k := k + 1;
    }
    assert people[..|people|] == people;
  }

  /** The second loop over a record's fields. */
  method MatchFields(sim: Scorer.Similarity, people: seq<(string, string)>, info: RecordInfo,
                     fields: seq<Field>, vivo: seq<PersonRow>, ec: seq<RecordRow>)
    returns (vivo': seq<PersonRow>, ec': seq<RecordRow>)
    ensures vivo' == Extend(vivo, PersonRows(FieldsHits(sim, people, info, fields)))
    ensures ec' == Extend(ec, RecordRows(FieldsHits(sim, people, info, fields)))
  {
    vivo', ec' := vivo, ec;
    var m := 0;
    while m < |fields|
      invariant 0 <= m <= |fields|
      invariant vivo' == Extend(vivo, PersonRows(FieldsHits(sim, people, info, fields[..m])))
      invariant ec' == Extend(ec, RecordRows(FieldsHits(sim, people, info, fields[..m])))
    {
      var field := fields[m];
      ghost var before := FieldsHits(sim, people, info, fields[..m]);
      ghost var here := FieldHits(sim, people, info, field);
      assert fields[..m + 1][..m] == fields[..m];
      assert FieldsHits(sim, people, info, fields[..m + 1]) == before + here;
      RowsConcat(before, here);
      ExtendConcat(vivo, PersonRows(before), PersonRows(here));
      ExtendConcat(ec, RecordRows(before), RecordRows(here));
      if IsRoleField(field) && field.text.Some? {
        vivo', ec' := MatchPeople(sim, people, info, field.qualifier.value, field.text.value, vivo', ec');
      }
      m := m + 1;
    }
    assert fields[..|fields|] == fields;
  }

  /** `compareECtoVIVO(VIVOppl, eCommonsDict)`: `people` is the `(uri, vivoLabel)`
      items of `VIVOppl` in iteration order. */
  method CompareECtoVIVO(sim: Scorer.Similarity, people: seq<(string, string)>, records: seq<Record>)
    returns (r: Result<(seq<PersonRow>, seq<RecordRow>), PyException>)
    ensures r == Reconciled(sim, people, records)
    ensures r.Ok? ==> NoDuplicates(r.value.0) && NoDuplicates(r.value.1)
  {
    var vivoMatches: seq<PersonRow> := [];
    var eCommonsMatched: seq<RecordRow> := [];
    ghost var hits: seq<Hit> := [];
    var n := 0;
    while n < |records|
      invariant 0 <= n <= |records|
      invariant RecordsHits(sim, people, records[..n]) == Ok(hits)
      invariant vivoMatches == Dedup(PersonRows(hits))
      invariant eCommonsMatched == Dedup(RecordRows(hits))
    {
      var record := records[n];
      RecordsStep(sim, people, records, n, hits);
      if record.header.None? || record.header.value.identifier.None?
         || record.header.value.setSpec.None? || record.metadata.None? {
        ErrPersists(sim, people, records, n + 1);
        assert records[..|records|] == records;
        return Err(InfoOf(record).error);
      }
      var oaiID := record.header.value.identifier.value;
      var setSpecs := [record.header.value.setSpec.value];
      var fields := record.metadata.value;
      var handle, subjs, bibID := ScanFields(fields);
      var info := RecordInfo(handle, setSpecs, oaiID, subjs, bibID);
      assert InfoOf(record) == Ok((info, fields));
      ghost var here := FieldsHits(sim, people, info, fields);
      RowsConcat(hits, here);
      ExtendConcat([], PersonRows(hits), PersonRows(here));
      ExtendConcat([], RecordRows(hits), RecordRows(here));
      vivoMatches, eCommonsMatched := MatchFields(sim, people, info, fields, vivoMatches, eCommonsMatched);
      hits := hits + here;
      n := n + 1;
    }
    assert records[..|records|] == records;
    return Ok((vivoMatches, eCommonsMatched));
  }

  /** One step of the loop over people. */
  lemma PeopleStep(sim: Scorer.Similarity, people: seq<(string, string)>, k: nat,
                   info: RecordInfo, q: string, t: string)
    requires k < |people|
    ensures PeopleHits(sim, people[..k + 1], info, q, t)
            == PeopleHits(sim, people[..k], info, q, t)
               + (if Scorer.MatchingAlgos(sim, people[k].1, t) > Threshold
                  then [Hit(info, q, t, people[k].0, people[k].1)] else [])
  {
    assert people[..k + 1][..k] == people[..k];
  }

  /** One guarded append to each output list. */
  lemma AppendStep(vivo: seq<PersonRow>, ec: seq<RecordRow>, before: seq<Hit>, h: Hit)
    ensures Extend(vivo, PersonRows(before + [h]))
            == (var e := Extend(vivo, PersonRows(before));
                if PersonRowOf(h) in e then e else e + [PersonRowOf(h)])
    ensures Extend(ec, RecordRows(before + [h]))
            == (var e := Extend(ec, RecordRows(before));
                if RecordRowOf(h) in e then e else e + [RecordRowOf(h)])
  {
    RowsConcat(before, [h]);
    assert PersonRows([h]) == [PersonRowOf(h)];
    assert RecordRows([h]) == [RecordRowOf(h)];
    ExtendSnoc(vivo, PersonRows(before), PersonRowOf(h));
    ExtendSnoc(ec, RecordRows(before), RecordRowOf(h));
  }

  /** One step of the loop over records. */
  lemma RecordsStep(sim: Scorer.Similarity, people: seq<(string, string)>, records: seq<Record>,
                    n: nat, hs: seq<Hit>)
    requires n < |records|
    requires RecordsHits(sim, people, records[..n]) == Ok(hs)
    ensures InfoOf(records[n]).Err? ==>
              RecordsHits(sim, people, records[..n + 1]) == Err(InfoOf(records[n]).error)
    ensures InfoOf(records[n]).Ok? ==>
              var (info, fs) := InfoOf(records[n]).value;
              RecordsHits(sim, people, records[..n + 1]) == Ok(hs + FieldsHits(sim, people, info, fs))
  {
    assert records[..n + 1][..n] == records[..n];
  }

  /** Once a record has raised, later records do not change the outcome. */
  lemma {:induction false} ErrPersists(sim: Scorer.Similarity, people: seq<(string, string)>,
                                       records: seq<Record>, n: nat)
    requires n <= |records|
    requires RecordsHits(sim, people, records[..n]).Err?
    ensures RecordsHits(sim, people, records) == RecordsHits(sim, people, records[..n])
    decreases |records| - n
  {
    if n < |records| {
      assert records[..n + 1][..n] == records[..n];
      ErrPersists(sim, people, records, n + 1);
    } else {
      assert records[..n] == records;
    }
  }

  // ---------------------------------------------------------------------
  // What the enumeration accepts

  /** `h` pairs a person of `people` with a role field of `fields` that
      carries the hit's qualifier and text, the pair scores above the
      threshold, and `info` describes the record. */
  predicate AcceptedIn(sim: Scorer.Similarity, people: seq<(string, string)>,
                       info: RecordInfo, fields: seq<Field>, h: Hit)
  {
    && h.info == info
    && (h.uri, h.vivoLabel) in people
    && Scorer.MatchingAlgos(sim, h.vivoLabel, h.text) > Threshold
    && exists f :: f in fields && IsRoleField(f) && f.qualifier == Some(h.qualifier) && f.text == Some(h.text)
  }

  /** The people loop accepts exactly the people that score above the threshold. */
  lemma {:induction false} PeopleHitsMembers(sim: Scorer.Similarity, people: seq<(string, string)>,
                                             info: RecordInfo, q: string, t: string, h: Hit)
    ensures h in PeopleHits(sim, people, info, q, t) <==>
              && h.info == info && h.qualifier == q && h.text == t
              && (h.uri, h.vivoLabel) in people
              && Scorer.MatchingAlgos(sim, h.vivoLabel, t) > Threshold
  {
    if people != [] {
      var init := people[..|people| - 1];
      var (uri, vivoLabel) := people[|people| - 1];
      PeopleHitsMembers(sim, init, info, q, t, h);
      assert people == init + [(uri, vivoLabel)];
      assert (h.uri, h.vivoLabel) in people <==> (h.uri, h.vivoLabel) in init || (h.uri == uri && h.vivoLabel == vivoLabel);
    }
  }

  /** The field loop accepts exactly the pairs of a person and a role field
      with a text that score above the threshold. */
  lemma {:induction false} FieldsHitsMembers(sim: Scorer.Similarity, people: seq<(string, string)>,
                                             info: RecordInfo, fields: seq<Field>, h: Hit)
    ensures h in FieldsHits(sim, people, info, fields) <==> AcceptedIn(sim, people, info, fields, h)
  {
    if fields != [] {
      var init := fields[..|fields| - 1];
      var f := fields[|fields| - 1];
      FieldsHitsMembers(sim, people, info, init, h);
      assert fields == init + [f];
      if IsRoleField(f) && f.text.Some? {
        PeopleHitsMembers(sim, people, info, f.qualifier.value, f.text.value, h);
      }
    }
  }

  /** The position of the first record whose header or metadata lookups
      raise, or -1 when there is none. */
  function FirstMalformed(records: seq<Record>): (i: int)
    ensures -1 <= i < |records|
    ensures i >= 0 ==> !WellFormed(records[i])
    ensures forall j :: 0 <= j < |records| && (i < 0 || j < i) ==> WellFormed(records[j])
  {
    if records == [] then -1
    else
      var init := records[..|records| - 1];
      var p := FirstMalformed(init);
      if p >= 0 then
        assert init[p] == records[p];
        assert forall j :: 0 <= j < p ==> init[j] == records[j];
        p
      else if !WellFormed(records[|records| - 1]) then |records| - 1
      else
        assert forall j :: 0 <= j < |init| ==> init[j] == records[j];
        -1
  }

  /** The comparison raises exactly when some record lacks a header, its
      identifier or setSpec, or its metadata, and then with the `KeyError`
      of the first such record; records before it are well formed. */
  lemma {:induction false} RecordsHitsFailIff(sim: Scorer.Similarity, people: seq<(string, string)>,
                                              records: seq<Record>)
    ensures RecordsHits(sim, people, records).Err? <==> FirstMalformed(records) >= 0
    ensures FirstMalformed(records) >= 0 ==>
              RecordsHits(sim, people, records).error == InfoOf(records[FirstMalformed(records)]).error
  {
    if records != [] {
      var init := records[..|records| - 1];
      RecordsHitsFailIff(sim, people, init);
      RecordsHitsUnfold(sim, people, records);
      if FirstMalformed(init) >= 0 {
        assert init[FirstMalformed(init)] == records[FirstMalformed(init)];
      }
    }
  }

  /** One record more: the first exception stays, a malformed last record
      raises, and otherwise the last record's hits are appended. */
  lemma RecordsHitsUnfold(sim: Scorer.Similarity, people: seq<(string, string)>, records: seq<Record>)
    requires records != []
    ensures var init := records[..|records| - 1];
            var last := records[|records| - 1];
            RecordsHits(sim, people, records)
            == if RecordsHits(sim, people, init).Err? then RecordsHits(sim, people, init)
               else if InfoOf(last).Err? then Err(InfoOf(last).error)
               else Ok(RecordsHits(sim, people, init).value
                       + FieldsHits(sim, people, InfoOf(last).value.0, InfoOf(last).value.1))
  {
  }

  /** `h` is accepted for the well-formed record `r`. */
  predicate AcceptedFor(sim: Scorer.Similarity, people: seq<(string, string)>, r: Record, h: Hit) {
    InfoOf(r).Ok? && AcceptedIn(sim, people, InfoOf(r).value.0, InfoOf(r).value.1, h)
  }

  /** One record more, for a successful comparison: its hits are those of
      the earlier records and the accepted pairs of the last one. */
  lemma RecordsHitsSnoc(sim: Scorer.Similarity, people: seq<(string, string)>, records: seq<Record>, h: Hit)
    requires records != [] && RecordsHits(sim, people, records).Ok?
    ensures RecordsHits(sim, people, records[..|records| - 1]).Ok?
    ensures h in RecordsHits(sim, people, records).value <==>
              h in RecordsHits(sim, people, records[..|records| - 1]).value
              || AcceptedFor(sim, people, records[|records| - 1], h)
  {
    RecordsHitsUnfold(sim, people, records);
    var (info, fs) := InfoOf(records[|records| - 1]).value;
    FieldsHitsMembers(sim, people, info, fs, h);
  }

  /** Some record of a non-empty list accepts `h` iff one of all but its
      last record does or its last record does. */
  lemma AcceptedSomewhereSnoc(sim: Scorer.Similarity, people: seq<(string, string)>, records: seq<Record>, h: Hit)
    requires records != []
    ensures (exists r :: r in records && AcceptedFor(sim, people, r, h)) <==>
              (exists r :: r in records[..|records| - 1] && AcceptedFor(sim, people, r, h))
              || AcceptedFor(sim, people, records[|records| - 1], h)
  {
    var init := records[..|records| - 1];
    var last := records[|records| - 1];
    assert records == init + [last];
    if exists r :: r in records && AcceptedFor(sim, people, r, h) {
      var r :| r in records && AcceptedFor(sim, people, r, h);
      if r != last {
        assert r in init;
      }
    }
    if exists r :: r in init && AcceptedFor(sim, people, r, h) {
      var r :| r in init && AcceptedFor(sim, people, r, h);
      assert r in records;
    }
  }

  /** The hits of a successful comparison are the accepted pairs of its records. */
  lemma {:induction false} RecordsHitsMembers(sim: Scorer.Similarity, people: seq<(string, string)>,
                                              records: seq<Record>, h: Hit)
    requires RecordsHits(sim, people, records).Ok?
    ensures h in RecordsHits(sim, people, records).value <==>
              exists r :: r in records && AcceptedFor(sim, people, r, h)
  {
    if records != [] {
      RecordsHitsSnoc(sim, people, records, h);
      RecordsHitsMembers(sim, people, records[..|records| - 1], h);
      AcceptedSomewhereSnoc(sim, people, records, h);
    }
  }

  /** A successful comparison lists, without duplicates, exactly the rows of its hits. */
  lemma ReconciledRows(sim: Scorer.Similarity, people: seq<(string, string)>, records: seq<Record>)
    requires RecordsHits(sim, people, records).Ok?
    ensures Reconciled(sim, people, records).Ok?
    ensures var (vs, es) := Reconciled(sim, people, records).value;
            var hs := RecordsHits(sim, people, records).value;
            && NoDuplicates(vs) && NoDuplicates(es)
            && (forall x :: x in vs <==> exists i :: 0 <= i < |hs| && x == PersonRowOf(hs[i]))
            && (forall x :: x in es <==> exists i :: 0 <= i < |hs| && x == RecordRowOf(hs[i]))
  {
    var hs := RecordsHits(sim, people, records).value;
    assert forall x :: x in PersonRows(hs) <==> exists i :: 0 <= i < |hs| && x == PersonRowOf(hs[i]);
    assert forall x :: x in RecordRows(hs) <==> exists i :: 0 <= i < |hs| && x == RecordRowOf(hs[i]);
  }

  /** Some role field of `fs` has qualifier `q` and text `t`. */
  predicate RoleFieldAmong(fs: seq<Field>, q: string, t: string) {
    exists f :: f in fs && IsRoleField(f) && f.qualifier == Some(q) && f.text == Some(t)
  }

  /** `x` is a person-view row for the well-formed record `r`: a person of
      `people` whose label scores above the threshold against the text of a
      role field of `r`, with the handle, subjects and bib ID of `r`. */
  predicate PersonRowFrom(sim: Scorer.Similarity, people: seq<(string, string)>, r: Record, x: PersonRow) {
    && WellFormed(r)
    && (x.uri, x.vivoLabel) in people
    && RoleFieldAmong(r.metadata.value, x.qualifier, x.ecLabel)
    && Scorer.MatchingAlgos(sim, x.vivoLabel, x.ecLabel) > Threshold
    && x.handle == LastIdentifierText(r.metadata.value, "uri")
    && x.subjects == Subjects(r.metadata.value)
    && x.bibID == LastIdentifierText(r.metadata.value, "bibID")
  }

  /** `x` is a record-view row for the well-formed record `r`: its handle,
      `[setSpec]`, header identifier, subjects and bib ID, the element
      "contributor" with the qualifier of a role field of `r`, and a person
      whose label scores above the threshold against that field's text. */
  ghost predicate RecordRowFrom(sim: Scorer.Similarity, people: seq<(string, string)>, r: Record, x: RecordRow) {
    && WellFormed(r)
    && x.handle == LastIdentifierText(r.metadata.value, "uri")
    && x.setSpecs == [r.header.value.setSpec.value]
    && x.oaiID == r.header.value.identifier.value
    && x.subjects == Subjects(r.metadata.value)
    && x.element == "contributor"
    && x.bibID == LastIdentifierText(r.metadata.value, "bibID")
    && exists t, vivoLabel :: RoleFieldAmong(r.metadata.value, x.qualifier, t) && (x.personUri, vivoLabel) in people
                              && Scorer.MatchingAlgos(sim, vivoLabel, t) > Threshold
  }

  /** When every record is well formed the comparison succeeds, and every
      row it outputs comes from one of its records. */
  lemma RowsComeFromRecords(sim: Scorer.Similarity, people: seq<(string, string)>, records: seq<Record>)
    requires forall r :: r in records ==> WellFormed(r)
    ensures Reconciled(sim, people, records).Ok?
    ensures forall x :: x in Reconciled(sim, people, records).value.0 ==>
              exists r :: r in records && PersonRowFrom(sim, people, r, x)
    ensures forall x :: x in Reconciled(sim, people, records).value.1 ==>
              exists r :: r in records && RecordRowFrom(sim, people, r, x)
  {
    RecordsHitsFailIff(sim, people, records);
    var hs := RecordsHits(sim, people, records).value;
    ReconciledRows(sim, people, records);
    forall h | h in hs
      ensures exists r :: r in records && PersonRowFrom(sim, people, r, PersonRowOf(h))
                                       && RecordRowFrom(sim, people, r, RecordRowOf(h))
    {
      RecordsHitsMembers(sim, people, records, h);
      var r :| r in records && AcceptedFor(sim, people, r, h);
      InfoOfValues(r);
      assert PersonRowFrom(sim, people, r, PersonRowOf(h));
      assert RecordRowFrom(sim, people, r, RecordRowOf(h));
    }
  }

  /** A successful comparison has looked at every record without raising. */
  lemma ReconciledWellFormed(sim: Scorer.Similarity, people: seq<(string, string)>, records: seq<Record>, r: Record)
    requires Reconciled(sim, people, records).Ok? && r in records
    ensures WellFormed(r)
  {
    RecordsHitsFailIff(sim, people, records);
    var i :| 0 <= i < |records| && records[i] == r;
  }

  /** Every accepted pair has its row in both lists: a role field of a
      record with a text, and a person whose label scores above 90 against
      it, give the two rows built from the record's values. */
  lemma AcceptedPairsHaveRows(sim: Scorer.Similarity, people: seq<(string, string)>, records: seq<Record>,
                              r: Record, f: Field, uri: string, vivoLabel: string)
    requires Reconciled(sim, people, records).Ok?
    requires r in records && r.metadata.Some? && f in r.metadata.value && IsRoleField(f) && f.text.Some?
    requires (uri, vivoLabel) in people && Scorer.MatchingAlgos(sim, vivoLabel, f.text.value) > Threshold
    ensures r.header.Some? && r.header.value.identifier.Some? && r.header.value.setSpec.Some?
    ensures var fs := r.metadata.value;
            PersonRow(uri, vivoLabel, LastIdentifierText(fs, "uri"), f.qualifier.value, f.text.value,
                      Subjects(fs), LastIdentifierText(fs, "bibID"))
            in Reconciled(sim, people, records).value.0
    ensures var fs := r.metadata.value;
            RecordRow(LastIdentifierText(fs, "uri"), [r.header.value.setSpec.value], r.header.value.identifier.value,
                      Subjects(fs), "contributor", f.qualifier.value, uri, LastIdentifierText(fs, "bibID"))
            in Reconciled(sim, people, records).value.1
  {
    ReconciledWellFormed(sim, people, records, r);
    InfoOfValues(r);
    var info := InfoOf(r).value.0;
    var h := Hit(info, f.qualifier.value, f.text.value, uri, vivoLabel);
    assert AcceptedFor(sim, people, r, h);
    RecordsHitsMembers(sim, people, records, h);
    var hs := RecordsHits(sim, people, records).value;
    var i :| 0 <= i < |hs| && hs[i] == h;
    ReconciledRows(sim, people, records);
  }

  /** Adding records at the end only appends to the hits ... */
  lemma {:induction false} HitsGrow(sim: Scorer.Similarity, people: seq<(string, string)>,
                                    records: seq<Record>, n: nat)
    requires n <= |records|
    requires RecordsHits(sim, people, records).Ok?
    ensures RecordsHits(sim, people, records[..n]).Ok?
    ensures RecordsHits(sim, people, records[..n]).value <= RecordsHits(sim, people, records).value
    decreases |records| - n
  {
    if n == |records| {
      assert records[..n] == records;
    } else {
      HitsGrow(sim, people, records, n + 1);
      assert records[..n + 1][..n] == records[..n];
    }
  }

  /** ... and so only appends to both output lists. */
  lemma ReconciledGrows(sim: Scorer.Similarity, people: seq<(string, string)>,
                        records: seq<Record>, n: nat)
    requires n <= |records|
    requires RecordsHits(sim, people, records).Ok?
    ensures Reconciled(sim, people, records[..n]).Ok? && Reconciled(sim, people, records).Ok?
    ensures Reconciled(sim, people, records[..n]).value.0 <= Reconciled(sim, people, records).value.0
    ensures Reconciled(sim, people, records[..n]).value.1 <= Reconciled(sim, people, records).value.1
  {
    HitsGrow(sim, people, records, n);
    var a := RecordsHits(sim, people, records[..n]).value;
    var b := RecordsHits(sim, people, records).value;
    var c := b[|a|..];
    assert b == a + c;
    RowsConcat(a, c);
    ExtendConcat([], PersonRows(a), PersonRows(c));
    ExtendConcat([], RecordRows(a), RecordRows(c));
  }

  /** The acceptance test is strict: a score of exactly 90 yields no row,
      a score of 91 yields one. */
  lemma ThresholdBoundary(sim: Scorer.Similarity, info: RecordInfo, q: string, t: string,
                          uri: string, vivoLabel: string)
    ensures Scorer.MatchingAlgos(sim, vivoLabel, t) == 90 ==>
              PeopleHits(sim, [(uri, vivoLabel)], info, q, t) == []
    ensures Scorer.MatchingAlgos(sim, vivoLabel, t) == 91 ==>
              PeopleHits(sim, [(uri, vivoLabel)], info, q, t) == [Hit(info, q, t, uri, vivoLabel)]
  {
    assert [(uri, vivoLabel)][..0] == [];
  }

  /** One candidate record with handle "hdl:1/1", header id "oai:1" and an
      advisor field "Smith, John A.", compared with one person of that label.
      The only assumption on the foreign measures is that the edit ratio of
      a name against itself is 100. */
  lemma EndToEndExample(sim: Scorer.Similarity)
    requires sim.ratio("Smith, John A.", "Smith, John A.") == 100
    ensures Reconciled(sim, [("u1", "Smith, John A.")], [ExampleRecord("Smith, John A.")])
            == Ok(([PersonRow("u1", "Smith, John A.", Some("hdl:1/1"), "advisor", "Smith, John A.", [], None)],
                   [RecordRow(Some("hdl:1/1"), ["set:1"], "oai:1", [], "contributor", "advisor", "u1", None)]))
  {
    var name := "Smith, John A.";
    var people := [("u1", name)];
    var r := ExampleRecord(name);
    var fs := r.metadata.value;
    Scorer.NoPenaltyOnSameName(sim, name);
    assert LastIdentifierText(fs[..1], "uri") == Some("hdl:1/1");
    assert LastIdentifierText(fs, "uri") == Some("hdl:1/1");
    assert Subjects(fs[..1]) == [];
    var info := RecordInfo(Some("hdl:1/1"), ["set:1"], "oai:1", [], None);
    assert InfoOf(r) == Ok((info, fs));
    var h := Hit(info, "advisor", name, "u1", name);
    assert people[..0] == [];
    assert PeopleHits(sim, people, info, "advisor", name) == [h];
    assert fs[..1][..0] == [];
    assert FieldsHits(sim, people, info, fs[..1]) == [];
    assert FieldsHits(sim, people, info, fs) == [h];
    assert [r][..0] == [];
    assert RecordsHits(sim, people, [r]) == Ok([h]);
    assert PersonRows([h]) == [PersonRowOf(h)];
    assert RecordRows([h]) == [RecordRowOf(h)];
  }

  /** The same record with contributor text "Jones, Mary B." yields no row
      in either list when both raw scores are at most 90. */
  lemma NonMatchExample(sim: Scorer.Similarity)
    requires sim.ratio("Smith, John A.", "Jones, Mary B.") <= 90
    requires sim.strike("Smith, John A.", "Jones, Mary B.") <= 90
    ensures Reconciled(sim, [("u1", "Smith, John A.")], [ExampleRecord("Jones, Mary B.")]) == Ok(([], []))
  {
    var people := [("u1", "Smith, John A.")];
    var r := ExampleRecord("Jones, Mary B.");
    var fs := r.metadata.value;
    Scorer.ScoreIsShiftedMax(sim, "Smith, John A.", "Jones, Mary B.");
    assert Scorer.MatchingAlgos(sim, "Smith, John A.", "Jones, Mary B.") <= 90;
    assert InfoOf(r).Ok?;
    var info := InfoOf(r).value.0;
    assert people[..0] == [];
    assert PeopleHits(sim, people, info, "advisor", "Jones, Mary B.") == [];
    assert fs[..1][..0] == [];
    assert FieldsHits(sim, people, info, fs[..1]) == [];
    assert FieldHits(sim, people, info, fs[1]) == [];
    assert FieldsHits(sim, people, info, fs) == [];
    assert [r][..0] == [];
    assert RecordsHits(sim, people, [r]) == Ok([]);
  }

  /** The record of both examples: a handle field, then one advisor field. */
  function ExampleRecord(advisor: string): Record {
    Record(Some(Header(Some("oai:1"), Some("set:1"))),
           Some([Field(Some("identifier"), Some("uri"), Some("hdl:1/1"), Some("dc")),
                 Field(Some("contributor"), Some("advisor"), Some(advisor), Some("dc"))]))
  }
}
