/** `eCommonsAddBibs` and its `matchMARCtoEC(handle)` of eCommonsVIVO.py:
    for each `identifier/uri` field of each record, ask the catalogue for a
    bib ID and, when one comes back, append an `identifier/bibID` field to
    that record's field list, in place.

    The catalogue lookup reads the MARC file from its start on every call
    and returns from inside its loop on the first MARC record, matching or
    not; the catalogue is therefore passed in as a sequence, and only its
    first record ever matters.  The field loop's bound is taken before the
    loop starts, so fields appended during the loop are never visited. */
module CatalogBibs {
  import opened Wrappers
  import opened Records
  import PyStr

  /** The field appended for a matched handle. */
  function BibField(bib: string): Field {
    Field(Some("identifier"), Some("bibID"), Some(bib), Some("dc"))
  }

  /** A field of the shape `BibField` builds, with a non-empty bib ID. */
  predicate IsBibField(f: Field) {
    && f.element == Some("identifier") && f.qualifier == Some("bibID")
    && f.mdschema == Some("dc") && f.text.Some? && f.text.value != ""
  }

  /** The number of `identifier/uri` fields of a list. */
  function HandleCount(fields: seq<Field>): nat {
    if fields == [] then 0
    else HandleCount(fields[..|fields| - 1]) + (if IsIdentifier(fields[|fields| - 1], "uri") then 1 else 0)
  }

  // ---------------------------------------------------------------------
  // The catalogue lookup

  /** What `matchMARCtoEC(handle)` returns: None for an empty catalogue;
      otherwise the decision of the first MARC record alone, which raises a
      `TypeError` when that record has no 856 field. */
  function FirstRecordBib(marc: seq<MarcRecord>, handle: string): Result<Option<string>, PyException> {
    if marc == [] then Ok(None)
    else if marc[0].url.None? then Err(TypeError)
    else if PyStr.Strip(handle) == PyStr.Strip(marc[0].url.value) then Ok(Some(marc[0].bibID))
    else Ok(None)
  }

  /** The loop over the MARC reader; both branches of its test return. */
  method MatchMARCtoEC(marc: seq<MarcRecord>, handle: string) returns (r: Result<Option<string>, PyException>)
    ensures r == FirstRecordBib(marc, handle)
  {
    for i := 0 to |marc|
      invariant i == 0
    {
      var bibID := marc[i].bibID;
      if marc[i].url.None? {
        return Err(TypeError);
      }
      var bibURL := marc[i].url.value;
      if PyStr.Strip(handle) == PyStr.Strip(bibURL) {
        return Ok(Some(bibID));
      } else {
        return Ok(None);
      }
    }
    return Ok(None);
  }

  /** Records after the first are never read. */
  lemma FirstRecordDecides(m: MarcRecord, rest: seq<MarcRecord>, handle: string)
    ensures FirstRecordBib([m] + rest, handle) == FirstRecordBib([m], handle)
  {
  }

  /** A handle matches a catalogue URL whatever whitespace surrounds either. */
  lemma MatchIgnoresSurroundingWhitespace(bib: string, core: string, pre: string, post: string,
                                          pre': string, post': string, rest: seq<MarcRecord>)
    requires forall i :: 0 <= i < |pre| ==> PyStr.IsPyWhitespace(pre[i])
    requires forall i :: 0 <= i < |post| ==> PyStr.IsPyWhitespace(post[i])
    requires forall i :: 0 <= i < |pre'| ==> PyStr.IsPyWhitespace(pre'[i])
    requires forall i :: 0 <= i < |post'| ==> PyStr.IsPyWhitespace(post'[i])
    requires core == [] || (!PyStr.IsPyWhitespace(core[0]) && !PyStr.IsPyWhitespace(core[|core| - 1]))
    ensures FirstRecordBib([MarcRecord(bib, Some(pre' + core + post'))] + rest, pre + core + post) == Ok(Some(bib))
  {
    PyStr.StripPadded(pre, core, post);
    PyStr.StripPadded(pre', core, post');
  }

  // ---------------------------------------------------------------------
  // One field, one field list

  /** An identifier/uri field whose handle, stripped, is the stripped 856
      URL of the first MARC record, when that record's bib ID is truthy:
      the fields that get a bib field appended. */
  predicate MatchesFirst(marc: seq<MarcRecord>, f: Field) {
    && IsIdentifier(f, "uri") && f.text.Some?
    && marc != [] && marc[0].url.Some? && marc[0].bibID != ""
    && PyStr.Strip(f.text.value) == PyStr.Strip(marc[0].url.value)
  }

  /** The number of fields of a list that match the first MARC record. */
  function MatchCount(marc: seq<MarcRecord>, fields: seq<Field>): nat {
    if fields == [] then 0
    else MatchCount(marc, fields[..|fields| - 1]) + (if MatchesFirst(marc, fields[|fields| - 1]) then 1 else 0)
  }

  /** What the field loop does with one field: maybe a field to append, or
      the exception that ends the whole enrichment.  A field without
      `@qualifier` is skipped; `@element` is then read unguarded; for an
      identifier/uri field `#text` is read and the catalogue consulted, and
      a falsy bib ID (None or "") appends nothing. */
  function BibFor(marc: seq<MarcRecord>, f: Field): (r: Result<Option<Field>, PyException>)
    ensures r.Err? <==> HandleFieldError(f).Some?
                        || (IsIdentifier(f, "uri") && f.text.Some? && FirstRecordBib(marc, f.text.value).Err?)
    ensures MatchesFirst(marc, f) ==> r == Ok(Some(BibField(marc[0].bibID)))
    ensures r.Ok? && r.value.Some? ==>
              MatchesFirst(marc, f) && r.value.value == BibField(marc[0].bibID) && IsBibField(r.value.value)
  {
    if f.qualifier.None? then Ok(None)
    else if HandleFieldError(f).Some? then Err(HandleFieldError(f).value)
    else if IsIdentifier(f, "uri") then
      match FirstRecordBib(marc, f.text.value)
      case Err(e) => Err(e)
      case Ok(b) => if b.Some? && b.value != "" then Ok(Some(BibField(b.value))) else Ok(None)
    else Ok(None)
  }

  /** The fields appended to one list and the exception, if any, that stopped the loop. */
  datatype Scan = Scan(added: seq<Field>, error: Option<PyException>)

  /** The field loop over `fields`, the list as it was when the loop started. */
  function NewBibs(marc: seq<MarcRecord>, fields: seq<Field>): (s: Scan)
    ensures |s.added| <= HandleCount(fields)
    ensures forall j :: 0 <= j < |s.added| ==> IsBibField(s.added[j])
    ensures |s.added| > 0 ==> marc != [] && forall j :: 0 <= j < |s.added| ==> s.added[j] == BibField(marc[0].bibID)
  {
    if fields == [] then Scan([], None)
    else
      var p := NewBibs(marc, fields[..|fields| - 1]);
      if p.error.Some? then p
      else
        match BibFor(marc, fields[|fields| - 1])
        case Err(e) => Scan(p.added, Some(e))
        case Ok(None) => p
        case Ok(Some(b)) => Scan(p.added + [b], None)
  }

  /** A field appended by the loop, were it visited, would add nothing and raise nothing. */
  lemma BibFieldsAreInert(marc: seq<MarcRecord>, bib: string)
    ensures BibFor(marc, BibField(bib)) == Ok(None)
  {
  }

  /** Once a field has raised, later fields are not looked at. */
  lemma {:induction false} NewBibsAfterError(marc: seq<MarcRecord>, fields: seq<Field>, m: nat)
    requires m <= |fields|
    requires NewBibs(marc, fields[..m]).error.Some?
    ensures NewBibs(marc, fields) == NewBibs(marc, fields[..m])
    decreases |fields| - m
  {
    if m == |fields| {
      assert fields[..m] == fields;
    } else {
      assert fields[..m + 1][..m] == fields[..m];
      NewBibsAfterError(marc, fields, m + 1);
    }
  }

  /** One field more. */
  lemma NewBibsStep(marc: seq<MarcRecord>, fields: seq<Field>, m: nat)
    requires m < |fields|
    ensures var p := NewBibs(marc, fields[..m]);
            NewBibs(marc, fields[..m + 1])
            == if p.error.Some? then p
               else match BibFor(marc, fields[m])
                    case Err(e) => Scan(p.added, Some(e))
                    case Ok(None) => p
                    case Ok(Some(b)) => Scan(p.added + [b], None)
  {
    assert fields[..m + 1][..m] == fields[..m];
  }

  /** The field loop raises exactly when some field's lookup raises, and then
      with the exception of the first such field. */
  lemma {:induction false} NewBibsFailIff(marc: seq<MarcRecord>, fields: seq<Field>)
    ensures NewBibs(marc, fields).error.Some? <==> exists j :: 0 <= j < |fields| && BibFor(marc, fields[j]).Err?
    ensures NewBibs(marc, fields).error.Some? ==>
              exists j :: 0 <= j < |fields| && BibFor(marc, fields[j]).Err?
                          && NewBibs(marc, fields).error.value == BibFor(marc, fields[j]).error
                          && forall i :: 0 <= i < j ==> BibFor(marc, fields[i]).Ok?
  {
    if fields != [] {
      var init := fields[..|fields| - 1];
      NewBibsFailIff(marc, init);
      assert forall i :: 0 <= i < |init| ==> init[i] == fields[i];
    }
  }

  /** A field loop that raises nothing appends one bib field for every
      field that matches the first MARC record, and no other. */
  lemma {:induction false} NewBibsCount(marc: seq<MarcRecord>, fields: seq<Field>)
    ensures NewBibs(marc, fields).error.None? ==> |NewBibs(marc, fields).added| == MatchCount(marc, fields)
  {
    if fields != [] {
      NewBibsCount(marc, fields[..|fields| - 1]);
    }
  }

  // ---------------------------------------------------------------------
  // All records

  /** `r` with `added` appended to its field list (a record without
      metadata is skipped by the loop and stays as it is). */
  function WithFields(r: Record, added: seq<Field>): Record {
    if r.metadata.None? then r else Record(r.header, Some(r.metadata.value + added))
  }

  function RecordScan(marc: seq<MarcRecord>, r: Record): Scan {
    if r.metadata.None? then Scan([], None) else NewBibs(marc, r.metadata.value)
  }

  /** The records after the enrichment and the exception, if any, that ended it. */
  datatype Enriched = Enriched(records: seq<Record>, error: Option<PyException>)

  /** `eCommonsAddBibs`: records before the one that raised are enriched,
      that record keeps the fields appended before the exception, and the
      records after it are untouched. */
  function AddBibs(marc: seq<MarcRecord>, rs: seq<Record>): (e: Enriched)
    ensures |e.records| == |rs|
  {
    if rs == [] then Enriched([], None)
    else
      var p := AddBibs(marc, rs[..|rs| - 1]);
      var r := rs[|rs| - 1];
      if p.error.Some? then Enriched(p.records + [r], p.error)
      else
        var s := RecordScan(marc, r);
        Enriched(p.records + [WithFields(r, s.added)], s.error)
  }

  /** The field loop of one record, appending to `records[n]` in place. */
  method AddRecordBibs(marc: seq<MarcRecord>, records: array<Record>, n: nat) returns (err: Option<PyException>)
    requires n < records.Length
    modifies records
    ensures records[n] == WithFields(old(records[n]), RecordScan(marc, old(records[n])).added)
    ensures err == RecordScan(marc, old(records[n])).error
    ensures forall i :: 0 <= i < records.Length && i != n ==> records[i] == old(records[i])
  {
    err := None;
    var record := records[n];
    if record.metadata.Some? {
      var fields := record.metadata.value;
      ghost var orig := fields;
      var count := |fields|;
      var m := 0;
      while m < count
        invariant 0 <= m <= count == |orig|
        invariant NewBibs(marc, orig[..m]).error == None
        invariant fields == orig + NewBibs(marc, orig[..m]).added
        invariant records[n] == Record(record.header, Some(fields))
        invariant forall i :: 0 <= i < records.Length && i != n ==> records[i] == old(records[i])
      {
        var field := fields[m];
        assert field == orig[m];
        NewBibsStep(marc, orig, m);
        if field.qualifier.Some? {
          if field.element.None? {
            NewBibsAfterError(marc, orig, m + 1);
            return Some(KeyError("@element"));
          }
          if field.element == Some("identifier") && field.qualifier == Some("uri") {
            if field.text.None? {
              NewBibsAfterError(marc, orig, m + 1);
              return Some(KeyError("#text"));
            }
            var bibID := MatchMARCtoEC(marc, field.text.value);
            if bibID.Err? {
              NewBibsAfterError(marc, orig, m + 1);
              return Some(bibID.error);
            }
            if bibID.value.Some? && bibID.value.value != "" {
              fields := fields + [BibField(bibID.value.value)];
              records[n] := Record(record.header, Some(fields));
            }
          }
        }
        m := m + 1;
      }
      assert orig[..count] == orig;
    }
  }

  /** `eCommonsAddBibs(eCommonsDict)` over the record array; the exception,
      if any, is returned after the partial changes are made. */
  method ECommonsAddBibs(marc: seq<MarcRecord>, records: array<Record>) returns (err: Option<PyException>)
    modifies records
    ensures AddBibs(marc, old(records[..])) == Enriched(records[..], err)
  {
    ghost var orig := records[..];
    err := None;
    var n := 0;
    while n < records.Length
      invariant 0 <= n <= records.Length == |orig|
      invariant records[n..] == orig[n..]
      invariant AddBibs(marc, orig[..n]) == Enriched(records[..n], None)
      invariant err == None
    {
      ghost var before := records[..];
      assert records[n] == orig[n] by { assert records[n..][0] == orig[n..][0]; }
      err := AddRecordBibs(marc, records, n);
      assert records[..n] == before[..n] && records[n + 1..] == before[n + 1..];
      AddBibsArrayStep(marc, orig, n, before, records[..]);
      if err.Some? {
        return;
      }
      n := n + 1;
    }
    assert orig[..n] == orig;
    assert records[..n] == records[..];
  }

  /** The outer loop's step on the array contents: the record at `n` is
      replaced by its enriched copy, which extends the enriched prefix; an
      exception there fixes the final outcome. */
  lemma AddBibsArrayStep(marc: seq<MarcRecord>, orig: seq<Record>, n: nat, cur: seq<Record>, cur': seq<Record>)
    requires n < |orig| == |cur|
    requires cur[n..] == orig[n..]
    requires AddBibs(marc, orig[..n]) == Enriched(cur[..n], None)
    requires |cur'| == |cur| && cur'[..n] == cur[..n] && cur'[n + 1..] == cur[n + 1..]
    requires cur'[n] == WithFields(orig[n], RecordScan(marc, orig[n]).added)
    ensures cur'[n + 1..] == orig[n + 1..]
    ensures AddBibs(marc, orig[..n + 1]) == Enriched(cur'[..n + 1], RecordScan(marc, orig[n]).error)
    ensures RecordScan(marc, orig[n]).error.Some? ==> AddBibs(marc, orig) == Enriched(cur', RecordScan(marc, orig[n]).error)
  {
    var x := cur'[n];
    ReplaceAt(orig, n, cur, cur');
    AddBibsLoopStep(marc, orig, n, cur[..n], x, RecordScan(marc, orig[n]).error);
  }

  /** Replacing the element at `n` of a list that agrees with `orig` from
      `n` on: the parts before, at and after `n`. */
  lemma ReplaceAt<T>(orig: seq<T>, n: nat, cur: seq<T>, cur': seq<T>)
    requires n < |orig| == |cur|
    requires cur[n..] == orig[n..]
    requires |cur'| == |cur| && cur'[..n] == cur[..n] && cur'[n + 1..] == cur[n + 1..]
    ensures cur'[..n + 1] == cur[..n] + [cur'[n]]
    ensures cur'[n + 1..] == orig[n + 1..]
    ensures cur' == cur[..n] + [cur'[n]] + orig[n + 1..]
  {
    assert cur[n + 1..] == cur[n..][1..];
    assert orig[n + 1..] == orig[n..][1..];
    assert cur' == cur'[..n + 1] + cur'[n + 1..];
  }

  /** One record more after records that raised nothing. */
  lemma AddBibsStep(marc: seq<MarcRecord>, rs: seq<Record>, n: nat)
    requires n < |rs|
    requires AddBibs(marc, rs[..n]).error.None?
    ensures AddBibs(marc, rs[..n + 1])
            == Enriched(AddBibs(marc, rs[..n]).records + [WithFields(rs[n], RecordScan(marc, rs[n]).added)],
                        RecordScan(marc, rs[n]).error)
  {
    assert rs[..n + 1][..n] == rs[..n];
  }

  /** The outer loop's step, on values: the enriched prefix grows by the
      enriched record, and an exception there fixes the final outcome. */
  lemma AddBibsLoopStep(marc: seq<MarcRecord>, orig: seq<Record>, n: nat,
                        done: seq<Record>, r: Record, err: Option<PyException>)
    requires n < |orig|
    requires AddBibs(marc, orig[..n]) == Enriched(done, None)
    requires r == WithFields(orig[n], RecordScan(marc, orig[n]).added)
    requires err == RecordScan(marc, orig[n]).error
    ensures AddBibs(marc, orig[..n + 1]) == Enriched(done + [r], err)
    ensures err.Some? ==> AddBibs(marc, orig) == Enriched(done + [r] + orig[n + 1..], err)
  {
    AddBibsStep(marc, orig, n);
    if err.Some? {
      AddBibsAfterError(marc, orig, n + 1);
    }
  }

  /** After a record has raised, the remaining records are left as they are. */
  lemma {:induction false} AddBibsAfterError(marc: seq<MarcRecord>, rs: seq<Record>, n: nat)
    requires n <= |rs|
    requires AddBibs(marc, rs[..n]).error.Some?
    ensures AddBibs(marc, rs) == Enriched(AddBibs(marc, rs[..n]).records + rs[n..], AddBibs(marc, rs[..n]).error)
    decreases |rs| - n
  {
    if n == |rs| {
      assert rs[..n] == rs;
      assert rs[n..] == [];
      assert AddBibs(marc, rs[..n]).records + [] == AddBibs(marc, rs[..n]).records;
    } else {
      assert rs[..n + 1][..n] == rs[..n];
      AddBibsAfterError(marc, rs, n + 1);
      assert rs[n..] == [rs[n]] + rs[n + 1..];
    }
  }

  /** Each record after the enrichment is the old record, or the old record
      with the bib fields of its own field loop appended. */
  lemma {:induction false} AddBibsRecordAt(marc: seq<MarcRecord>, rs: seq<Record>, i: nat)
    requires i < |rs|
    ensures AddBibs(marc, rs).records[i] == rs[i]
            || AddBibs(marc, rs).records[i] == WithFields(rs[i], RecordScan(marc, rs[i]).added)
  {
    var init := rs[..|rs| - 1];
    if i < |init| {
      AddBibsRecordAt(marc, init, i);
    }
  }

  /** Nothing already in a record changes: its header stays, whether it has
      metadata stays, its old fields are a prefix of its new ones, and what
      was appended is bib fields, at most one per old identifier/uri field. */
  lemma AddBibsOnlyAppends(marc: seq<MarcRecord>, rs: seq<Record>, i: nat)
    requires i < |rs|
    ensures var r' := AddBibs(marc, rs).records[i];
            && r'.header == rs[i].header
            && (r'.metadata.Some? <==> rs[i].metadata.Some?)
            && (rs[i].metadata.Some? ==>
                  var old_ := rs[i].metadata.value;
                  var new_ := r'.metadata.value;
                  && old_ <= new_
                  && |new_| - |old_| <= HandleCount(old_)
                  && forall j :: |old_| <= j < |new_| ==> IsBibField(new_[j]))
  {
    AddBibsRecordAt(marc, rs, i);
  }

  /** When the enrichment raises nothing, no record's loop raised, and each
      record is its enriched copy. */
  lemma {:induction false} AddBibsNoErrorAt(marc: seq<MarcRecord>, rs: seq<Record>, i: nat)
    requires i < |rs| && AddBibs(marc, rs).error.None?
    ensures RecordScan(marc, rs[i]).error.None?
    ensures AddBibs(marc, rs).records[i] == WithFields(rs[i], RecordScan(marc, rs[i]).added)
  {
    var init := rs[..|rs| - 1];
    if i < |init| {
      AddBibsNoErrorAt(marc, init, i);
      assert init[i] == rs[i];
    }
  }

  /** When the enrichment raises nothing, every record with metadata gets
      exactly one bib field, carrying the first MARC record's bib ID, per
      old field that matches that record, appended after its old fields. */
  lemma AddBibsAppendsMatches(marc: seq<MarcRecord>, rs: seq<Record>, i: nat)
    requires i < |rs| && AddBibs(marc, rs).error.None? && rs[i].metadata.Some?
    ensures AddBibs(marc, rs).records[i].metadata.Some?
    ensures var old_ := rs[i].metadata.value;
            var new_ := AddBibs(marc, rs).records[i].metadata.value;
            && old_ <= new_
            && |new_| == |old_| + MatchCount(marc, old_)
            && forall j :: |old_| <= j < |new_| ==> marc != [] && new_[j] == BibField(marc[0].bibID)
  {
    AddBibsNoErrorAt(marc, rs, i);
    NewBibsCount(marc, rs[i].metadata.value);
  }

  /** With an empty catalogue every lookup returns None: no record changes. */
  lemma {:induction false} EmptyCatalogueAddsNothing(rs: seq<Record>)
    ensures AddBibs([], rs).records == rs
  {
    if rs != [] {
      var init := rs[..|rs| - 1];
      EmptyCatalogueAddsNothing(init);
      var r := rs[|rs| - 1];
      assert RecordScan([], r).added == [];
      if r.metadata.Some? {
        assert r.metadata.value + [] == r.metadata.value;
      }
      assert WithFields(r, []) == r;
      assert rs == init + [r];
    }
  }
}
