/** EC2MARC.py: collect every handle of the deposit records as a key of a
    dictionary, then give each key the 001 number of the MARC records whose
    856 URL is the same handle up to surrounding whitespace.

    The dictionary is the `matches` field of a `HandleMatches` object; both
    functions of the source mutate the dictionary they are given and
    return it, so here they are methods that modify that field. */
module EcToMarc {
  import opened Wrappers
  import opened Records
  import PyStr

  // ---------------------------------------------------------------------
  // getEChandles

  /** The dictionary after a field loop, and the exception, if any, that ended it. */
  datatype Loaded = Loaded(matches: map<string, string>, error: Option<PyException>)

  /** Some field of the list is an identifier/uri field with text `k`. */
  predicate HandleAmong(fields: seq<Field>, k: string) {
    exists j :: 0 <= j < |fields| && IsIdentifier(fields[j], "uri") && fields[j].text == Some(k)
  }

  /** Some record with metadata has a handle field with text `k`. */
  predicate IsHandleIn(records: seq<Record>, k: string) {
    exists i :: 0 <= i < |records| && records[i].metadata.Some? && HandleAmong(records[i].metadata.value, k)
  }

  /** The field loop of `getEChandles` over one record's fields, starting
      from dictionary `m`.  Keys are only added or reset to "", and when the
      loop raises nothing every handle of the list maps to "". */
  function FieldHandles(m: map<string, string>, fields: seq<Field>): (r: Loaded)
    ensures m.Keys <= r.matches.Keys
    ensures forall k :: k in r.matches ==>
              (k in m && r.matches[k] == m[k]) || (HandleAmong(fields, k) && r.matches[k] == "")
    ensures r.error.None? ==> forall k :: HandleAmong(fields, k) ==> k in r.matches && r.matches[k] == ""
    ensures r.error.Some? ==> exists j :: 0 <= j < |fields| && HandleFieldError(fields[j]) == r.error
  {
    if fields == [] then Loaded(m, None)
    else
      var init := fields[..|fields| - 1];
      var f := fields[|fields| - 1];
      var p := FieldHandles(m, init);
      HandleAmongSnoc(fields);
      if p.error.Some? then
        assert forall j :: 0 <= j < |init| ==> fields[j] == init[j];
        p
      else if HandleFieldError(f).Some? then Loaded(p.matches, HandleFieldError(f))
      else if IsIdentifier(f, "uri") then Loaded(p.matches[f.text.value := ""], None)
      else p
  }

  /** The handles of a list are those of all but its last field, and the
      last field's text if it is a handle field. */
  lemma HandleAmongSnoc(fields: seq<Field>)
    requires fields != []
    ensures var init := fields[..|fields| - 1];
            var f := fields[|fields| - 1];
            forall k :: HandleAmong(fields, k) <==>
                          HandleAmong(init, k) || (IsIdentifier(f, "uri") && f.text == Some(k))
  {
    var init := fields[..|fields| - 1];
    var f := fields[|fields| - 1];
    forall k ensures HandleAmong(fields, k) <==> HandleAmong(init, k) || (IsIdentifier(f, "uri") && f.text == Some(k)) {
      if HandleAmong(fields, k) {
        var j :| 0 <= j < |fields| && IsIdentifier(fields[j], "uri") && fields[j].text == Some(k);
        if j < |init| { assert init[j] == fields[j]; }
      }
      if HandleAmong(init, k) {
        var j :| 0 <= j < |init| && IsIdentifier(init[j], "uri") && init[j].text == Some(k);
        assert fields[j] == init[j];
      }
      if IsIdentifier(f, "uri") && f.text == Some(k) {
        assert fields[|fields| - 1] == f;
      }
    }
  }

  /** One record: a record without metadata is skipped. */
  function RecordHandles(m: map<string, string>, r: Record): Loaded {
    if r.metadata.None? then Loaded(m, None) else FieldHandles(m, r.metadata.value)
  }

  /** `getEChandles(eCommonsDict, matchesDict)`, as a function of the
      starting dictionary: records are visited in order and the first
      exception ends the loop, keeping the keys added before it. */
  function LoadHandles(m: map<string, string>, records: seq<Record>): Loaded {
    if records == [] then Loaded(m, None)
    else
      var p := LoadHandles(m, records[..|records| - 1]);
      if p.error.Some? then p else RecordHandles(p.matches, records[|records| - 1])
  }

  /** The key set only grows, every key is either old with its old value or
      a handle mapped to "", and without an exception every handle of a
      record with metadata is a key with value "". */
  lemma {:induction false} LoadHandlesShape(m: map<string, string>, records: seq<Record>)
    ensures var r := LoadHandles(m, records);
            && m.Keys <= r.matches.Keys
            && (forall k :: k in r.matches ==>
                  (k in m && r.matches[k] == m[k]) || (IsHandleIn(records, k) && r.matches[k] == ""))
            && (r.error.None? ==> forall k :: IsHandleIn(records, k) ==> k in r.matches && r.matches[k] == "")
  {
    if records != [] {
      var init := records[..|records| - 1];
      var last := records[|records| - 1];
      LoadHandlesShape(m, init);
      assert forall k :: IsHandleIn(init, k) ==> IsHandleIn(records, k) by {
        forall k | IsHandleIn(init, k) ensures IsHandleIn(records, k) {
          var i :| 0 <= i < |init| && init[i].metadata.Some? && HandleAmong(init[i].metadata.value, k);
          assert records[i] == init[i];
        }
      }
      assert last.metadata.Some? ==> forall k :: HandleAmong(last.metadata.value, k) ==> IsHandleIn(records, k);
      assert forall k :: IsHandleIn(records, k) ==>
               IsHandleIn(init, k) || (last.metadata.Some? && HandleAmong(last.metadata.value, k)) by {
        forall k | IsHandleIn(records, k)
          ensures IsHandleIn(init, k) || (last.metadata.Some? && HandleAmong(last.metadata.value, k))
        {
          var i :| 0 <= i < |records| && records[i].metadata.Some? && HandleAmong(records[i].metadata.value, k);
          if i < |init| { assert init[i] == records[i]; }
        }
      }
    }
  }

  /** Without an exception the dictionary is exactly the old one with every
      handle added (or reset) with value "". */
  lemma LoadHandlesResult(m: map<string, string>, records: seq<Record>)
    requires LoadHandles(m, records).error.None?
    ensures var r := LoadHandles(m, records).matches;
            && (forall k :: k in r <==> k in m || IsHandleIn(records, k))
            && (forall k :: k in r ==> r[k] == if IsHandleIn(records, k) then "" else m[k])
  {
    LoadHandlesShape(m, records);
  }

  /** The loop raises exactly when some field of a record with metadata has
      a `@qualifier` but no `@element`, or is an identifier/uri field without
      `#text`. */
  lemma {:induction false} LoadHandlesFailIff(m: map<string, string>, records: seq<Record>)
    ensures LoadHandles(m, records).error.Some? <==>
              exists i :: 0 <= i < |records| && records[i].metadata.Some? && MalformedAmong(records[i].metadata.value)
  {
    if records != [] {
      var init := records[..|records| - 1];
      LoadHandlesFailIff(m, init);
      var p := LoadHandles(m, init);
      assert forall i :: 0 <= i < |init| ==> init[i] == records[i];
      var last := records[|records| - 1];
      if p.error.None? && last.metadata.Some? {
        FieldHandlesFailIff(p.matches, last.metadata.value);
      }
    }
  }

  /** Some field of the list makes the handle loop raise. */
  predicate MalformedAmong(fields: seq<Field>) {
    exists j :: 0 <= j < |fields| && HandleFieldError(fields[j]).Some?
  }

  lemma {:induction false} FieldHandlesFailIff(m: map<string, string>, fields: seq<Field>)
    ensures FieldHandles(m, fields).error.Some? <==> MalformedAmong(fields)
  {
    if fields != [] {
      var init := fields[..|fields| - 1];
      FieldHandlesFailIff(m, init);
      assert forall j :: 0 <= j < |init| ==> init[j] == fields[j];
    }
  }

  /** One field more. */
  lemma FieldHandlesStep(m: map<string, string>, fields: seq<Field>, k: nat)
    requires k < |fields|
    ensures var p := FieldHandles(m, fields[..k]);
            var f := fields[k];
            FieldHandles(m, fields[..k + 1])
            == if p.error.Some? then p
               else if HandleFieldError(f).Some? then Loaded(p.matches, HandleFieldError(f))
               else if IsIdentifier(f, "uri") then Loaded(p.matches[f.text.value := ""], None)
               else p
  {
    assert fields[..k + 1][..k] == fields[..k];
  }

  /** One record more. */
  lemma LoadHandlesStep(m: map<string, string>, records: seq<Record>, n: nat)
    requires n < |records|
    ensures var p := LoadHandles(m, records[..n]);
            LoadHandles(m, records[..n + 1])
            == if p.error.Some? then p else RecordHandles(p.matches, records[n])
  {
    assert records[..n + 1][..n] == records[..n];
  }

  /** Once a field has raised, later fields are not looked at. */
  lemma {:induction false} FieldHandlesAfterError(m: map<string, string>, fields: seq<Field>, n: nat)
    requires n <= |fields|
    requires FieldHandles(m, fields[..n]).error.Some?
    ensures FieldHandles(m, fields) == FieldHandles(m, fields[..n])
    decreases |fields| - n
  {
    if n == |fields| {
      assert fields[..n] == fields;
    } else {
      assert fields[..n + 1][..n] == fields[..n];
      FieldHandlesAfterError(m, fields, n + 1);
    }
  }

  /** Once a record has raised, later records are not looked at. */
  lemma {:induction false} LoadHandlesAfterError(m: map<string, string>, records: seq<Record>, n: nat)
    requires n <= |records|
    requires LoadHandles(m, records[..n]).error.Some?
    ensures LoadHandles(m, records) == LoadHandles(m, records[..n])
    decreases |records| - n
  {
    if n == |records| {
      assert records[..n] == records;
    } else {
      assert records[..n + 1][..n] == records[..n];
      LoadHandlesAfterError(m, records, n + 1);
    }
  }

  // ---------------------------------------------------------------------
  // matchMARCtoEC

  /** `handle.strip() == bibURL.strip()`. */
  predicate SameUrl(handle: string, url: string) {
    PyStr.Strip(handle) == PyStr.Strip(url)
  }

  /** The loop over the keys for one MARC record with an 856 URL: every key
      equal to the URL after stripping gets the record's bib ID. */
  function ApplyUrl(m: map<string, string>, bib: string, url: string): (r: map<string, string>)
    ensures r.Keys == m.Keys
  {
    map k | k in m :: if SameUrl(k, url) then bib else m[k]
  }

  /** `ApplyUrl` restricted to the keys of `done`: the dictionary part way
      through the loop over the keys. */
  ghost function ApplyUrlTo(m: map<string, string>, done: set<string>, bib: string, url: string): map<string, string> {
    map k | k in m :: if k in done && SameUrl(k, url) then bib else m[k]
  }

  lemma ApplyUrlToStep(m: map<string, string>, done: set<string>, h: string, bib: string, url: string)
    requires h in m && h !in done
    ensures ApplyUrlTo(m, done + {h}, bib, url)
            == if SameUrl(h, url) then ApplyUrlTo(m, done, bib, url)[h := bib] else ApplyUrlTo(m, done, bib, url)
  {
  }

  lemma ApplyUrlToAll(m: map<string, string>, bib: string, url: string)
    ensures ApplyUrlTo(m, m.Keys, bib, url) == ApplyUrl(m, bib, url)
  {
  }

  /** `matchMARCtoEC(matches, marcfile)` as a function of the starting dictionary. */
  function ApplyMarc(m: map<string, string>, marc: seq<MarcRecord>): (r: map<string, string>)
    ensures r.Keys == m.Keys
  {
    if marc == [] then m
    else
      var p := ApplyMarc(m, marc[..|marc| - 1]);
      var rec := marc[|marc| - 1];
      if rec.url.Some? then ApplyUrl(p, rec.bibID, rec.url.value) else p
  }

  /** One MARC record more. */
  lemma ApplyMarcStep(m: map<string, string>, marc: seq<MarcRecord>, n: nat)
    requires n < |marc|
    ensures ApplyMarc(m, marc[..n + 1])
            == if marc[n].url.Some? then ApplyUrl(ApplyMarc(m, marc[..n]), marc[n].bibID, marc[n].url.value)
               else ApplyMarc(m, marc[..n])
  {
    assert marc[..n + 1][..n] == marc[..n];
  }

  /** MARC record `rec` has an 856 URL equal to `k` after stripping both. */
  predicate MatchesHandle(rec: MarcRecord, k: string) {
    rec.url.Some? && SameUrl(k, rec.url.value)
  }

  /** The position of the last MARC record that matches handle `k`, or -1. */
  function LastMatch(marc: seq<MarcRecord>, k: string): (i: int)
    ensures -1 <= i < |marc|
    ensures i >= 0 ==> MatchesHandle(marc[i], k)
    ensures forall j :: i < j < |marc| ==> !MatchesHandle(marc[j], k)
  {
    if marc == [] then -1
    else if MatchesHandle(marc[|marc| - 1], k) then |marc| - 1
    else
      var init := marc[..|marc| - 1];
      assert forall j :: 0 <= j < |init| ==> init[j] == marc[j];
      LastMatch(init, k)
  }

  /** Last write wins: a handle ends with the bib ID of the last matching
      MARC record, or keeps its value when none matches. */
  lemma {:induction false} ApplyMarcValue(m: map<string, string>, marc: seq<MarcRecord>, k: string)
    requires k in m
    ensures ApplyMarc(m, marc)[k] == if LastMatch(marc, k) >= 0 then marc[LastMatch(marc, k)].bibID else m[k]
  {
    if marc != [] {
      ApplyMarcValue(m, marc[..|marc| - 1], k);
    }
  }

  /** Running over two catalogue parts in turn is running over both. */
  lemma {:induction false} ApplyMarcConcat(m: map<string, string>, a: seq<MarcRecord>, b: seq<MarcRecord>)
    ensures ApplyMarc(ApplyMarc(m, a), b) == ApplyMarc(m, a + b)
  {
    if b == [] {
      assert a + b == a;
    } else {
      var b' := b[..|b| - 1];
      ApplyMarcConcat(m, a, b');
      assert (a + b)[..|a + b| - 1] == a + b';
    }
  }

  /** A MARC record without an 856 field changes nothing. */
  lemma NoUrlRecordIsInert(m: map<string, string>, a: seq<MarcRecord>, rec: MarcRecord, b: seq<MarcRecord>)
    requires rec.url.None?
    ensures ApplyMarc(m, a + [rec] + b) == ApplyMarc(m, a + b)
  {
    ApplyMarcConcat(m, a + [rec], b);
    ApplyMarcConcat(m, a, b);
    assert (a + [rec])[..|a|] == a;
  }

  /** The dictionary `main` passes through both steps. */
  class HandleMatches {
    var matches: map<string, string>

    /** `matches = {}`. */
    constructor ()
      ensures matches == map[]
    {
      matches := map[];
    }

    /** `getEChandles(eCommonsDict, matchesDict)`: adds every handle as a key
        with value ""; an exception leaves the keys added before it. */
    method GetECHandles(records: seq<Record>) returns (err: Option<PyException>)
      modifies this
      ensures Loaded(matches, err) == LoadHandles(old(matches), records)
    {
      ghost var m0 := matches;
      err := None;
      var n := 0;
      while n < |records|
        invariant 0 <= n <= |records|
        invariant LoadHandles(m0, records[..n]) == Loaded(matches, None)
        invariant err == None
      {
        var record := records[n];
        LoadHandlesStep(m0, records, n);
        if record.metadata.Some? {
          var metadata := record.metadata.value;
          ghost var before := matches;
          var m := 0;
          while m < |metadata|
            invariant 0 <= m <= |metadata|
            invariant FieldHandles(before, metadata[..m]) == Loaded(matches, None)
          {
            var field := metadata[m];
            FieldHandlesStep(before, metadata, m);
            if field.qualifier.Some? {
              if field.element.None? {
                err := Some(KeyError("@element"));
                FieldHandlesAfterError(before, metadata, m + 1);
                LoadHandlesAfterError(m0, records, n + 1);
                return;
              }
              if field.element == Some("identifier") && field.qualifier == Some("uri") {
                if field.text.None? {
                  err := Some(KeyError("#text"));
                  FieldHandlesAfterError(before, metadata, m + 1);
                  LoadHandlesAfterError(m0, records, n + 1);
                  return;
                }
                matches := matches[field.text.value := ""];
              }
            }
            m := m + 1;
          }
          assert metadata[..|metadata|] == metadata;
        }
        n := n + 1;
      }
      assert records[..|records|] == records;
    }

    /** The loop over `matches.keys()` for one MARC record: assigning to
        existing keys while iterating leaves the key set alone, and each key
        is visited once, in an order that does not matter. */
    method AssignBib(bibID: string, bibURL: string)
      modifies this
      ensures matches == ApplyUrl(old(matches), bibID, bibURL)
    {
      ghost var before := matches;
      var keys := matches.Keys;
      ghost var done: set<string> := {};
      while keys != {}
        invariant done <= before.Keys && keys == before.Keys - done
        invariant matches == ApplyUrlTo(before, done, bibID, bibURL)
        decreases keys
      {
        var handle :| handle in keys;
        ApplyUrlToStep(before, done, handle, bibID, bibURL);
        if SameUrl(handle, bibURL) {
          matches := matches[handle := bibID];
        }
        keys := keys - {handle};
        done := done + {handle};
      }
      ApplyUrlToAll(before, bibID, bibURL);
    }

    /** `matchMARCtoEC(matches, marcfile)`: for each MARC record with an 856
        field, every key equal to its URL after stripping gets its bib ID. */
    method MatchMARCtoEC(marc: seq<MarcRecord>)
      modifies this
      ensures matches == ApplyMarc(old(matches), marc)
    {
      ghost var m0 := matches;
      for n := 0 to |marc|
        invariant matches == ApplyMarc(m0, marc[..n])
      {
        ApplyMarcStep(m0, marc, n);
        var record := marc[n];
        var bibID := record.bibID;
        if record.url.Some? {
          var bibURL := record.url.value;
          AssignBib(bibID, bibURL);
        }
      }
      assert marc[..|marc|] == marc;
    }
  }
}
