/** `eCommonsRoles` of eCommonsVIVO.py: keep, in order, the records that
    have a contributor field with one of the recognised roles.

    The loop reads `record['metadata']` in a `try` whose `except KeyError`
    only passes, so a record without metadata is judged by the field
    list of the last earlier record that had one (and is kept if that list
    has a role field); if the first record has no metadata the local
    `metadata` is unbound and the function raises.  The model keeps both
    behaviours; `RolesOfWellFormed` states the filter for inputs in which
    every record has metadata. */
module RoleFilter {
  import opened Wrappers
  import opened Records

  /** The value of the local `metadata` after the loop body has run for
      `records[..n]`: the field list of the last of them that has one. */
  function CarriedMetadata(records: seq<Record>, n: nat): Option<seq<Field>>
    requires n <= |records|
  {
    if n == 0 then None
    else if records[n - 1].metadata.Some? then records[n - 1].metadata
    else CarriedMetadata(records, n - 1)
  }

  /** What the loop has appended after the first `n` records, or the
      exception it raised. */
  function RolesPrefix(records: seq<Record>, n: nat): Result<seq<Record>, PyException>
    requires n <= |records|
  {
    if n == 0 then Ok([])
    else
      match RolesPrefix(records, n - 1)
      case Err(e) => Err(e)
      case Ok(kept) =>
        match CarriedMetadata(records, n)
        case None => Err(UnboundLocalError("metadata"))
        case Some(fields) =>
          Ok(if HasRoleField(fields) then kept + [records[n - 1]] else kept)
  }

  function Roles(records: seq<Record>): Result<seq<Record>, PyException> {
    RolesPrefix(records, |records|)
  }

  /** A record the filter should keep: it has metadata with a role field. */
  predicate HasRoles(r: Record) {
    r.metadata.Some? && HasRoleField(r.metadata.value)
  }

  /** The order-preserving subsequence of the records that have roles. */
  function WithRoles(records: seq<Record>): (r: seq<Record>)
    ensures |r| <= |records|
  {
    if records == [] then []
    else
      var kept := WithRoles(records[..|records| - 1]);
      if HasRoles(records[|records| - 1]) then kept + [records[|records| - 1]] else kept
  }

  /** The loop of the source: the outer loop over records, the inner loop
      over the fields of the current `metadata`, appending the record and
      leaving the inner loop at the first role field. */
  method ECommonsRoles(records: seq<Record>) returns (r: Result<seq<Record>, PyException>)
    ensures r == Roles(records)
  {
    var subset: seq<Record> := [];
    var metadata: Option<seq<Field>> := None;   // unbound until first assigned
    var n := 0;
    while n < |records|
      invariant 0 <= n <= |records|
      invariant metadata == CarriedMetadata(records, n)
      invariant RolesPrefix(records, n) == Ok(subset)
    {
      var record := records[n];
      if record.metadata.Some? {
        metadata := record.metadata;
      }
      if metadata.None? {
        RolesFailsIff(records, n + 1);
        RolesFailsIff(records, |records|);
        return Err(UnboundLocalError("metadata"));
      }
      var fields := metadata.value;
      var m := 0;
      var found := false;
      while m < |fields|
        invariant 0 <= m <= |fields|
        invariant !found ==> forall i :: 0 <= i < m ==> !IsRoleField(fields[i])
        invariant found ==> HasRoleField(fields)
        decreases |fields| - m, !found
      {
        if IsRoleField(fields[m]) {
          subset := subset + [record];
          found := true;
          break;
        }
        m := m + 1;
      }
      n := n + 1;
    }
    return Ok(subset);
  }

  /** When every record has metadata, the result is the records with roles, in order. */
  lemma {:induction false} RolesOfWellFormed(records: seq<Record>, n: nat)
    requires n <= |records|
    requires forall i :: 0 <= i < |records| ==> records[i].metadata.Some?
    ensures RolesPrefix(records, n) == Ok(WithRoles(records[..n]))
  {
    if n > 0 {
      RolesOfWellFormed(records, n - 1);
      assert records[..n][..n - 1] == records[..n - 1];
    }
  }

  /** The error case: the filter raises exactly when the first record has no metadata. */
  lemma {:induction false} RolesFailsIff(records: seq<Record>, n: nat)
    requires n <= |records|
    ensures RolesPrefix(records, n).Err? <==> (n > 0 && records[0].metadata.None?)
    ensures RolesPrefix(records, n).Err? ==> RolesPrefix(records, n).error == UnboundLocalError("metadata")
    ensures (n > 0 && records[0].metadata.Some?) ==> CarriedMetadata(records, n).Some?
  {
    if n > 0 {
      RolesFailsIff(records, n - 1);
    }
  }

  /** A record is in the filtered list exactly when it is one of the input
      records and has roles. */
  lemma {:induction false} WithRolesMembers(records: seq<Record>, x: Record)
    ensures x in WithRoles(records) <==> x in records && HasRoles(x)
  {
    if records != [] {
      var init := records[..|records| - 1];
      WithRolesMembers(init, x);
      assert records == init + [records[|records| - 1]];
    }
  }

  /** Each record with roles appears in the output as often as in the
      input, and no other record appears (the `break` appends it once). */
  lemma {:induction false} WithRolesCount(records: seq<Record>, x: Record)
    ensures multiset(WithRoles(records))[x] == if HasRoles(x) then multiset(records)[x] else 0
  {
    if records != [] {
      var init := records[..|records| - 1];
      WithRolesCount(init, x);
      assert records == init + [records[|records| - 1]];
    }
  }

  /** The metadata quirk: a record without metadata that follows a record
      with a role field is kept, as if it had that record's fields. */
  lemma MissingMetadataReusesPrevious(a: Record, b: Record)
    requires HasRoles(a) && b.metadata.None?
    ensures Roles([a, b]) == Ok([a, b])
  {
    var rs := [a, b];
    assert CarriedMetadata(rs, 1) == a.metadata;
    assert HasRoleField(CarriedMetadata(rs, 1).value);
    assert [] + [rs[0]] == [a];
    assert RolesPrefix(rs, 1) == Ok([a]);
    assert CarriedMetadata(rs, 2) == a.metadata;
    assert [a] + [rs[1]] == rs;
  }
}
