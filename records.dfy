/** The parsed OAI-PMH / DSpace `dim` records that every part of the
    reconciliation works on, and the field tests the loops share.

    A Python dictionary lookup that raises `KeyError` becomes a `None`
    here: every attribute the code reads with `[...]` is an `Option`. */
module Records {
  import opened Wrappers

  /** The Python exceptions that the modelled code lets escape. */
  datatype PyException =
    | KeyError(key: string)            // a missing dictionary key
    | UnboundLocalError(name: string)  // a local read before its first assignment
    | TypeError                        // subscripting None (a MARC record without an 856)

  /** One `dim:field` element: `@element`, `@qualifier`, `#text`, `@mdschema`. */
  datatype Field = Field(
    element: Option<string>,
    qualifier: Option<string>,
    text: Option<string>,
    mdschema: Option<string>)

  /** The OAI-PMH `header`: `identifier` and one `setSpec`. */
  datatype Header = Header(identifier: Option<string>, setSpec: Option<string>)

  /** One OAI-PMH `record`; `metadata` is its `dim:field` list. */
  datatype Record = Record(header: Option<Header>, metadata: Option<seq<Field>>)

  /** One MARC record, reduced to its 001 control number and the `u`
      subfield of its 856 field (None when the record has no 856). */
  datatype MarcRecord = MarcRecord(bibID: string, url: Option<string>)

  /** The contributor roles the matching looks at. */
  const Roles: seq<string> := ["chair", "committeeMember", "coChair", "advisor"]

  /** A `contributor` field whose qualifier is one of the recognised roles. */
  predicate IsRoleField(f: Field) {
    f.element == Some("contributor") && f.qualifier.Some? && f.qualifier.value in Roles
  }

  /** An `identifier` field with qualifier `q` (`uri` for handles, `bibID`). */
  predicate IsIdentifier(f: Field, q: string) {
    f.element == Some("identifier") && f.qualifier == Some(q)
  }

  /** Some field of the list is a role field. */
  predicate HasRoleField(fields: seq<Field>) {
    exists i :: 0 <= i < |fields| && IsRoleField(fields[i])
  }

  /** The test both handle loops (EC2MARC.getEChandles and
      eCommonsVIVO.eCommonsAddBibs) apply to one field, before they act on it:
      a field without `@qualifier` is skipped; otherwise `@element` is read
      unguarded, and for an identifier/uri field so is `#text`. */
  function HandleFieldError(f: Field): (r: Option<PyException>)
    ensures r.Some? <==> f.qualifier.Some? && (f.element.None? || (IsIdentifier(f, "uri") && f.text.None?))
  {
    if f.qualifier.None? then None
    else if f.element.None? then Some(KeyError("@element"))
    else if IsIdentifier(f, "uri") && f.text.None? then Some(KeyError("#text"))
    else None
  }
}
