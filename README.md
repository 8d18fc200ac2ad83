# VIVO / eCommons name reconciliation, modelled in Dafny

This project models the matching core of the VIVOreconTesting scripts. They
match the people of a VIVO department graph against the contributor fields
(advisor, chair, co-chair, committee member) of eCommons (DSpace) thesis
records, and they join eCommons handles to the bib IDs of a MARC catalogue.

It covers two source files:

- `eCommonsVIVO.py`:
  - the middle-initial name pattern `midinit_re` (`midinit.dfy`);
  - the scorer `matchingAlgos` (`scorer.dfy`);
  - the role filter `eCommonsRoles` (`roles.dfy`);
  - the reconciliation engine `compareECtoVIVO` (`reconcile.dfy`, with the
    guarded appends in `dedup.dfy`);
  - the bib enrichment `eCommonsAddBibs` and its `matchMARCtoEC(handle)`
    (`addbibs.dfy`).
- `EC2MARC.py`: `getEChandles` and `matchMARCtoEC(matches, marcfile)`
  (`ec2marc.dfy`), on a class `HandleMatches` whose `matches` map is the
  dictionary the two functions mutate.

Parsed XML records are typed datatypes (`records.dfy`). A record has an
optional header and optional metadata, and a field has optional `@element`,
`@qualifier`, `#text` and `@mdschema`. A dictionary lookup that would raise
`KeyError` reads a `None`. An exception that escapes a function becomes the
`Err` of a `Result`, or an `Option<PyException>` returned next to the state
changed before it. A MARC file is a sequence of `MarcRecord(bibID, url)`,
where `url` is the `u` subfield of the 856 field, or `None` when the record
has no 856. Python's `str.strip()` is modelled in `pystr.dfy`.

The loops of the source are Dafny methods with loop invariants. Each is
proved equal to a specification function. Most of these functions are
defined by recursion on a prefix of the input. Two are not:
`EcToMarc.HandleMatches.AssignBib` is proved against the map comprehension
`ApplyUrl` over the dictionary's keys, and `CatalogBibs.MatchMARCtoEC` is
proved against `FirstRecordBib`, which only looks at the first MARC record.
The properties are lemmas about the specification functions.

Three behaviours of the code that a reader may not expect:

- In `compareECtoVIVO`, a record without `header`, `header.identifier`,
  `header.setSpec` or `metadata` is not skipped. The `KeyError` escapes and
  ends the whole comparison (`Reconcile.RecordsHitsFailIff`). Only
  field-level `KeyError`s are caught, one field at a time.
- In `eCommonsRoles`, a record without metadata is not dropped. It is judged
  by the field list of the last earlier record that had metadata
  (`RoleFilter.MissingMetadataReusesPrevious`). When the first record has no
  metadata, the function raises `UnboundLocalError`.
- The two similarity measures are not assumed symmetric, nor to give 100 on
  equal strings. Nothing in the source establishes either. The end-to-end example
  takes the self-score of 100 as an explicit precondition.

## Model

| member | source | states |
|---|---|---|
| MiddleInitial.ParseComplete | eCommonsVIVO.py:23 | every string `g + [c] + tail` is accepted with groups `(g, c)`, where `g` is letters, a comma, spaces, letters and one space, `c` is an ASCII letter, and `tail` is dots, optionally ended by a final newline (Python `$`) |
| MiddleInitial.ParseSound | eCommonsVIVO.py:23 | every accepted string is group1 + initial + a tail of dots, with group1 of that shape and an ASCII-letter initial |
| MiddleInitial.LongMiddleNameRejected | eCommonsVIVO.py:23 | a middle name of two or more letters after a valid group1 is rejected |
| Scorer.MatchingAlgos | eCommonsVIVO.py:159-163 | the score is the larger of the two adjusted scores |
| Scorer.ScoreIsShiftedMax | eCommonsVIVO.py:146-163 | the score is max(raw1, raw2), less 10 exactly when the penalty applies |
| Scorer.PenaltyOnNames | eCommonsVIVO.py:149-152 | two names `g + [c1] + dots` and `g + [c2] + dots` with the same well-shaped group1 `g` are penalised iff their initials differ |
| Scorer.PenaltyDecomposes | eCommonsVIVO.py:149-152 | whenever the penalty applies, both names are one shared well-shaped group1, then two different ASCII-letter initials, then dots |
| Scorer.PenaltySymmetric | eCommonsVIVO.py:149-152 | whether the penalty applies does not depend on argument order |
| Scorer.InitialCollisionExample | eCommonsVIVO.py:149-163 | "Smith, John A." against "Smith, John B." is penalised: raw scores 95 and 93 give 85, below the threshold |
| Scorer.NoPenaltyOnSameName | eCommonsVIVO.py:149-163 | a name never collides with itself; its score is the larger raw score |
| RoleFilter.ECommonsRoles | eCommonsVIVO.py:116-137 | the nested loop with its `break` and its carried `metadata` computes the filter specification `Roles`, error case included |
| RoleFilter.RolesOfWellFormed | eCommonsVIVO.py:121-133 | when every record has metadata, the output is the order-preserving subsequence of the records with a contributor field whose qualifier is a role |
| RoleFilter.RolesFailsIff | eCommonsVIVO.py:122-127 | the filter raises `UnboundLocalError` exactly when the first record has no metadata |
| RoleFilter.WithRolesMembers | eCommonsVIVO.py:131-133 | a record is in the output iff it is an input record with a role field |
| RoleFilter.WithRolesCount | eCommonsVIVO.py:131-133 | each record with roles appears as often as in the input (once per occurrence, because of the `break`), others never |
| RoleFilter.MissingMetadataReusesPrevious | eCommonsVIVO.py:122-127 | a record without metadata after a record with roles is kept, judged by the earlier record's fields |
| Reconcile.LastIdentifier | eCommonsVIVO.py:180-200 | the position of the last `identifier/<q>` field with a text, or -1; no later field qualifies |
| Reconcile.Subjects | eCommonsVIVO.py:188-193 | the subjects are exactly the texts of the `subject` fields |
| Reconcile.ScanFields | eCommonsVIVO.py:172-200 | the first field loop yields the last `identifier/uri` text, every subject text in field order, and the last `identifier/bibID` text (each None or empty when absent) |
| Reconcile.InfoOf | eCommonsVIVO.py:175-179 | the header and metadata lookups succeed iff the header, its identifier and setSpec, and the metadata are present |
| Reconcile.RowsComeFromRecords | eCommonsVIVO.py:172-226 | when every record has a header with identifier and setSpec, and metadata, the comparison succeeds, and every row comes from an input record: it carries that record's last handle, last bibID and subjects (and, for a record row, its header identifier and `[setSpec]`), the qualifier of one of its role fields, and a person scoring above 90 against that field's text |
| Reconcile.AcceptedPairsHaveRows | eCommonsVIVO.py:172-226 | conversely, after a successful comparison, every role field with a text in an input record and every person scoring above 90 against it give both rows, with the record's values |
| Reconcile.ReconciledWellFormed | eCommonsVIVO.py:175-179 | after a successful comparison every input record has a header with identifier and setSpec, and metadata |
| Reconcile.MatchPeople | eCommonsVIVO.py:206-226 | the loop over people appends, each behind its membership guard, the two rows of every person scoring above 90 |
| Reconcile.MatchFields | eCommonsVIVO.py:201-229 | the second field loop does the same for every role field with a text; other fields add nothing |
| Reconcile.CompareECtoVIVO | eCommonsVIVO.py:166-230 | the triple loop computes `Reconciled`, and on success neither list holds a duplicate |
| Reconcile.PeopleHitsMembers | eCommonsVIVO.py:206-208 | a person is accepted for a field iff the person's score against the field text is strictly above 90 |
| Reconcile.FieldsHitsMembers | eCommonsVIVO.py:201-208 | a pair is accepted iff the field is a contributor field with a role qualifier and a text, and the score is above 90 |
| Reconcile.RecordsHitsFailIff | eCommonsVIVO.py:171-179 | the comparison raises iff some record lacks header, identifier, setSpec or metadata (`FirstMalformed` is not -1), and then with the first such record's `KeyError` |
| Reconcile.FirstMalformed | eCommonsVIVO.py:171-179 | the position of the first record lacking header, identifier, setSpec or metadata, or -1; every earlier record is well formed |
| Reconcile.RecordsHitsMembers | eCommonsVIVO.py:171-229 | after a successful comparison, a (record, field, person) triple is accepted iff some input record is well formed and accepts it |
| Reconcile.ReconciledRows | eCommonsVIVO.py:209-226 | both lists are duplicate-free and hold exactly the rows of the accepted triples |
| Reconcile.ReconciledGrows | eCommonsVIVO.py:223-226 | the outputs for a prefix of the records are prefixes of the full outputs: the lists only grow by appending |
| Reconcile.ThresholdBoundary | eCommonsVIVO.py:208 | a score of exactly 90 gives no row; a score of 91 gives one |
| Reconcile.EndToEndExample | eCommonsVIVO.py:166-230 | one person "Smith, John A." and one record with an advisor field of that name give exactly one row in each list, with the expected values |
| Reconcile.NonMatchExample | eCommonsVIVO.py:166-230 | the advisor "Jones, Mary B." with both raw scores at most 90 gives no rows |
| Distinct.Extend | eCommonsVIVO.py:223-226 | guarded appends keep the list duplicate-free, keep the old list as a prefix, and add exactly the new elements |
| Distinct.ExtendConcat | eCommonsVIVO.py:223-226 | guarded appends of `a` then `b` equal guarded appends of `a + b` |
| Distinct.DedupOfDistinct | eCommonsVIVO.py:223-226 | a list without duplicates passes the guards unchanged |
| Distinct.DedupIdempotent | eCommonsVIVO.py:223-226 | removing duplicates twice is removing them once |
| PyStr.StripTrims | EC2MARC.py:15 | `strip` removes whitespace only, and the result neither starts nor ends with whitespace |
| PyStr.StripIdempotent | EC2MARC.py:15 | stripping twice is stripping once |
| PyStr.StripPadded | eCommonsVIVO.py:84 | whitespace around a text that neither starts nor ends with whitespace is exactly what `strip` removes |
| CatalogBibs.MatchMARCtoEC | eCommonsVIVO.py:77-88 | the lookup returns None for an empty catalogue, `TypeError` for a first record without 856, and otherwise the first record's bib ID iff its stripped url equals the stripped handle |
| CatalogBibs.FirstRecordDecides | eCommonsVIVO.py:84-88 | MARC records after the first never change the lookup |
| CatalogBibs.MatchIgnoresSurroundingWhitespace | eCommonsVIVO.py:84 | a handle and a url that differ only in surrounding whitespace match |
| CatalogBibs.BibFor | eCommonsVIVO.py:98-111 | one field raises iff it has a qualifier but no element, or is an identifier/uri field without text, or its lookup raises; it yields the field `{bibID, identifier, <bib ID>, dc}` iff it is an identifier/uri field whose stripped text equals the stripped url of the first MARC record, which has a non-empty bib ID (`MatchesFirst`) |
| CatalogBibs.NewBibs | eCommonsVIVO.py:98-111 | one record's field loop appends at most one bib field per identifier/uri field, all carrying the first MARC record's bib ID |
| CatalogBibs.NewBibsCount | eCommonsVIVO.py:98-111 | without an exception, the loop appends exactly one bib field per field that matches the first MARC record (`MatchCount`) |
| CatalogBibs.BibFieldsAreInert | eCommonsVIVO.py:98-111 | an appended bib field, if visited, would add nothing and raise nothing |
| CatalogBibs.NewBibsFailIff | eCommonsVIVO.py:98-104 | the field loop raises iff some field raises, with the first such field's exception |
| CatalogBibs.AddRecordBibs | eCommonsVIVO.py:96-111 | appends the new fields to one record in place, visiting only the fields present when the loop started, and changes no other record |
| CatalogBibs.ECommonsAddBibs | eCommonsVIVO.py:91-113 | the array after the loop is `AddBibs` of the old array, with the exception that stopped it, if any |
| CatalogBibs.AddBibsAfterError | eCommonsVIVO.py:94-111 | records after the one that raised are left as they are |
| CatalogBibs.AddBibsOnlyAppends | eCommonsVIVO.py:94-111 | every record keeps its header and its old fields as a prefix, and only bib fields are appended, at most one per old identifier/uri field |
| CatalogBibs.AddBibsAppendsMatches | eCommonsVIVO.py:94-111 | without an exception, every record with metadata gets exactly one bib field with the first MARC record's bib ID per old field that matches that record's url |
| CatalogBibs.EmptyCatalogueAddsNothing | eCommonsVIVO.py:79-88 | with an empty MARC file no record changes |
| Records.HandleFieldError | EC2MARC.py:29-33 | a field raises in the handle loops iff it has a qualifier and lacks its element, or is an identifier/uri field without text |
| EcToMarc.FieldHandles | EC2MARC.py:27-33 | one record's field loop only adds keys, every new or changed key is a handle with value "", and without an exception every handle of the list maps to "" |
| EcToMarc.LoadHandlesShape | EC2MARC.py:23-33 | `getEChandles` never removes keys; keys are old with their old values or handles with value ""; without an exception every handle of a record with metadata maps to "" |
| EcToMarc.LoadHandlesResult | EC2MARC.py:23-33 | without an exception, the keys are the old keys plus the handles; handles map to "" and other keys keep their values |
| EcToMarc.LoadHandlesFailIff | EC2MARC.py:25-33 | `getEChandles` raises iff some record with metadata has a malformed field |
| EcToMarc.FieldHandlesFailIff | EC2MARC.py:29-33 | a field loop raises iff one of its fields is malformed |
| EcToMarc.ApplyMarc | EC2MARC.py:10-16 | `matchMARCtoEC` keeps the dictionary's key set |
| EcToMarc.LastMatch | EC2MARC.py:10-16 | the last MARC record with an 856 whose stripped url equals the stripped handle, or -1 |
| EcToMarc.ApplyMarcValue | EC2MARC.py:10-16 | a handle ends with the bib ID of the last matching MARC record, or keeps its value when none matches |
| EcToMarc.ApplyMarcConcat | EC2MARC.py:10-16 | reading two parts of a MARC file in turn is reading the whole file |
| EcToMarc.NoUrlRecordIsInert | EC2MARC.py:12 | a MARC record without an 856 field changes nothing |
| EcToMarc.HandleMatches.constructor | EC2MARC.py:40 | the dictionary starts empty |
| EcToMarc.HandleMatches.GetECHandles | EC2MARC.py:20-34 | the loop computes `LoadHandles` of the old dictionary, exception included |
| EcToMarc.HandleMatches.AssignBib | EC2MARC.py:14-16 | the loop over the keys assigns the bib ID to exactly the matching keys |
| EcToMarc.HandleMatches.MatchMARCtoEC | EC2MARC.py:6-17 | the loop over the MARC records computes `ApplyMarc` of the old dictionary |

## Left out

- `fuzz.ratio` and `strikeamatch.compare_strings` are foreign. They are the two functions of a `Scorer.Similarity` value, returning integers. Nothing is assumed about them.
- Scorer.MatchingAlgos: the second score is `compare_strings(...) * 100`, a Python float. The model uses integer scores, so fractional scores and float rounding are not modelled.
- The diagnostic `print` calls in all functions are left out. They do not affect any result.
- `getVIVOppl` (rdflib network parsing and a JSON dump) is not modelled. Its result enters as a sequence of `(uri, label)` pairs in dictionary iteration order.
- `retrieveECommons` depends on file modification times and the clock, and is not modelled.
- `eCommonsXMLtoDict` (file I/O and xmltodict) is not modelled. The `OAI-PMH/ListRecords/record` and `dim:dim/dim:field` nesting is collapsed into `Record` and its field list.
- A header with several `setSpec` elements is not represented. xmltodict turns them into a list, so the source builds `[[s1, s2]]`; the model's `Header.setSpec` holds one value.
- xmltodict returns a single dictionary, not a list, for a one-element record or field list. The model always uses sequences.
- The CSV writers, the JSON backup in `eCommonsRoles`, and the argparse `main` of both files are file and command-line I/O, and are not modelled.
- `ecommonsharvest.py` (OAI-PMH harvesting over HTTP with retries) is not part of this model.
- `grabNames.py` (network rdflib fetches) is not part of this model.
- Reading MARC files with pymarc is replaced by a sequence of `MarcRecord`. A MARC record without a 001 field, and an 856 field without a `u` subfield, are not represented. In the source, both make `.value()` or `.strip()` raise.
- Idempotent re-run holds trivially, because every specification function is deterministic in its inputs. It is not stated as a separate lemma.
