# AVCP bulletin extraction: a Dafny model

This project models the extraction core of `portaletrasparenza-avcp-scraper.py`.
The script reads the monthly AVCP procurement bulletins published by an Italian
public body and turns each `lotto` (lot) into database rows:

- a contract row;
- the proposing agency (`strutturaProponente`);
- the winning vendor (`aggiudicatario`) and/or the winning consortium
  (`aggiudicatarioRaggruppamento`).

Vendors, agencies and consortia ("aggregate vendors") are deduplicated by
fiscal code. The first name seen for a code becomes its canonical name. Every
later, different spelling becomes an alternate-name row.

Rows reach the database through a per-table write buffer that holds at most
10000 rows. The buffer keeps a code -> name cache for vendors, for agencies
and for aggregate vendors. The name lookups consult that cache first and then
storage. When the vendor or agency buffer is written out automatically, its
cache is reset. The aggregate cache is never reset.

The model threads one immutable state value, `RecordBuffer.Db`, through pure
functions. `Db` holds the pending buffer and the stored rows of each table,
plus the three caches. The modules follow the script's structure:

- `Records`: the eight tables and the row shapes written to them.
- `RecordBuffer`: `buffered_insert`, `flush_table_buffer` and the final flush sequence.
- `Identity`: the three `get_*_name` lookups and the run invariant `Valid`.
- `Resolver`: `add_vendor` and `add_agency`.
- `Aggregate`: `add_aggregate_vendor`.
- `Dates`: `iso_pubblication_date` and `xml_filename`.
- `Extractor`: the per-lot body of `extract_data_from_file` and the run of `extract_data`.
- `Strings`: `str()` on integers, `'%02d'`, joining, and Python's string order.
- `Wrappers`: `Option` and `Result`.

Central notions:

- `Submitted(db, t)` is every row ever handed to table `t`, in order: the
  stored rows followed by the pending ones.
- `Valid(db)` is the run invariant. It holds four facts:
  - every buffer holds at most 10000 rows;
  - canonical codes are unique per kind;
  - every cached name is the name of the canonical row submitted for that code;
  - every pending canonical row is cached.
- `Identity.LookupSound` shows the consequence of `Valid`. Under it, a lookup
  answers exactly what a scan of all submitted rows would answer. So no code is
  ever forgotten, because a buffer is written to storage before its cache is
  reset.
- `Extractor.Referenced(db)` is referential integrity. Every contract row names
  a known agency, every winner row a known vendor, and every aggregate-winner
  row a known aggregate.

The `assert(False)` of `add_aggregate_vendor` becomes a `Failure` result.
`Extractor.ExtractDataSucceeds` proves that no run can reach it.

## Model

| member | source | states |
|---|---|---|
| `Dates.IsoPublicationDate` | portaletrasparenza-avcp-scraper.py:96-97 | for a month in 1..12: the year's decimal text, then the separator, then exactly two digits whose value is the month |
| `Dates.IsoDateRoundTrip` | portaletrasparenza-avcp-scraper.py:96-97 | splitting the date at the separator's length reads back the same year and month, so the date loses nothing |
| `Dates.XmlFilename` | portaletrasparenza-avcp-scraper.py:99-103 | "avcp_contracts_", then the date with separator "_", then ".xml" for closed tenders or "_open.xml" for open ones |
| `Dates.ClosedDiffersFromOpen` | portaletrasparenza-avcp-scraper.py:99-103 | a closed-tender file name never equals an open-tender file name |
| `Dates.XmlFilenameInjective` | portaletrasparenza-avcp-scraper.py:99-103 | distinct (year, month, closed) triples with valid months name distinct files |
| `Strings.IntToStringRoundTrip` | portaletrasparenza-avcp-scraper.py:97 | `str()` of an integer, read back as a decimal, gives the same integer |
| `Strings.JoinAgreesWithHead` | portaletrasparenza-avcp-scraper.py:318-330 | the two formulations of the join agree: `Join`, which extends the text one part at a time as the `first_item` loop does, equals the right-recursive `JoinFromHead` |
| `RecordBuffer.BufferedInsert` | portaletrasparenza-avcp-scraper.py:155-193 | the row is appended to its table's submitted rows and no other table changes; below the threshold it waits in the buffer; past 10000 pending rows the whole buffer goes to storage and the buffer empties; only vendor and agency caches are reset on that write, the aggregate cache only ever gains the entry |
| `RecordBuffer.FlushTable` | portaletrasparenza-avcp-scraper.py:197-202 | the table's buffer is empty and its storage holds every submitted row; other tables and all caches are unchanged |
| `RecordBuffer.FlushAll` | portaletrasparenza-avcp-scraper.py:451-458 | after the eight final flushes no table has a pending row, each table's storage is its submitted rows, and the caches are unchanged |
| `RecordBuffer.InsertAllKeepsOrder` | portaletrasparenza-avcp-scraper.py:165-185 | submitting rows to one table keeps every one of them, in submission order, across any number of automatic writes |
| `RecordBuffer.InsertAllPending` | portaletrasparenza-avcp-scraper.py:183-186 | after n submissions to a buffer holding b rows, (b + n) mod 10001 rows are pending |
| `RecordBuffer.ContractsFlushScenario` | portaletrasparenza-avcp-scraper.py:183-186 | the 10001st contract row triggers the automatic write: all 10001 rows are stored, in order, before and after the final flush |
| `Identity.FindName` | portaletrasparenza-avcp-scraper.py:208-213 | `find_one` on storage: nothing exactly when no canonical row has the code; otherwise the name of one that has it |
| `Identity.FindNameFirst` | portaletrasparenza-avcp-scraper.py:209-214 | `find_one` returns the name of the first row, in storage order, that carries the code |
| `Identity.LookupAnswers` | portaletrasparenza-avcp-scraper.py:204-239 | a cached code answers its cached name; otherwise the answer is nothing exactly when no stored row carries the code, and else the name of the first stored row that does; pending rows are never consulted |
| `Identity.LookupSound` | portaletrasparenza-avcp-scraper.py:204-239 | under the run invariant, cache-then-storage lookup equals a scan of every row ever submitted to the entity's table |
| `Identity.ValidInsert` | portaletrasparenza-avcp-scraper.py:155-193 | submitting a row that is not a second canonical row for a known code keeps the run invariant, including across an automatic write and cache reset |
| `Identity.LookupStable` | portaletrasparenza-avcp-scraper.py:170-193 | after such a submission every known code keeps its name, and a new canonical row's code now has that row's name |
| `Identity.FlushAllValid` | portaletrasparenza-avcp-scraper.py:451-458 | the final flushes keep the run invariant |
| `Identity.FlushAllKeepsLookups` | portaletrasparenza-avcp-scraper.py:451-458 | the final flushes change no lookup's answer |
| `Resolver.Resolve` | portaletrasparenza-avcp-scraper.py:241-308 | a new code gets exactly one canonical row and no alternate name; a known code under another name gets exactly one alternate-name row, with canonical rows and caches untouched; a known code under its canonical name changes nothing; no other table is touched |
| `Resolver.AddVendor` | portaletrasparenza-avcp-scraper.py:241-276 | when the lookup finds nothing, exactly one vendor row is appended, with the given name or "NoneVendorName" + code and "NOT ITALY" when foreign, "ITALY" otherwise; when it finds a name, no vendor row is appended and one alternate-name row is appended exactly when the name differs (`ResolutionEffect`); only the two vendor tables change |
| `Resolver.AddAgency` | portaletrasparenza-avcp-scraper.py:278-308 | the same rule for agencies: a canonical row with the given name or "NoneAgencyName" + code when the lookup finds nothing, otherwise an alternate-name row exactly when the name differs; only the two agency tables change |
| `Resolver.ResolveInvariant` | portaletrasparenza-avcp-scraper.py:250-276 | resolution keeps the run invariant, and afterwards the code's name is its earlier canonical name or, if new, the observed name |
| `Resolver.ResolveKeepsKnown` | portaletrasparenza-avcp-scraper.py:241-308 | no code of any kind that had a name loses it or changes it |
| `Resolver.ResolveKeepsOthers` | portaletrasparenza-avcp-scraper.py:253-276 | every other code, known or not, looks up exactly as before |
| `Resolver.BatchOutcomeAppend` | portaletrasparenza-avcp-scraper.py:255-276 | what a sequence of `add_vendor` calls records splits at any point, the second part continuing from the names the first part taught |
| `Resolver.ResolveVendorsOutcome` | portaletrasparenza-avcp-scraper.py:241-276 | a sequence of `add_vendor` calls appends exactly the vendor rows and alternate-name rows that `BatchOutcome` computes from the state before the first call (a code's first call decides its canonical name and country, each later call under another name adds an alternate name), keeps the run invariant, and leaves every code with its earlier name or the name of its first call |
| `Resolver.AtMostOneCanonical` | portaletrasparenza-avcp-scraper.py:255-267 | under the run invariant at most one canonical row per code and kind has ever been submitted |
| `Resolver.ResolveTwice` | portaletrasparenza-avcp-scraper.py:255-300 | resolving the same new (code, name) twice yields exactly one canonical row, no alternate-name row, and the second call changes nothing |
| `Resolver.AlternateNamesRepeat` | portaletrasparenza-avcp-scraper.py:269-276 | alternate names are not deduplicated: the same different name twice yields two identical alternate-name rows, and the canonical name stays |
| `Resolver.AlternateNameExample` | portaletrasparenza-avcp-scraper.py:255-276 | "Alpha SRL" then "Alpha S.r.l." for one code: one canonical row with the first name, one alternate-name row with the second |
| `Resolver.PlaceholderExample` | portaletrasparenza-avcp-scraper.py:284-285 | an agency "ND" with no name is recorded as "NoneAgencyNameND" |
| `Aggregate.SortedCodes` | portaletrasparenza-avcp-scraper.py:314 | the member codes in ascending order, as the same multiset of codes |
| `Aggregate.SortByCodeSorted` | portaletrasparenza-avcp-scraper.py:314 | the insertion sort by code yields members ordered by code |
| `Aggregate.SortedUnique` | portaletrasparenza-avcp-scraper.py:314 | two ascending sequences with the same codes are equal, so the sorted order is unique |
| `Aggregate.ComposeIdentity` | portaletrasparenza-avcp-scraper.py:318-330 | success exactly when every code has a canonical vendor name; then the codes joined with "-" and the names joined with " \| " in the same order; otherwise the first code without a name |
| `Aggregate.ComposeFirstUnknown` | portaletrasparenza-avcp-scraper.py:323-325 | the failure names the first member, in sorted order, that has no canonical name |
| `Aggregate.BuildIdentity` | portaletrasparenza-avcp-scraper.py:315-330 | the script's loop with its `first_item` flag, which stops at the first unknown member, computes the same result as `ComposeIdentity` |
| `Aggregate.AggregateIdentity` | portaletrasparenza-avcp-scraper.py:314-330 | success exactly when every member is known; the code is the sorted codes joined with "-"; the name is their names joined with " \| "; a failure names a member without a name |
| `Aggregate.AddAggregateVendor` | portaletrasparenza-avcp-scraper.py:310-345 | the assert fires exactly when a member is unknown, and then nothing is buffered; otherwise it returns the sorted codes joined with "-"; a known aggregate code changes nothing; a new one appends exactly one aggregate row with the joined names; no other table changes |
| `Aggregate.AddAggregateVendorRows` | portaletrasparenza-avcp-scraper.py:335-343 | on success the aggregate-vendor rows appended are exactly `NewAggregateRows`: one row with the sorted codes joined with "-" and the names joined with " \| " when that code has no name yet, none otherwise |
| `Aggregate.AddAggregateInvariant` | portaletrasparenza-avcp-scraper.py:335-343 | building an aggregate keeps the run invariant, makes its code known, and forgets no code |
| `Aggregate.IdentityDependsOnlyOnCodes` | portaletrasparenza-avcp-scraper.py:314-330 | members with the same multiset of codes, in any order and with any roles, give the same identity and the same effect |
| `Aggregate.IdentityPermutationInvariant` | portaletrasparenza-avcp-scraper.py:314-345 | any permutation of the member list gives the same code, name and effect |
| `Aggregate.TwoMemberOrder` | portaletrasparenza-avcp-scraper.py:314-330 | members listed larger code first give the code "smaller-larger" and the smaller code's name first |
| `Aggregate.TwoMemberAggregate` | portaletrasparenza-avcp-scraper.py:310-345 | a new two-member aggregate appends exactly the row (a-b, nameA \| nameB) |
| `Extractor.ContractRowOf` | portaletrasparenza-avcp-scraper.py:366-377 | the contract row carries the lot's CIG, `oggetto`, `sceltaContraente`, both amounts and proposing agency code unchanged, the publication year and month, and the ISO date written with the "-" separator, from which that year and month read back |
| `Extractor.ResolveMembers` | portaletrasparenza-avcp-scraper.py:407-419 | resolving the members writes no contract, winner, aggregate-winner, aggregate-vendor or agency row |
| `Extractor.ResolveMembersOutcome` | portaletrasparenza-avcp-scraper.py:407-419 | the members append exactly the vendor and alternate-name rows their `add_vendor` calls record in document order; every member code ends with its earlier name or the name of its first listing |
| `Extractor.LinkWinner` | portaletrasparenza-avcp-scraper.py:399-402 | exactly one winner row (cig, vendor code) is appended; contracts and aggregate winners are unchanged |
| `Extractor.ResolveWinner` | portaletrasparenza-avcp-scraper.py:397-402 | the awardee is resolved as a vendor by the `add_vendor` rule (`ResolutionEffect`) and one winner row naming its code is appended; agency tables are unchanged |
| `Extractor.AddSingleWinner` | portaletrasparenza-avcp-scraper.py:388-402 | an awardee with a `ragioneSociale` element is resolved by the `add_vendor` rule, with its own code, name and country, and gets a winner row; one without it changes nothing |
| `Extractor.LinkAggregate` | portaletrasparenza-avcp-scraper.py:421-424 | exactly one aggregate-winner row is appended; winners, contracts, vendors and aggregate vendors are unchanged |
| `Extractor.LinkGroup` | portaletrasparenza-avcp-scraper.py:420-424 | success exactly when every member has a canonical vendor name (the assert of lines 323-325); on success the aggregate-winner row carries the sorted member codes joined with "-", and the aggregate-vendor rows appended are exactly `NewAggregateRows` (one row only for a new aggregate code); no winner, contract or agency row |
| `Extractor.AddGroupWinner` | portaletrasparenza-avcp-scraper.py:404-424 | an aggregate-winner row is appended exactly when the group has at least one member; only a nonempty group can fail; a nonempty group appends the `NewAggregateRows` of its members as they stand once resolved; a missing or empty group changes nothing |
| `Extractor.InsertContract` | portaletrasparenza-avcp-scraper.py:366-379 | exactly one contract row is appended; winners and aggregate winners are unchanged |
| `Extractor.AddContract` | portaletrasparenza-avcp-scraper.py:366-384 | the lot's contract row is appended whatever the CIG's length; the proposing agency then gets a canonical row when its code was unknown before the lot, and otherwise an alternate-name row exactly when its `denominazione` differs (`ResolutionEffect`) |
| `Extractor.AddAwardees` | portaletrasparenza-avcp-scraper.py:387-424 | the single awardee and the group contribute their winner rows independently; no awardees means no winner rows; no agency row is written; without a nonempty group no aggregate-vendor row is written and nothing fails |
| `Extractor.AddAwardeesVendors` | portaletrasparenza-avcp-scraper.py:386-424 | the awardees append exactly the vendor and alternate-name rows of their `add_vendor` calls, single awardee first and then the members, judged from the state before them |
| `Extractor.ExtractLot` | portaletrasparenza-avcp-scraper.py:364-424 | one contract row per lot; the proposing agency resolved by the `add_agency` rule; a winner row only for an awardee with `ragioneSociale`; an aggregate-winner row only for a nonempty group; failure only from a nonempty group (its vendor and alternate-name rows are those of `ExtractLotVendors`, its aggregate-vendor rows those of `ExtractLotAggregates`) |
| `Extractor.ExtractLotVendors` | portaletrasparenza-avcp-scraper.py:364-424 | the vendor rows and alternate-name rows a lot appends are exactly those of its `add_vendor` calls, judged from the state before the lot; the contract row and the agency do not affect them |
| `Extractor.AddAwardeesAggregates` | portaletrasparenza-avcp-scraper.py:386-424 | the aggregate-vendor rows the awardees append are exactly `LotAggregateRows`, judged from the state before them: for a nonempty group whose code (sorted member codes joined with "-") is unknown, one row naming it with the members' names after all the lot's `add_vendor` calls joined with " \| "; none otherwise |
| `Extractor.ExtractLotAggregates` | portaletrasparenza-avcp-scraper.py:364-424 | the aggregate-vendor rows a lot appends are exactly `LotAggregateRows` of its awardees, judged from the state before the lot; the contract row and the proposing agency do not affect them |
| `Extractor.LotAggregateRowsAgree` | portaletrasparenza-avcp-scraper.py:379-384 | two states with the same aggregates and the same vendor names give a lot the same aggregate rows, which is why the agency step before the awardees does not matter |
| `Extractor.ExtractLots` | portaletrasparenza-avcp-scraper.py:347-424 | the contract rows of a bulletin are appended in document order |
| `Extractor.ExtractBulletins` | portaletrasparenza-avcp-scraper.py:446-449 | the contract rows of all bulletins are appended in bulletin order, then document order |
| `Extractor.ExtractData` | portaletrasparenza-avcp-scraper.py:428-458 | after a successful run nothing is pending and storage holds one contract row per lot, in order |
| `Extractor.ResolveReferenced` | portaletrasparenza-avcp-scraper.py:241-308 | resolving a vendor or agency keeps the invariant and referential integrity, forgets no name, and makes the code known |
| `Extractor.AddContractInvariant` | portaletrasparenza-avcp-scraper.py:366-384 | the contract row refers to a known agency once the agency is resolved, so integrity is kept |
| `Extractor.AddSingleWinnerInvariant` | portaletrasparenza-avcp-scraper.py:388-402 | the vendor is resolved before its winner row, so integrity is kept |
| `Extractor.ResolveMembersInvariant` | portaletrasparenza-avcp-scraper.py:408-419 | after the member loop every member code has a canonical vendor name |
| `Extractor.BuildAggregateReferenced` | portaletrasparenza-avcp-scraper.py:310-345 | with every member known, building the aggregate succeeds and registers its code |
| `Extractor.AddGroupWinnerInvariant` | portaletrasparenza-avcp-scraper.py:323-325 | from a valid state the group step always succeeds: the assert cannot fire during extraction |
| `Extractor.ExtractLotInvariant` | portaletrasparenza-avcp-scraper.py:364-424 | a lot never fails and keeps the invariant, integrity and every name |
| `Extractor.ExtractLotsInvariant` | portaletrasparenza-avcp-scraper.py:347-424 | a whole bulletin never fails and keeps the invariant, integrity and every name |
| `Extractor.ExtractBulletinsInvariant` | portaletrasparenza-avcp-scraper.py:446-449 | any sequence of bulletins never fails and keeps the invariant and integrity |
| `Extractor.FlushAllReferenced` | portaletrasparenza-avcp-scraper.py:451-458 | the final flushes keep the invariant and integrity |
| `Extractor.ExtractDataSucceeds` | portaletrasparenza-avcp-scraper.py:428-458 | every run succeeds and ends valid and referentially intact |
| `Extractor.StoredRefAt` | portaletrasparenza-avcp-scraper.py:451-458 | once nothing is pending, every reference of a stored row points to a stored canonical row |
| `Extractor.ExtractDataIntegrity` | portaletrasparenza-avcp-scraper.py:428-458 | at the end of a run every stored contract, winner and aggregate-winner row refers to a stored agency, vendor or aggregate |
| `Extractor.ResolveTwoNewMembers` | portaletrasparenza-avcp-scraper.py:408-419 | two new members get their vendor rows in document order and both become known |
| `Extractor.TwoMemberGroup` | portaletrasparenza-avcp-scraper.py:404-424 | a group of two new vendors A and B (A's code smaller): two vendor rows, one aggregate row (A-B, nameA \| nameB), one aggregate-winner row (cig, A-B), no winner row |

## Left out

- HTTP download (`download_file`, `download_data`, `download_data_active_tenders`), `indent_data`, `push_data_to_github`, `dump_all_winners`, `process` and `main`: network, file and subprocess I/O, outside the extraction core.
- XML parsing: lots arrive as `Extractor.Lot` values. An element's text is `Option<string>`. A missing `aggiudicatari`, `aggiudicatario`, `ragioneSociale` or group is an `Option`.
- Crashes caused by malformed input are not modelled. The script crashes on a missing `cig` element or an empty CIG (`len(None)`, line 367), on a missing `strutturaProponente` or member `ragioneSociale` element, on a missing `codiceFiscaleProp` (line 374) or `denominazione` (line 383) under a present `strutturaProponente`, on a missing `identificativoFiscaleEstero` when `codiceFiscale` is absent (lines 391 and 411), on a missing member `ruolo` element (line 417), and on a missing `oggetto`, `sceltaContraente`, `importoAggiudicazione` or `importoSommeLiquidate` element (`.text` of None, lines 370-373). The model takes these as plain strings.
- Missing fiscal codes are not modelled; codes are plain strings in the model. In the script a missing code behaves in three ways:
  - a missing agency code with a name is stored in the agency row as the text "None" (`unicode(None)`, line 297), while the contract row keeps the missing value (line 374);
  - a missing code with a missing name raises on `"NoneAgencyName" + None` or `"NoneVendorName" + None` (lines 285 and 248);
  - a missing vendor code with a name is stored as a missing value.
- `Extractor.GroupMember`: the members come from `iter('membro')`, which also finds nested `membro` elements. The model takes the member list as given.
- The model does not enforce primary keys. The script creates `contracts`, `winners` and `aggregate_winners` with `cig` as primary key, and a repeated CIG would make the database reject a write. Storage here is an append-only sequence per table.
- `print` logging is not modelled. This includes the CIG-length warning; the contract row is buffered regardless.
- `unicode()` conversions and Python 2 string semantics are not modelled. Names are compared as exact character sequences. Codes are ordered by code point (`Strings.LexLe`).
- `extract_data`'s `rm` of the database file and the table creation are not modelled. A run starts from `RecordBuffer.EmptyDb`.
- `RecordBuffer.EmptyDb`: its empty caches describe only the first `extract_data` of a process. The caches are module globals (lines 72-79) that the final `flush_table_buffer` calls (lines 197-202) never clear. The aggregate cache is never cleared, and the vendor and agency caches keep every entry since their last automatic write (lines 187-193). `main` can call `process` with "extract" more than once (lines 499-500, 474-475). A second run would start with the first run's cache entries while its new database is empty.
- `Extractor.Awardees`: the script reads only the first `aggiudicatario` and the first `aggiudicatarioRaggruppamento` of a lot (`find`, lines 388 and 404), so the model has at most one of each. Further ones in the same `aggiudicatari` are ignored by the script and are not represented.
- `extract_data`'s fixed year range 2011-2015 and months 1-12 are not modelled. `Extractor.ExtractData` takes any sequence of bulletins.
- `RecordBuffer.FlushAll` covers the eight flush calls of the final sequence. The database connection objects passed to them are not modelled.
- Three behaviours of the script, modelled as written:
  - The lookups consult the cache and then storage, never the buffer itself. The run invariant shows this is enough, because every pending canonical row is cached.
  - `add_aggregate_vendor` writes no alternate-name row for aggregates, and there is no alternate-name table for them.
  - The `assert(False)` for an unknown member is a `Failure` that aborts the run. It is proved unreachable from extraction.
