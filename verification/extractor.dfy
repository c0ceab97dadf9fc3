/**
 The document extractor: the per-lot body of `extract_data_from_file` and the
 run of `extract_data` over a sequence of bulletins followed by the final
 flushes. Bulletins arrive already parsed; an element's text is `None` when
 the element is empty, as with ElementTree's `.text`.
 */
module Extractor {
  import opened Wrappers
  import opened Strings
  import opened Dates
  import opened Records
  import opened RecordBuffer
  import opened Identity
  import opened Resolver
  import opened Aggregate
  import opened Sequences

  /** An element's text: `None` when the element is present but empty. */
  type Text = Option<string>

  /** A domestic fiscal code (`codiceFiscale`) or, in its absence, a foreign tax id (`identificativoFiscaleEstero`). */
  datatype Identifier = FiscalCode(code: string) | ForeignTaxId(code: string)

  /** `aggiudicatario`; `companyName` is the `ragioneSociale` element, which may be missing altogether. */
  datatype Awardee = Awardee(id: Identifier, companyName: Option<Text>)

  /** One `membro` of an `aggiudicatarioRaggruppamento`. */
  datatype GroupMember = GroupMember(id: Identifier, companyName: Text, role: Text)

  /** `aggiudicatari`: an optional single awardee and an optional group; both may be present. */
  datatype Awardees = Awardees(single: Option<Awardee>, group: Option<seq<GroupMember>>)

  /** `strutturaProponente`: the proposing agency. */
  datatype Proponent = Proponent(fiscalCode: string, name: Text)

  /** One `lotto` element. */
  datatype Lot = Lot(
    cig: string,
    subject: Text,
    procedure: Text,
    awardedAmount: Text,
    disbursedAmount: Text,
    proponent: Proponent,
    awardees: Option<Awardees>)

  /** One bulletin file, with the publication year and month it was downloaded for. */
  datatype Bulletin = Bulletin(year: int, month: int, lots: seq<Lot>)

  /**
   The contract row built for a lot: it names the lot's CIG and proposing
   agency, and carries the publication month both as numbers and as an ISO
   date from which they can be read back.
   */
  function ContractRowOf(lot: Lot, year: int, month: int): (r: Row)
    ensures r.ContractRow? && TableOf(r) == Contracts
    ensures r.cig == lot.cig && r.agencyCode == lot.proponent.fiscalCode
    ensures r.subject == lot.subject && r.procedure == lot.procedure
    ensures r.awardedAmount == lot.awardedAmount && r.disbursedAmount == lot.disbursedAmount
    ensures r.pubYear == year && r.pubMonth == month
    // the date is written with the "-" separator, as every contract row's is
    ensures r.pubDate == IsoPublicationDate(year, month, "-")
    ensures 1 <= month <= 12 ==> ParseIsoDate(r.pubDate, 1) == Some((year, month))
  {
    ContractDateReadsBack(year, month);
    ContractRow(
      lot.cig, lot.subject, lot.procedure, lot.awardedAmount, lot.disbursedAmount,
      lot.proponent.fiscalCode, month, year, IsoPublicationDate(year, month, "-"))
  }

  lemma ContractDateReadsBack(year: int, month: int)
    ensures 1 <= month <= 12 ==> ParseIsoDate(IsoPublicationDate(year, month, "-"), 1) == Some((year, month))
  {
    if 1 <= month <= 12 {
      IsoDateRoundTrip(year, month, "-");
    }
  }

  function MembersOf(ms: seq<GroupMember>): (members: seq<Member>)
    ensures |members| == |ms|
    ensures forall i :: 0 <= i < |ms| ==> members[i] == Member(ms[i].id.code, ms[i].role)
  {
    seq(|ms|, i requires 0 <= i < |ms| => Member(ms[i].id.code, ms[i].role))
  }

  /** The winner row a single awardee produces: one only when it has a `ragioneSociale`. */
  function SingleWinnerRows(cig: string, single: Option<Awardee>): seq<Row> {
    match single
    case Some(Awardee(id, Some(_))) => [WinnerRow(cig, id.code)]
    case _ => []
  }

  /** The aggregate-winner row a group produces: one only when it has at least one member. */
  function GroupWinnerRows(cig: string, group: Option<seq<GroupMember>>): seq<Row> {
    match group
    case Some(ms) => if |ms| == 0 then [] else [AggregateWinnerRow(cig, Join(SortedCodes(MembersOf(ms)), "-"))]
    case None => []
  }

  /** Resolves every group member as a vendor, in document order; no contract or winner row is written. */
  function ResolveMembers(db: Db, ms: seq<GroupMember>): (r: Db)
    ensures Submitted(r, Contracts) == Submitted(db, Contracts)
    ensures Submitted(r, Winners) == Submitted(db, Winners)
    ensures Submitted(r, AggregateWinners) == Submitted(db, AggregateWinners)
    ensures Submitted(r, PublicAgencies) == Submitted(db, PublicAgencies)
    ensures Submitted(r, PublicAgencyAltNames) == Submitted(db, PublicAgencyAltNames)
    ensures Submitted(r, AggregateVendors) == Submitted(db, AggregateVendors)
    decreases |ms|
  {
    if |ms| == 0 then db
    else ResolveMembers(AddVendor(db, ms[0].id.code, ms[0].companyName, ms[0].id.ForeignTaxId?), ms[1..])
  }

  /** Lines 398-402: buffer the row linking a contract to its single winner. */
  function LinkWinner(db: Db, cig: string, code: string): (r: Db)
    ensures Submitted(r, Winners) == Submitted(db, Winners) + [WinnerRow(cig, code)]
    ensures Submitted(r, Contracts) == Submitted(db, Contracts)
    ensures Submitted(r, AggregateWinners) == Submitted(db, AggregateWinners)
  {
    BufferedInsert(db, WinnerRow(cig, code))
  }

  /** Linking a winner leaves every vendor and agency table alone. */
  lemma LinkWinnerFrame(db: Db, cig: string, code: string)
    ensures Submitted(LinkWinner(db, cig, code), Vendors) == Submitted(db, Vendors)
    ensures Submitted(LinkWinner(db, cig, code), VendorAltNames) == Submitted(db, VendorAltNames)
    ensures Submitted(LinkWinner(db, cig, code), PublicAgencies) == Submitted(db, PublicAgencies)
    ensures Submitted(LinkWinner(db, cig, code), PublicAgencyAltNames) == Submitted(db, PublicAgencyAltNames)
  {
    var r := BufferedInsert(db, WinnerRow(cig, code));
    assert LinkWinner(db, cig, code) == r;
    assert forall t :: t != Winners ==> Submitted(r, t) == Submitted(db, t);
  }

  /** Lines 397-402: resolve an awardee as a vendor, then link it to the contract. */
  function ResolveWinner(db: Db, cig: string, code: string, name: Option<string>, foreign: bool): (r: Db)
    ensures Submitted(r, Winners) == Submitted(db, Winners) + [WinnerRow(cig, code)]
    ensures Submitted(r, Contracts) == Submitted(db, Contracts)
    ensures Submitted(r, AggregateWinners) == Submitted(db, AggregateWinners)
    ensures ResolutionEffect(db, r, VendorKind, code, name, foreign)
    ensures Submitted(r, PublicAgencies) == Submitted(db, PublicAgencies)
    ensures Submitted(r, PublicAgencyAltNames) == Submitted(db, PublicAgencyAltNames)
  {
    var resolved := AddVendor(db, code, name, foreign);
    assert Submitted(resolved, PublicAgencies) == Submitted(db, PublicAgencies);
    assert Submitted(resolved, PublicAgencyAltNames) == Submitted(db, PublicAgencyAltNames);
    var r := LinkWinner(resolved, cig, code);
    LinkWinnerFrame(resolved, cig, code);
    EffectAfter(db, resolved, r, VendorKind, code, name, foreign);
    r
  }

  /** Lines 388-402: resolve the single awardee and link it to the contract. */
  function AddSingleWinner(db: Db, cig: string, single: Option<Awardee>): (r: Db)
    ensures Submitted(r, Winners) == Submitted(db, Winners) + SingleWinnerRows(cig, single)
    ensures Submitted(r, Contracts) == Submitted(db, Contracts)
    ensures Submitted(r, AggregateWinners) == Submitted(db, AggregateWinners)
    // an awardee with a `ragioneSociale` element is resolved as a vendor, under its own country
    ensures single.Some? && single.value.companyName.Some? ==>
      ResolutionEffect(db, r, VendorKind, single.value.id.code, single.value.companyName.value, single.value.id.ForeignTaxId?)
    // one without it is skipped altogether
    ensures !(single.Some? && single.value.companyName.Some?) ==> r == db
    ensures Submitted(r, PublicAgencies) == Submitted(db, PublicAgencies)
    ensures Submitted(r, PublicAgencyAltNames) == Submitted(db, PublicAgencyAltNames)
  {
    match single
    case Some(Awardee(id, Some(name))) => ResolveWinner(db, cig, id.code, name, id.ForeignTaxId?)
    case _ => db
  }

  /** Lines 421-424: buffer the row linking a contract to its winning aggregate. */
  function LinkAggregate(db: Db, cig: string, code: string): (r: Db)
    ensures Submitted(r, AggregateWinners) == Submitted(db, AggregateWinners) + [AggregateWinnerRow(cig, code)]
    ensures Submitted(r, Winners) == Submitted(db, Winners)
    ensures Submitted(r, Contracts) == Submitted(db, Contracts)
    ensures Submitted(r, Vendors) == Submitted(db, Vendors)
    ensures Submitted(r, AggregateVendors) == Submitted(db, AggregateVendors)
  {
    BufferedInsert(db, AggregateWinnerRow(cig, code))
  }

  /** Linking an aggregate leaves every vendor and agency table alone. */
  lemma LinkAggregateFrame(db: Db, cig: string, code: string)
    ensures Submitted(LinkAggregate(db, cig, code), VendorAltNames) == Submitted(db, VendorAltNames)
    ensures Submitted(LinkAggregate(db, cig, code), PublicAgencies) == Submitted(db, PublicAgencies)
    ensures Submitted(LinkAggregate(db, cig, code), PublicAgencyAltNames) == Submitted(db, PublicAgencyAltNames)
  {
    var r := BufferedInsert(db, AggregateWinnerRow(cig, code));
    assert LinkAggregate(db, cig, code) == r;
    assert forall t :: t != AggregateWinners ==> Submitted(r, t) == Submitted(db, t);
  }

  /** Lines 420-424: build the aggregate of already resolved members and link it to the contract. */
  function LinkGroup(db: Db, cig: string, ms: seq<GroupMember>): (r: Result<Db, AggregateError>)
    ensures r.Success? ==> (Submitted(r.value, AggregateWinners) ==
      Submitted(db, AggregateWinners) + [AggregateWinnerRow(cig, Join(SortedCodes(MembersOf(ms)), "-"))])
    ensures r.Success? ==> Submitted(r.value, Contracts) == Submitted(db, Contracts)
    ensures r.Success? ==> Submitted(r.value, Winners) == Submitted(db, Winners)
    ensures r.Success? ==> Submitted(r.value, PublicAgencies) == Submitted(db, PublicAgencies)
    ensures r.Success? ==> Submitted(r.value, PublicAgencyAltNames) == Submitted(db, PublicAgencyAltNames)
    // the assert of `add_aggregate_vendor` fires exactly when a member has no canonical name
    ensures r.Success? <==> AllKnown(db, Codes(MembersOf(ms)))
    // the aggregate row is added only for a new aggregate code
    ensures r.Success? ==> Submitted(r.value, AggregateVendors) == Submitted(db, AggregateVendors) + NewAggregateRows(db, MembersOf(ms))
  {
    match AddAggregateVendor(db, MembersOf(ms))
    case Failure(e) => Failure(e)
    case Success(added) =>
      AddAggregateVendorRows(db, MembersOf(ms));
      assert Submitted(added.0, PublicAgencies) == Submitted(db, PublicAgencies);
      assert Submitted(added.0, PublicAgencyAltNames) == Submitted(db, PublicAgencyAltNames);
      LinkAggregateFrame(added.0, cig, added.1);
      Success(LinkAggregate(added.0, cig, added.1))
  }

  /** Lines 404-405: only a group with at least one member yields an aggregate winner. */
  function AddGroupWinner(db: Db, cig: string, group: Option<seq<GroupMember>>): (r: Result<Db, AggregateError>)
    ensures r.Failure? ==> group.Some? && |group.value| > 0
    ensures r.Success? ==> Submitted(r.value, AggregateWinners) == Submitted(db, AggregateWinners) + GroupWinnerRows(cig, group)
    ensures r.Success? ==> Submitted(r.value, Contracts) == Submitted(db, Contracts)
    ensures r.Success? ==> Submitted(r.value, Winners) == Submitted(db, Winners)
    ensures r.Success? ==> Submitted(r.value, PublicAgencies) == Submitted(db, PublicAgencies)
    ensures r.Success? ==> Submitted(r.value, PublicAgencyAltNames) == Submitted(db, PublicAgencyAltNames)
    // a nonempty group adds the aggregate row of its members as they stand once resolved, if that aggregate is new
    ensures r.Success? && |GroupOf(group)| > 0 ==> (Submitted(r.value, AggregateVendors) ==
      Submitted(db, AggregateVendors) + NewAggregateRows(ResolveMembers(db, GroupOf(group)), MembersOf(GroupOf(group))))
    // no group, or an empty one, changes nothing
    ensures |GroupOf(group)| == 0 ==> r == Success(db)
  {
    match group
    case None => Success(db)
    case Some(ms) =>
      if |ms| == 0 then Success(db)
      else
        var resolved := ResolveMembers(db, ms);
        assert GroupWinnerRows(cig, group) == [AggregateWinnerRow(cig, Join(SortedCodes(MembersOf(ms)), "-"))];
        LinkGroup(resolved, cig, ms)
  }

  /** The members of a group, none when there is no group. */
  function GroupOf(group: Option<seq<GroupMember>>): seq<GroupMember> {
    if group.Some? then group.value else []
  }

  /** The members of a lot's group, none when there are no awardees or no group. */
  function LotGroup(awardees: Option<Awardees>): seq<GroupMember> {
    if awardees.Some? then GroupOf(awardees.value.group) else []
  }

  /** Buffering a contract, winner or aggregate-winner row leaves every vendor and agency lookup alone. */
  lemma PlainInsertKeepsKind(db: Db, row: Row, k: Kind)
    requires row.ContractRow? || row.WinnerRow? || row.AggregateWinnerRow?
    requires k != AggregateKind
    ensures SameKind(db, BufferedInsert(db, row), k)
  {
    assert TableOf(row) != EntityTable(k) && TableOf(row) != AltTable(k);
    assert !IsCanonical(row, k);
  }

  /** Lines 366-379: buffer a contract row. */
  function InsertContract(db: Db, row: Row): (r: Db)
    requires row.ContractRow?
    ensures Submitted(r, Contracts) == Submitted(db, Contracts) + [row]
    ensures Submitted(r, Winners) == Submitted(db, Winners)
    ensures Submitted(r, AggregateWinners) == Submitted(db, AggregateWinners)
    ensures Submitted(r, AggregateVendors) == Submitted(db, AggregateVendors)
  {
    BufferedInsert(db, row)
  }

  /** Lines 366-384: buffer the lot's contract row (whatever its CIG's length), then resolve the proposing agency. */
  function AddContract(db: Db, year: int, month: int, lot: Lot): (r: Db)
    ensures Submitted(r, Contracts) == Submitted(db, Contracts) + [ContractRowOf(lot, year, month)]
    ensures Submitted(r, Winners) == Submitted(db, Winners)
    ensures Submitted(r, AggregateWinners) == Submitted(db, AggregateWinners)
    // the proposing agency is resolved as it stood before the lot
    ensures ResolutionEffect(db, r, AgencyKind, lot.proponent.fiscalCode, lot.proponent.name, false)
    ensures Submitted(r, AggregateVendors) == Submitted(db, AggregateVendors)
  {
    var withContract := InsertContract(db, ContractRowOf(lot, year, month));
    PlainInsertKeepsKind(db, ContractRowOf(lot, year, month), AgencyKind);
    var r := AddAgency(withContract, lot.proponent.fiscalCode, lot.proponent.name);
    EffectBefore(db, withContract, r, AgencyKind, lot.proponent.fiscalCode, lot.proponent.name, false);
    r
  }

  /** Lines 388-424: the single awardee and the group are handled independently of each other. */
  function AddAwardees(db: Db, cig: string, awardees: Option<Awardees>): (r: Result<Db, AggregateError>)
    ensures r.Failure? ==> awardees.Some? && awardees.value.group.Some? && |awardees.value.group.value| > 0
    ensures r.Success? ==> Submitted(r.value, Contracts) == Submitted(db, Contracts)
    ensures r.Success? ==> (Submitted(r.value, Winners) == Submitted(db, Winners)
      + (if awardees.Some? then SingleWinnerRows(cig, awardees.value.single) else []))
    ensures r.Success? ==> (Submitted(r.value, AggregateWinners) == Submitted(db, AggregateWinners)
      + (if awardees.Some? then GroupWinnerRows(cig, awardees.value.group) else []))
    ensures r.Success? ==> Submitted(r.value, PublicAgencies) == Submitted(db, PublicAgencies)
    ensures r.Success? ==> Submitted(r.value, PublicAgencyAltNames) == Submitted(db, PublicAgencyAltNames)
    // without a nonempty group no aggregate vendor is written
    ensures |LotGroup(awardees)| == 0 ==> r.Success? && Submitted(r.value, AggregateVendors) == Submitted(db, AggregateVendors)
  {
    match awardees
    case None => Success(db)
    case Some(a) =>
      SingleWinnerKeepsAggregates(db, cig, a.single);
      AddGroupWinner(AddSingleWinner(db, cig, a.single), cig, a.group)
  }

  /**
   The loop body of lines 364-424 for one lot: one contract row, the proposing
   agency, then the awardees. Only building an aggregate can fail.
   */
  function ExtractLot(db: Db, year: int, month: int, lot: Lot): (r: Result<Db, AggregateError>)
    ensures r.Failure? ==> lot.awardees.Some? && lot.awardees.value.group.Some? && |lot.awardees.value.group.value| > 0
    ensures r.Success? ==> Submitted(r.value, Contracts) == Submitted(db, Contracts) + [ContractRowOf(lot, year, month)]
    ensures r.Success? ==> (Submitted(r.value, Winners) == Submitted(db, Winners)
      + (if lot.awardees.Some? then SingleWinnerRows(lot.cig, lot.awardees.value.single) else []))
    ensures r.Success? ==> (Submitted(r.value, AggregateWinners) == Submitted(db, AggregateWinners)
      + (if lot.awardees.Some? then GroupWinnerRows(lot.cig, lot.awardees.value.group) else []))
    // the proposing agency is resolved once, as it stood before the lot
    ensures r.Success? ==> ResolutionEffect(db, r.value, AgencyKind, lot.proponent.fiscalCode, lot.proponent.name, false)
  {
    var withAgency := AddContract(db, year, month, lot);
    var r := AddAwardees(withAgency, lot.cig, lot.awardees);
    assert r.Success? ==> ResolutionEffect(db, r.value, AgencyKind, lot.proponent.fiscalCode, lot.proponent.name, false) by {
      if r.Success? {
        EffectAfter(db, withAgency, r.value, AgencyKind, lot.proponent.fiscalCode, lot.proponent.name, false);
      }
    }
    r
  }

  /** The contract rows of a bulletin's lots, in document order. */
  function ContractRows(lots: seq<Lot>, year: int, month: int): (rows: seq<Row>)
    ensures |rows| == |lots|
    decreases |lots|
  {
    if |lots| == 0 then [] else [ContractRowOf(lots[0], year, month)] + ContractRows(lots[1..], year, month)
  }

  /** `extract_data_from_file`: the lots of one bulletin, in document order; the first failure aborts. */
  function ExtractLots(db: Db, year: int, month: int, lots: seq<Lot>): (r: Result<Db, AggregateError>)
    ensures r.Success? ==> Submitted(r.value, Contracts) == Submitted(db, Contracts) + ContractRows(lots, year, month)
    decreases |lots|
  {
    if |lots| == 0 then Success(db)
    else
      match ExtractLot(db, year, month, lots[0])
      case Failure(e) => Failure(e)
      case Success(next) =>
        AppendAssoc(Submitted(db, Contracts), [ContractRowOf(lots[0], year, month)], ContractRows(lots[1..], year, month));
        ExtractLots(next, year, month, lots[1..])
  }

  /** The contract rows of every lot of every bulletin, in order. */
  function AllContractRows(bs: seq<Bulletin>): seq<Row>
    decreases |bs|
  {
    if |bs| == 0 then [] else ContractRows(bs[0].lots, bs[0].year, bs[0].month) + AllContractRows(bs[1..])
  }

  function ExtractBulletins(db: Db, bs: seq<Bulletin>): (r: Result<Db, AggregateError>)
    ensures r.Success? ==> Submitted(r.value, Contracts) == Submitted(db, Contracts) + AllContractRows(bs)
    decreases |bs|
  {
    if |bs| == 0 then Success(db)
    else
      match ExtractLots(db, bs[0].year, bs[0].month, bs[0].lots)
      case Failure(e) => Failure(e)
      case Success(next) =>
        AppendAssoc(Submitted(db, Contracts), ContractRows(bs[0].lots, bs[0].year, bs[0].month), AllContractRows(bs[1..]));
        ExtractBulletins(next, bs[1..])
  }

  /**
   `extract_data`: start from an empty database, extract every bulletin, then
   flush every table. On success nothing is left pending and storage holds one
   contract row per lot, in bulletin and document order.
   */
  function ExtractData(bs: seq<Bulletin>): (r: Result<Db, AggregateError>)
    ensures r.Success? ==> forall t :: Buffered(r.value, t) == []
    ensures r.Success? ==> Stored(r.value, Contracts) == AllContractRows(bs)
  {
    match ExtractBulletins(EmptyDb, bs)
    case Failure(e) => Failure(e)
    case Success(db) =>
      assert Submitted(db, Contracts) == AllContractRows(bs) by {
        assert Submitted(EmptyDb, Contracts) == [];
      }
      Success(FlushAll(db))
  }

  /** Every code known in `db` is still known in `r`, under the same name. */
  ghost predicate KeepsNames(db: Db, r: Db) {
    forall k, c :: LookupName(db, k, c).Some? ==> LookupName(r, k, c) == LookupName(db, k, c)
  }

  /** Buffering a row that is nobody's canonical row keeps the invariant and every name. */
  lemma InsertPlainRow(db: Db, row: Row)
    requires Valid(db)
    requires row.ContractRow? || row.WinnerRow? || row.AggregateWinnerRow?
    ensures Valid(BufferedInsert(db, row))
    ensures KeepsNames(db, BufferedInsert(db, row))
  {
    ValidInsert(db, row);
    forall k, c | LookupName(db, k, c).Some?
      ensures LookupName(BufferedInsert(db, row), k, c) == LookupName(db, k, c)
    {
      LookupStable(db, row, k, c);
    }
  }

  /** Resolving a vendor or an agency keeps the invariant and every name, and makes its code known. */
  lemma ResolveStep(db: Db, k: Kind, code: string, name: Option<string>, foreign: bool)
    requires Valid(db) && k != AggregateKind
    ensures Valid(Resolve(db, k, code, name, foreign))
    ensures KeepsNames(db, Resolve(db, k, code, name, foreign))
    ensures LookupName(Resolve(db, k, code, name, foreign), k, code).Some?
  {
    ResolveInvariant(db, k, code, name, foreign);
    forall k', c | LookupName(db, k', c).Some?
      ensures LookupName(Resolve(db, k, code, name, foreign), k', c) == LookupName(db, k', c)
    {
      ResolveKeepsKnown(db, k, code, name, foreign, k', c);
    }
  }

  /** The code a contract, winner or aggregate-winner row refers to has a canonical name. */
  ghost predicate RefKnown(db: Db, row: Row) {
    match row
    case ContractRow(_, _, _, _, _, agency, _, _, _) => LookupName(db, AgencyKind, agency).Some?
    case WinnerRow(_, vendor) => LookupName(db, VendorKind, vendor).Some?
    case AggregateWinnerRow(_, aggregate) => LookupName(db, AggregateKind, aggregate).Some?
    case _ => true
  }

  ghost predicate AllRefsKnown(db: Db, rows: seq<Row>) {
    forall i :: 0 <= i < |rows| ==> RefKnown(db, rows[i])
  }

  /**
   Referential integrity of a run: every contract names a known agency, every
   winner row a known vendor, every aggregate-winner row a known aggregate.
   */
  ghost predicate Referenced(db: Db) {
    && AllRefsKnown(db, Submitted(db, Contracts))
    && AllRefsKnown(db, Submitted(db, Winners))
    && AllRefsKnown(db, Submitted(db, AggregateWinners))
  }

  lemma RefsKept(db: Db, r: Db, before: seq<Row>, added: seq<Row>)
    requires KeepsNames(db, r)
    requires AllRefsKnown(db, before) && AllRefsKnown(r, added)
    ensures AllRefsKnown(r, before + added)
  {
    forall i | 0 <= i < |before + added| ensures RefKnown(r, (before + added)[i]) {
      if i < |before| {
        assert (before + added)[i] == before[i];
        assert RefKnown(db, before[i]);
      } else {
        assert (before + added)[i] == added[i - |before|];
      }
    }
  }

  lemma RefsSame(db: Db, r: Db, rows: seq<Row>)
    requires KeepsNames(db, r) && AllRefsKnown(db, rows)
    ensures AllRefsKnown(r, rows)
  {
    forall i | 0 <= i < |rows| ensures RefKnown(r, rows[i]) {
      assert RefKnown(db, rows[i]);
    }
  }

  /** A step that forgets no name and adds no referencing row keeps referential integrity. */
  lemma ReferencedSame(db: Db, r: Db)
    requires Referenced(db) && KeepsNames(db, r)
    requires Submitted(r, Contracts) == Submitted(db, Contracts)
    requires Submitted(r, Winners) == Submitted(db, Winners)
    requires Submitted(r, AggregateWinners) == Submitted(db, AggregateWinners)
    ensures Referenced(r)
  {
    RefsSame(db, r, Submitted(db, Contracts));
    RefsSame(db, r, Submitted(db, Winners));
    RefsSame(db, r, Submitted(db, AggregateWinners));
  }

  lemma KeepsNamesTrans(a: Db, b: Db, c: Db)
    requires KeepsNames(a, b) && KeepsNames(b, c)
    ensures KeepsNames(a, c)
  {
  }

  /** Resolving a vendor or an agency keeps every invariant of the run and makes its code known. */
  lemma ResolveReferenced(db: Db, k: Kind, code: string, name: Option<string>, foreign: bool)
    requires Valid(db) && Referenced(db) && k != AggregateKind
    ensures Valid(Resolve(db, k, code, name, foreign))
    ensures KeepsNames(db, Resolve(db, k, code, name, foreign))
    ensures Referenced(Resolve(db, k, code, name, foreign))
    ensures LookupName(Resolve(db, k, code, name, foreign), k, code).Some?
  {
    ResolveStep(db, k, code, name, foreign);
    ReferencedSame(db, Resolve(db, k, code, name, foreign));
  }

  lemma AddContractInvariant(db: Db, year: int, month: int, lot: Lot)
    requires Valid(db) && Referenced(db)
    ensures Valid(AddContract(db, year, month, lot))
    ensures KeepsNames(db, AddContract(db, year, month, lot))
    ensures Referenced(AddContract(db, year, month, lot))
  {
    var row := ContractRowOf(lot, year, month);
    var withContract := InsertContract(db, row);
    var r := AddAgency(withContract, lot.proponent.fiscalCode, lot.proponent.name);
    assert AddContract(db, year, month, lot) == r;
    InsertPlainRow(db, row);
    ResolveStep(withContract, AgencyKind, lot.proponent.fiscalCode, lot.proponent.name, false);
    KeepsNamesTrans(db, withContract, r);
    AddContractRefs(db, row, r);
  }

  /** A contract row whose agency is now known keeps every row referenced. */
  lemma AddContractRefs(db: Db, row: Row, r: Db)
    requires Referenced(db) && KeepsNames(db, r) && row.ContractRow?
    requires LookupName(r, AgencyKind, row.agencyCode).Some?
    requires Submitted(r, Contracts) == Submitted(db, Contracts) + [row]
    requires Submitted(r, Winners) == Submitted(db, Winners)
    requires Submitted(r, AggregateWinners) == Submitted(db, AggregateWinners)
    ensures Referenced(r)
  {
    assert RefKnown(r, row);
    RefsKept(db, r, Submitted(db, Contracts), [row]);
    RefsSame(db, r, Submitted(db, Winners));
    RefsSame(db, r, Submitted(db, AggregateWinners));
  }

  /** Linking a contract to a known vendor keeps every invariant of the run. */
  lemma LinkWinnerReferenced(db: Db, cig: string, code: string)
    requires Valid(db) && Referenced(db) && LookupName(db, VendorKind, code).Some?
    ensures Valid(LinkWinner(db, cig, code))
    ensures KeepsNames(db, LinkWinner(db, cig, code))
    ensures Referenced(LinkWinner(db, cig, code))
  {
    assert LinkWinner(db, cig, code) == BufferedInsert(db, WinnerRow(cig, code));
    InsertPlainRow(db, WinnerRow(cig, code));
    LinkWinnerRefs(db, cig, code);
  }

  lemma LinkWinnerRefs(db: Db, cig: string, code: string)
    requires Referenced(db) && LookupName(db, VendorKind, code).Some?
    requires KeepsNames(db, LinkWinner(db, cig, code))
    ensures Referenced(LinkWinner(db, cig, code))
  {
    var r := LinkWinner(db, cig, code);
    assert RefKnown(r, WinnerRow(cig, code));
    RefsSame(db, r, Submitted(db, Contracts));
    RefsKept(db, r, Submitted(db, Winners), [WinnerRow(cig, code)]);
    RefsSame(db, r, Submitted(db, AggregateWinners));
  }

  /** Linking a contract to a known aggregate keeps every invariant of the run. */
  lemma LinkAggregateReferenced(db: Db, cig: string, code: string)
    requires Valid(db) && Referenced(db) && LookupName(db, AggregateKind, code).Some?
    ensures Valid(LinkAggregate(db, cig, code))
    ensures KeepsNames(db, LinkAggregate(db, cig, code))
    ensures Referenced(LinkAggregate(db, cig, code))
  {
    assert LinkAggregate(db, cig, code) == BufferedInsert(db, AggregateWinnerRow(cig, code));
    InsertPlainRow(db, AggregateWinnerRow(cig, code));
    LinkAggregateRefs(db, cig, code);
  }

  lemma LinkAggregateRefs(db: Db, cig: string, code: string)
    requires Referenced(db) && LookupName(db, AggregateKind, code).Some?
    requires KeepsNames(db, LinkAggregate(db, cig, code))
    ensures Referenced(LinkAggregate(db, cig, code))
  {
    var r := LinkAggregate(db, cig, code);
    assert RefKnown(r, AggregateWinnerRow(cig, code));
    RefsSame(db, r, Submitted(db, Contracts));
    RefsSame(db, r, Submitted(db, Winners));
    RefsKept(db, r, Submitted(db, AggregateWinners), [AggregateWinnerRow(cig, code)]);
  }

  /** Resolving an awardee and linking it to the contract keeps every invariant of the run. */
  lemma SingleWinnerStep(db: Db, cig: string, code: string, name: Option<string>, foreign: bool)
    requires Valid(db) && Referenced(db)
    ensures Valid(ResolveWinner(db, cig, code, name, foreign))
    ensures KeepsNames(db, ResolveWinner(db, cig, code, name, foreign))
    ensures Referenced(ResolveWinner(db, cig, code, name, foreign))
  {
    var resolved := AddVendor(db, code, name, foreign);
    ResolveReferenced(db, VendorKind, code, name, foreign);
    LinkWinnerReferenced(resolved, cig, code);
    assert ResolveWinner(db, cig, code, name, foreign) == LinkWinner(resolved, cig, code);
    KeepsNamesTrans(db, resolved, LinkWinner(resolved, cig, code));
  }

  lemma AddSingleWinnerInvariant(db: Db, cig: string, single: Option<Awardee>)
    requires Valid(db) && Referenced(db)
    ensures Valid(AddSingleWinner(db, cig, single))
    ensures KeepsNames(db, AddSingleWinner(db, cig, single))
    ensures Referenced(AddSingleWinner(db, cig, single))
  {
    match single
    case Some(Awardee(id, Some(name))) =>
      SingleWinnerStep(db, cig, id.code, name, id.ForeignTaxId?);
    case _ =>
  }

  /** After resolving the members of a group, every member's code has a canonical vendor name. */
  lemma {:induction false} ResolveMembersInvariant(db: Db, ms: seq<GroupMember>)
    requires Valid(db) && Referenced(db)
    ensures Valid(ResolveMembers(db, ms))
    ensures KeepsNames(db, ResolveMembers(db, ms))
    ensures Referenced(ResolveMembers(db, ms))
    ensures AllKnown(ResolveMembers(db, ms), Codes(MembersOf(ms)))
    decreases |ms|
  {
    if |ms| > 0 {
      var next := AddVendor(db, ms[0].id.code, ms[0].companyName, ms[0].id.ForeignTaxId?);
      ResolveReferenced(db, VendorKind, ms[0].id.code, ms[0].companyName, ms[0].id.ForeignTaxId?);
      ResolveMembersInvariant(next, ms[1..]);
      var r := ResolveMembers(db, ms);
      assert r == ResolveMembers(next, ms[1..]);
      KeepsNamesTrans(db, next, r);
      forall i | 0 <= i < |ms| ensures LookupName(r, VendorKind, Codes(MembersOf(ms))[i]).Some? {
        if i == 0 {
          assert LookupName(next, VendorKind, ms[0].id.code).Some?;
        } else {
          assert Codes(MembersOf(ms))[i] == Codes(MembersOf(ms[1..]))[i - 1];
        }
      }
    }
  }

  /** Building the aggregate of known members succeeds, registers it, and keeps every invariant of the run. */
  lemma BuildAggregateReferenced(db: Db, members: seq<Member>)
    requires Valid(db) && Referenced(db) && AllKnown(db, Codes(members))
    ensures AddAggregateVendor(db, members).Success?
    ensures Valid(AddAggregateVendor(db, members).value.0)
    ensures KeepsNames(db, AddAggregateVendor(db, members).value.0)
    ensures Referenced(AddAggregateVendor(db, members).value.0)
    ensures LookupName(AddAggregateVendor(db, members).value.0, AggregateKind, AddAggregateVendor(db, members).value.1).Some?
  {
    var built := AddAggregateVendor(db, members).value.0;
    forall k, c | LookupName(db, k, c).Some? ensures LookupName(built, k, c) == LookupName(db, k, c) {
      AddAggregateInvariant(db, members, k, c);
    }
    AddAggregateInvariant(db, members, AggregateKind, "");
    ReferencedSame(db, built);
  }

  /** Line 325 is unreachable in a run: every member is resolved before the aggregate is built. */
  lemma AddGroupWinnerInvariant(db: Db, cig: string, group: Option<seq<GroupMember>>)
    requires Valid(db) && Referenced(db)
    ensures AddGroupWinner(db, cig, group).Success?
    ensures Valid(AddGroupWinner(db, cig, group).value)
    ensures KeepsNames(db, AddGroupWinner(db, cig, group).value)
    ensures Referenced(AddGroupWinner(db, cig, group).value)
  {
    if group.Some? && |group.value| > 0 {
      var ms := group.value;
      var resolved := ResolveMembers(db, ms);
      ResolveMembersInvariant(db, ms);
      BuildAggregateReferenced(resolved, MembersOf(ms));
      var added := AddAggregateVendor(resolved, MembersOf(ms)).value;
      var linked := LinkAggregate(added.0, cig, added.1);
      assert AddGroupWinner(db, cig, group) == LinkGroup(resolved, cig, ms) == Success(linked);
      LinkAggregateReferenced(added.0, cig, added.1);
      KeepsNamesTrans(db, resolved, added.0);
      KeepsNamesTrans(db, added.0, linked);
    }
  }

  /** One lot never fails in a run, and keeps every invariant of the run. */
  lemma ExtractLotInvariant(db: Db, year: int, month: int, lot: Lot)
    requires Valid(db) && Referenced(db)
    ensures ExtractLot(db, year, month, lot).Success?
    ensures Valid(ExtractLot(db, year, month, lot).value)
    ensures KeepsNames(db, ExtractLot(db, year, month, lot).value)
    ensures Referenced(ExtractLot(db, year, month, lot).value)
  {
    var c := AddContract(db, year, month, lot);
    AddContractInvariant(db, year, month, lot);
    match lot.awardees
    case None =>
    case Some(a) =>
      var w := AddSingleWinner(c, lot.cig, a.single);
      AddSingleWinnerInvariant(c, lot.cig, a.single);
      AddGroupWinnerInvariant(w, lot.cig, a.group);
      KeepsNamesTrans(db, c, w);
      KeepsNamesTrans(db, w, AddGroupWinner(w, lot.cig, a.group).value);
  }

  lemma {:induction false} ExtractLotsInvariant(db: Db, year: int, month: int, lots: seq<Lot>)
    requires Valid(db) && Referenced(db)
    ensures ExtractLots(db, year, month, lots).Success?
    ensures Valid(ExtractLots(db, year, month, lots).value)
    ensures KeepsNames(db, ExtractLots(db, year, month, lots).value)
    ensures Referenced(ExtractLots(db, year, month, lots).value)
    decreases |lots|
  {
    if |lots| > 0 {
      ExtractLotInvariant(db, year, month, lots[0]);
      var next := ExtractLot(db, year, month, lots[0]).value;
      ExtractLotsInvariant(next, year, month, lots[1..]);
      KeepsNamesTrans(db, next, ExtractLots(next, year, month, lots[1..]).value);
    }
  }

  lemma {:induction false} ExtractBulletinsInvariant(db: Db, bs: seq<Bulletin>)
    requires Valid(db) && Referenced(db)
    ensures ExtractBulletins(db, bs).Success?
    ensures Valid(ExtractBulletins(db, bs).value)
    ensures Referenced(ExtractBulletins(db, bs).value)
    decreases |bs|
  {
    if |bs| > 0 {
      ExtractLotsInvariant(db, bs[0].year, bs[0].month, bs[0].lots);
      var next := ExtractLots(db, bs[0].year, bs[0].month, bs[0].lots).value;
      ExtractBulletinsInvariant(next, bs[1..]);
    }
  }

  lemma EmptyDbReferenced()
    ensures Referenced(EmptyDb)
  {
    assert Submitted(EmptyDb, Contracts) == [];
    assert Submitted(EmptyDb, Winners) == [];
    assert Submitted(EmptyDb, AggregateWinners) == [];
  }

  lemma FlushAllReferenced(db: Db)
    requires Valid(db) && Referenced(db)
    ensures Valid(FlushAll(db)) && Referenced(FlushAll(db))
  {
    var r := FlushAll(db);
    FlushAllValid(db);
    forall k, c | LookupName(db, k, c).Some? ensures LookupName(r, k, c) == LookupName(db, k, c) {
      FlushAllKeepsLookups(db, k, c);
    }
    assert Submitted(r, Contracts) == Submitted(db, Contracts) + [];
    assert Submitted(r, Winners) == Submitted(db, Winners) + [];
    assert Submitted(r, AggregateWinners) == Submitted(db, AggregateWinners) + [];
    ReferencedSame(db, r);
  }

  /**
   A whole run succeeds: the assertion of line 325 never fires. At the end the
   run invariant holds and every contract, winner and aggregate-winner row
   refers to a code with a canonical name.
   */
  lemma ExtractDataSucceeds(bs: seq<Bulletin>)
    ensures ExtractData(bs).Success?
    ensures Valid(ExtractData(bs).value)
    ensures Referenced(ExtractData(bs).value)
  {
    EmptyDbValid();
    EmptyDbReferenced();
    ExtractBulletinsInvariant(EmptyDb, bs);
    FlushAllReferenced(ExtractBulletins(EmptyDb, bs).value);
  }

  /** The canonical row a stored reference points to is itself stored. */
  ghost predicate StoredRefKnown(db: Db, row: Row) {
    match row
    case ContractRow(_, _, _, _, _, agency, _, _, _) => FindName(Stored(db, PublicAgencies), AgencyKind, agency).Some?
    case WinnerRow(_, vendor) => FindName(Stored(db, Vendors), VendorKind, vendor).Some?
    case AggregateWinnerRow(_, aggregate) => FindName(Stored(db, AggregateVendors), AggregateKind, aggregate).Some?
    case _ => true
  }

  /** Once nothing is pending, a known reference is a stored one. */
  lemma StoredRefAt(db: Db, t: Table, i: int)
    requires Valid(db) && Referenced(db) && forall u :: Buffered(db, u) == []
    requires t == Contracts || t == Winners || t == AggregateWinners
    requires 0 <= i < |Stored(db, t)|
    ensures StoredRefKnown(db, Stored(db, t)[i])
  {
    assert Submitted(db, t) == Stored(db, t) + [];
    var row := Stored(db, t)[i];
    assert RefKnown(db, Submitted(db, t)[i]);
    match row
    case ContractRow(_, _, _, _, _, agency, _, _, _) =>
      LookupSound(db, AgencyKind, agency);
      assert Submitted(db, PublicAgencies) == Stored(db, PublicAgencies) + [];
    case WinnerRow(_, vendor) =>
      LookupSound(db, VendorKind, vendor);
      assert Submitted(db, Vendors) == Stored(db, Vendors) + [];
    case AggregateWinnerRow(_, aggregate) =>
      LookupSound(db, AggregateKind, aggregate);
      assert Submitted(db, AggregateVendors) == Stored(db, AggregateVendors) + [];
    case _ =>
  }

  /** At the end of a run the stored tables are closed under their references. */
  lemma ExtractDataIntegrity(bs: seq<Bulletin>, t: Table, i: int)
    requires t == Contracts || t == Winners || t == AggregateWinners
    ensures ExtractData(bs).Success?
    ensures 0 <= i < |Stored(ExtractData(bs).value, t)| ==>
      StoredRefKnown(ExtractData(bs).value, Stored(ExtractData(bs).value, t)[i])
  {
    ExtractDataSucceeds(bs);
    if 0 <= i < |Stored(ExtractData(bs).value, t)| {
      StoredRefAt(ExtractData(bs).value, t, i);
    }
  }

  /** Resolving a member whose code is new appends exactly its canonical vendor row and affects no other code. */
  lemma ResolveNewMember(db: Db, m: GroupMember, name: string, other: string, aggregate: string)
    requires Valid(db) && m.companyName == Some(name) && other != m.id.code
    requires LookupName(db, VendorKind, m.id.code).None?
    ensures Valid(AddVendor(db, m.id.code, m.companyName, m.id.ForeignTaxId?))
    ensures LookupName(AddVendor(db, m.id.code, m.companyName, m.id.ForeignTaxId?), VendorKind, m.id.code) == Some(name)
    ensures LookupName(AddVendor(db, m.id.code, m.companyName, m.id.ForeignTaxId?), VendorKind, other) ==
      LookupName(db, VendorKind, other)
    ensures LookupName(AddVendor(db, m.id.code, m.companyName, m.id.ForeignTaxId?), AggregateKind, aggregate) ==
      LookupName(db, AggregateKind, aggregate)
    ensures Submitted(AddVendor(db, m.id.code, m.companyName, m.id.ForeignTaxId?), Vendors) ==
      Submitted(db, Vendors) + [VendorRow(m.id.code, name, Country(m.id.ForeignTaxId?))]
    ensures Submitted(AddVendor(db, m.id.code, m.companyName, m.id.ForeignTaxId?), AggregateVendors) ==
      Submitted(db, AggregateVendors)
  {
    ResolveInvariant(db, VendorKind, m.id.code, m.companyName, m.id.ForeignTaxId?);
    ResolveKeepsOthers(db, VendorKind, m.id.code, m.companyName, m.id.ForeignTaxId?, VendorKind, other);
    ResolveKeepsOthers(db, VendorKind, m.id.code, m.companyName, m.id.ForeignTaxId?, AggregateKind, aggregate);
  }

  lemma ResolveMembersPair(db: Db, a: GroupMember, b: GroupMember)
    ensures ResolveMembers(db, [a, b]) ==
      AddVendor(AddVendor(db, a.id.code, a.companyName, a.id.ForeignTaxId?), b.id.code, b.companyName, b.id.ForeignTaxId?)
  {
    var withA := AddVendor(db, a.id.code, a.companyName, a.id.ForeignTaxId?);
    assert ResolveMembers(withA, [b]) == ResolveMembers(AddVendor(withA, b.id.code, b.companyName, b.id.ForeignTaxId?), []) by {
      assert [b][0] == b && [b][1..] == [];
    }
    assert ResolveMembers(db, [a, b]) == ResolveMembers(withA, [b]) by {
      assert [a, b][0] == a && [a, b][1..] == [b];
    }
  }

  /** Resolving two new members, smaller code first: both rows appended in order, both names known. */
  lemma ResolveTwoNewMembers(db: Db, a: GroupMember, b: GroupMember, nameA: string, nameB: string, aggregate: string)
    requires Valid(db)
    requires a.companyName == Some(nameA) && b.companyName == Some(nameB)
    requires a.id.code != b.id.code
    requires LookupName(db, VendorKind, a.id.code).None? && LookupName(db, VendorKind, b.id.code).None?
    ensures LookupName(ResolveMembers(db, [a, b]), VendorKind, a.id.code) == Some(nameA)
    ensures LookupName(ResolveMembers(db, [a, b]), VendorKind, b.id.code) == Some(nameB)
    ensures LookupName(ResolveMembers(db, [a, b]), AggregateKind, aggregate) == LookupName(db, AggregateKind, aggregate)
    ensures Submitted(ResolveMembers(db, [a, b]), Vendors) == Submitted(db, Vendors)
      + [VendorRow(a.id.code, nameA, Country(a.id.ForeignTaxId?)), VendorRow(b.id.code, nameB, Country(b.id.ForeignTaxId?))]
    ensures Submitted(ResolveMembers(db, [a, b]), AggregateVendors) == Submitted(db, AggregateVendors)
  {
    var withA := AddVendor(db, a.id.code, a.companyName, a.id.ForeignTaxId?);
    ResolveNewMember(db, a, nameA, b.id.code, aggregate);
    var withB := AddVendor(withA, b.id.code, b.companyName, b.id.ForeignTaxId?);
    ResolveNewMember(withA, b, nameB, a.id.code, aggregate);
    ResolveMembersPair(db, a, b);
    AppendTwo(Submitted(db, Vendors), VendorRow(a.id.code, nameA, Country(a.id.ForeignTaxId?)),
      VendorRow(b.id.code, nameB, Country(b.id.ForeignTaxId?)));
  }

  lemma MembersOfPair(a: GroupMember, b: GroupMember)
    ensures MembersOf([a, b]) == [Member(a.id.code, a.role), Member(b.id.code, b.role)]
  {
  }

  /**
   The situation of a consortium of two new vendors, listed smaller code first
   (members "A1" Rossi and "A2" Bianchi, say), whose aggregate is not yet known.
   */
  ghost predicate NewPair(db: Db, a: GroupMember, b: GroupMember, nameA: string, nameB: string) {
    && Valid(db)
    && a.companyName == Some(nameA) && b.companyName == Some(nameB)
    && !LexLe(b.id.code, a.id.code)
    && LookupName(db, VendorKind, a.id.code).None? && LookupName(db, VendorKind, b.id.code).None?
    && LookupName(db, AggregateKind, a.id.code + "-" + b.id.code).None?
  }

  lemma PairGroupWinner(db: Db, cig: string, a: GroupMember, b: GroupMember)
    ensures
      var built := AddAggregateVendor(ResolveMembers(db, [a, b]), [Member(a.id.code, a.role), Member(b.id.code, b.role)]);
      built.Success? ==> AddGroupWinner(db, cig, Some([a, b])) == Success(LinkAggregate(built.value.0, cig, built.value.1))
  {
    MembersOfPair(a, b);
  }

  /** Both members get their canonical vendor row, in order, and the aggregate its row. */
  lemma TwoMemberGroupRows(db: Db, cig: string, a: GroupMember, b: GroupMember, nameA: string, nameB: string)
    requires NewPair(db, a, b, nameA, nameB)
    ensures AddGroupWinner(db, cig, Some([a, b])).Success?
    ensures Submitted(AddGroupWinner(db, cig, Some([a, b])).value, Vendors) == Submitted(db, Vendors)
      + [VendorRow(a.id.code, nameA, Country(a.id.ForeignTaxId?)), VendorRow(b.id.code, nameB, Country(b.id.ForeignTaxId?))]
    ensures Submitted(AddGroupWinner(db, cig, Some([a, b])).value, AggregateVendors) == Submitted(db, AggregateVendors)
      + [AggregateVendorRow(a.id.code + "-" + b.id.code, nameA + " | " + nameB)]
  {
    TwoMemberBuilt(db, a, b, nameA, nameB);
    PairGroupWinner(db, cig, a, b);
  }

  /** Once both members are resolved, the aggregate is built with the joined codes and names. */
  lemma TwoMemberBuilt(db: Db, a: GroupMember, b: GroupMember, nameA: string, nameB: string)
    requires NewPair(db, a, b, nameA, nameB)
    ensures
      var resolved := ResolveMembers(db, [a, b]);
      var built := AddAggregateVendor(resolved, [Member(a.id.code, a.role), Member(b.id.code, b.role)]);
      && built.Success?
      && Submitted(resolved, Vendors) == Submitted(db, Vendors)
        + [VendorRow(a.id.code, nameA, Country(a.id.ForeignTaxId?)), VendorRow(b.id.code, nameB, Country(b.id.ForeignTaxId?))]
      && Submitted(built.value.0, Vendors) == Submitted(resolved, Vendors)
      && Submitted(built.value.0, AggregateVendors) == Submitted(db, AggregateVendors)
        + [AggregateVendorRow(a.id.code + "-" + b.id.code, nameA + " | " + nameB)]
  {
    var aggregate := a.id.code + "-" + b.id.code;
    LexLeReflexive(a.id.code);
    ResolveTwoNewMembers(db, a, b, nameA, nameB, aggregate);
    var resolved := ResolveMembers(db, [a, b]);
    TwoMemberAggregate(resolved, Member(a.id.code, a.role), Member(b.id.code, b.role), nameA, nameB);
  }

  /** The group is linked to the contract under the joined member codes; no single-winner row appears. */
  lemma TwoMemberGroupLinks(db: Db, cig: string, a: GroupMember, b: GroupMember)
    requires !LexLe(b.id.code, a.id.code)
    ensures AddGroupWinner(db, cig, Some([a, b])).Success? ==> (Submitted(AddGroupWinner(db, cig, Some([a, b])).value, AggregateWinners)
      == Submitted(db, AggregateWinners) + [AggregateWinnerRow(cig, a.id.code + "-" + b.id.code)])
    ensures AddGroupWinner(db, cig, Some([a, b])).Success? ==>
      Submitted(AddGroupWinner(db, cig, Some([a, b])).value, Winners) == Submitted(db, Winners)
  {
    MembersOfPair(a, b);
    SortPair(Member(a.id.code, a.role), Member(b.id.code, b.role));
    JoinPair(a.id.code, b.id.code, "-");
  }

  /**
   A consortium of two new vendors: two vendor rows, one aggregate row whose
   code joins the member codes with "-" and whose name joins their names with
   " | ", one aggregate-winner row, and no winner row.
   */
  lemma TwoMemberGroup(db: Db, cig: string, a: GroupMember, b: GroupMember, nameA: string, nameB: string)
    requires NewPair(db, a, b, nameA, nameB)
    ensures AddGroupWinner(db, cig, Some([a, b])).Success?
    ensures Submitted(AddGroupWinner(db, cig, Some([a, b])).value, Vendors) == Submitted(db, Vendors)
      + [VendorRow(a.id.code, nameA, Country(a.id.ForeignTaxId?)), VendorRow(b.id.code, nameB, Country(b.id.ForeignTaxId?))]
    ensures Submitted(AddGroupWinner(db, cig, Some([a, b])).value, AggregateVendors) == Submitted(db, AggregateVendors)
      + [AggregateVendorRow(a.id.code + "-" + b.id.code, nameA + " | " + nameB)]
    ensures Submitted(AddGroupWinner(db, cig, Some([a, b])).value, AggregateWinners) == Submitted(db, AggregateWinners)
      + [AggregateWinnerRow(cig, a.id.code + "-" + b.id.code)]
    ensures Submitted(AddGroupWinner(db, cig, Some([a, b])).value, Winners) == Submitted(db, Winners)
  {
    TwoMemberGroupRows(db, cig, a, b, nameA, nameB);
    TwoMemberGroupLinks(db, cig, a, b);
  }
  /** The `add_vendor` calls of a group's members, in document order. */
  function MemberCalls(ms: seq<GroupMember>): (calls: seq<VendorCall>)
    ensures |calls| == |ms|
    ensures forall i :: 0 <= i < |ms| ==> calls[i] == VendorCall(ms[i].id.code, ms[i].companyName, ms[i].id.ForeignTaxId?)
  {
    seq(|ms|, i requires 0 <= i < |ms| => VendorCall(ms[i].id.code, ms[i].companyName, ms[i].id.ForeignTaxId?))
  }

  /** The `add_vendor` call of a single awardee: only one with a `ragioneSociale` element is resolved. */
  function SingleCalls(single: Option<Awardee>): seq<VendorCall> {
    match single
    case Some(Awardee(id, Some(name))) => [VendorCall(id.code, name, id.ForeignTaxId?)]
    case _ => []
  }

  /** The `add_vendor` calls of a lot, in the order lines 388-417 make them: the single awardee, then the members. */
  function LotCalls(awardees: Option<Awardees>): seq<VendorCall> {
    match awardees
    case None => []
    case Some(a) => SingleCalls(a.single) + (if a.group.Some? then MemberCalls(a.group.value) else [])
  }

  lemma MemberCallsTail(ms: seq<GroupMember>)
    requires |ms| > 0
    ensures MemberCalls(ms)[0] == VendorCall(ms[0].id.code, ms[0].companyName, ms[0].id.ForeignTaxId?)
    ensures MemberCalls(ms)[1..] == MemberCalls(ms[1..])
  {
  }

  lemma {:induction false} ResolveMembersAsCalls(db: Db, ms: seq<GroupMember>)
    ensures ResolveMembers(db, ms) == ResolveVendors(db, MemberCalls(ms))
    decreases |ms|
  {
    if |ms| > 0 {
      var calls := MemberCalls(ms);
      MemberCallsTail(ms);
      var next := AddVendor(db, ms[0].id.code, ms[0].companyName, ms[0].id.ForeignTaxId?);
      assert ResolveVendors(db, calls) == ResolveVendors(next, calls[1..]);
      ResolveMembersAsCalls(next, ms[1..]);
    }
  }

  /**
   Resolving a group's members appends one vendor row per member code not
   known before, under the name and country of its first listing, and one
   alternate-name row per later listing under another name; every member code
   ends with its earlier name or, failing one, the name of its first listing.
   */
  lemma ResolveMembersOutcome(db: Db, ms: seq<GroupMember>)
    requires Valid(db)
    ensures Valid(ResolveMembers(db, ms))
    ensures Submitted(ResolveMembers(db, ms), Vendors) == Submitted(db, Vendors) + BatchOutcome(db, MemberCalls(ms), map[]).canonical
    ensures Submitted(ResolveMembers(db, ms), VendorAltNames) ==
      Submitted(db, VendorAltNames) + BatchOutcome(db, MemberCalls(ms), map[]).alternates
    ensures forall c :: (LookupName(ResolveMembers(db, ms), VendorKind, c) ==
      CurrentName(db, BatchOutcome(db, MemberCalls(ms), map[]).learned, c))
  {
    ResolveMembersAsCalls(db, ms);
    ResolveVendorsOutcome(db, MemberCalls(ms));
  }

  /** Resolving and linking one awardee records what its `add_vendor` call records, and nothing else for vendors. */
  lemma ResolveWinnerOutcome(db: Db, cig: string, call: VendorCall)
    requires Valid(db)
    ensures Valid(ResolveWinner(db, cig, call.code, call.name, call.foreign))
    ensures Submitted(ResolveWinner(db, cig, call.code, call.name, call.foreign), Vendors) ==
      Submitted(db, Vendors) + CallOutcome(db, map[], call).canonical
    ensures Submitted(ResolveWinner(db, cig, call.code, call.name, call.foreign), VendorAltNames) ==
      Submitted(db, VendorAltNames) + CallOutcome(db, map[], call).alternates
    ensures forall c :: (LookupName(ResolveWinner(db, cig, call.code, call.name, call.foreign), VendorKind, c) ==
      CurrentName(db, CallOutcome(db, map[], call).learned, c))
  {
    var resolved := AddVendor(db, call.code, call.name, call.foreign);
    AddVendorOutcome(db, call);
    LinkWinnerKeepsVendors(resolved, cig, call.code);
    LinkWinnerFrame(resolved, cig, call.code);
    assert ResolveWinner(db, cig, call.code, call.name, call.foreign) == LinkWinner(resolved, cig, call.code);
  }

  /** Linking a winner keeps the run invariant and every vendor lookup. */
  lemma LinkWinnerKeepsVendors(db: Db, cig: string, code: string)
    requires Valid(db)
    ensures Valid(LinkWinner(db, cig, code))
    ensures forall c :: LookupName(LinkWinner(db, cig, code), VendorKind, c) == LookupName(db, VendorKind, c)
  {
    assert LinkWinner(db, cig, code) == BufferedInsert(db, WinnerRow(cig, code));
    InsertPlainRow(db, WinnerRow(cig, code));
    PlainInsertKeepsKind(db, WinnerRow(cig, code), VendorKind);
  }

  /** The single awardee records what its call, if any, records. */
  lemma SingleWinnerOutcome(db: Db, cig: string, single: Option<Awardee>)
    requires Valid(db)
    ensures Valid(AddSingleWinner(db, cig, single))
    ensures Submitted(AddSingleWinner(db, cig, single), Vendors) ==
      Submitted(db, Vendors) + BatchOutcome(db, SingleCalls(single), map[]).canonical
    ensures Submitted(AddSingleWinner(db, cig, single), VendorAltNames) ==
      Submitted(db, VendorAltNames) + BatchOutcome(db, SingleCalls(single), map[]).alternates
    ensures forall c :: (LookupName(AddSingleWinner(db, cig, single), VendorKind, c) ==
      CurrentName(db, BatchOutcome(db, SingleCalls(single), map[]).learned, c))
  {
    match single
    case Some(Awardee(id, Some(name))) =>
      var call := VendorCall(id.code, name, id.ForeignTaxId?);
      ResolveWinnerOutcome(db, cig, call);
      BatchOfOne(db, call, map[]);
    case _ =>
      assert Submitted(db, Vendors) + [] == Submitted(db, Vendors);
      assert Submitted(db, VendorAltNames) + [] == Submitted(db, VendorAltNames);
  }

  /** Building and linking the aggregate writes no vendor row. */
  lemma LinkGroupKeepsVendors(db: Db, cig: string, ms: seq<GroupMember>)
    ensures LinkGroup(db, cig, ms).Success? ==> Submitted(LinkGroup(db, cig, ms).value, Vendors) == Submitted(db, Vendors)
    ensures LinkGroup(db, cig, ms).Success? ==> Submitted(LinkGroup(db, cig, ms).value, VendorAltNames) == Submitted(db, VendorAltNames)
  {
    match AddAggregateVendor(db, MembersOf(ms))
    case Failure(_) =>
    case Success(added) =>
      assert Submitted(added.0, Vendors) == Submitted(db, Vendors);
      assert Submitted(added.0, VendorAltNames) == Submitted(db, VendorAltNames);
      LinkAggregateFrame(added.0, cig, added.1);
      assert LinkGroup(db, cig, ms) == Success(LinkAggregate(added.0, cig, added.1));
  }

  /** The group's members continue the batch the single awardee began. */
  lemma GroupAfterSingle(db: Db, s: Db, cig: string, single: seq<VendorCall>, ms: seq<GroupMember>)
    requires Valid(s)
    requires forall c :: LookupName(s, VendorKind, c) == CurrentName(db, BatchOutcome(db, single, map[]).learned, c)
    requires Submitted(s, Vendors) == Submitted(db, Vendors) + BatchOutcome(db, single, map[]).canonical
    requires Submitted(s, VendorAltNames) == Submitted(db, VendorAltNames) + BatchOutcome(db, single, map[]).alternates
    ensures Submitted(ResolveMembers(s, ms), Vendors) == Submitted(db, Vendors) + BatchOutcome(db, single + MemberCalls(ms), map[]).canonical
    ensures Submitted(ResolveMembers(s, ms), VendorAltNames) ==
      Submitted(db, VendorAltNames) + BatchOutcome(db, single + MemberCalls(ms), map[]).alternates
  {
    var first := BatchOutcome(db, single, map[]);
    var calls := MemberCalls(ms);
    ResolveMembersOutcome(s, ms);
    assert forall c :: CurrentName(s, map[], c) == CurrentName(db, first.learned, c);
    BatchOutcomeAgrees(s, db, calls, map[], first.learned);
    BatchOutcomeAppend(db, single, calls, map[]);
    var second := BatchOutcome(db, calls, first.learned);
    AppendAssoc(Submitted(db, Vendors), first.canonical, second.canonical);
    AppendAssoc(Submitted(db, VendorAltNames), first.alternates, second.alternates);
  }

  /**
   A lot's awardees record exactly the vendor rows and alternate-name rows
   its `add_vendor` calls record one after another, judged from the state
   before the lot's awardees.
   */
  lemma AddAwardeesVendors(db: Db, cig: string, awardees: Option<Awardees>)
    requires Valid(db)
    ensures AddAwardees(db, cig, awardees).Success? ==>
      Submitted(AddAwardees(db, cig, awardees).value, Vendors) == Submitted(db, Vendors) + BatchOutcome(db, LotCalls(awardees), map[]).canonical
    ensures AddAwardees(db, cig, awardees).Success? ==>
      Submitted(AddAwardees(db, cig, awardees).value, VendorAltNames) ==
        Submitted(db, VendorAltNames) + BatchOutcome(db, LotCalls(awardees), map[]).alternates
  {
    match awardees
    case None =>
      assert Submitted(db, Vendors) + [] == Submitted(db, Vendors);
      assert Submitted(db, VendorAltNames) + [] == Submitted(db, VendorAltNames);
    case Some(a) =>
      if |GroupOf(a.group)| > 0 {
        AwardeesWithGroupVendors(db, cig, a);
      } else {
        var s := AddSingleWinner(db, cig, a.single);
        SingleWinnerOutcome(db, cig, a.single);
        assert LotCalls(awardees) == SingleCalls(a.single);
        assert AddAwardees(db, cig, awardees) == AddGroupWinner(s, cig, a.group) == Success(s);
      }
  }

  /** The vendor side of awardees with a nonempty group: the single awardee's call, then the members'. */
  lemma AwardeesWithGroupVendors(db: Db, cig: string, a: Awardees)
    requires Valid(db) && |GroupOf(a.group)| > 0
    ensures AddAwardees(db, cig, Some(a)).Success? ==>
      Submitted(AddAwardees(db, cig, Some(a)).value, Vendors) == Submitted(db, Vendors) + BatchOutcome(db, LotCalls(Some(a)), map[]).canonical
    ensures AddAwardees(db, cig, Some(a)).Success? ==>
      Submitted(AddAwardees(db, cig, Some(a)).value, VendorAltNames) ==
        Submitted(db, VendorAltNames) + BatchOutcome(db, LotCalls(Some(a)), map[]).alternates
  {
    var single := SingleCalls(a.single);
    var s := AddSingleWinner(db, cig, a.single);
    SingleWinnerOutcome(db, cig, a.single);
    var ms := a.group.value;
    assert LotCalls(Some(a)) == single + MemberCalls(ms);
    GroupAfterSingle(db, s, cig, single, ms);
    LinkGroupKeepsVendors(ResolveMembers(s, ms), cig, ms);
    assert AddAwardees(db, cig, Some(a)) == AddGroupWinner(s, cig, a.group) == LinkGroup(ResolveMembers(s, ms), cig, ms);
  }

  /** The contract row and the proposing agency leave every vendor alone. */
  lemma AddContractVendors(db: Db, year: int, month: int, lot: Lot)
    requires Valid(db)
    ensures Valid(AddContract(db, year, month, lot))
    ensures Submitted(AddContract(db, year, month, lot), Vendors) == Submitted(db, Vendors)
    ensures Submitted(AddContract(db, year, month, lot), VendorAltNames) == Submitted(db, VendorAltNames)
    ensures forall x :: CurrentName(AddContract(db, year, month, lot), map[], x) == CurrentName(db, map[], x)
  {
    var row := ContractRowOf(lot, year, month);
    var withContract := InsertContract(db, row);
    InsertPlainRow(db, row);
    PlainInsertKeepsKind(db, row, VendorKind);
    AgencyKeepsVendors(withContract, lot.proponent.fiscalCode, lot.proponent.name);
    assert AddContract(db, year, month, lot) == AddAgency(withContract, lot.proponent.fiscalCode, lot.proponent.name);
  }

  /** Resolving an agency keeps the run invariant and leaves every vendor alone. */
  lemma AgencyKeepsVendors(db: Db, code: string, name: Option<string>)
    requires Valid(db)
    ensures Valid(AddAgency(db, code, name))
    ensures Submitted(AddAgency(db, code, name), Vendors) == Submitted(db, Vendors)
    ensures Submitted(AddAgency(db, code, name), VendorAltNames) == Submitted(db, VendorAltNames)
    ensures forall x :: CurrentName(AddAgency(db, code, name), map[], x) == CurrentName(db, map[], x)
  {
    ResolveInvariant(db, AgencyKind, code, name, false);
    forall x ensures CurrentName(AddAgency(db, code, name), map[], x) == CurrentName(db, map[], x) {
      ResolveKeepsOthers(db, AgencyKind, code, name, false, VendorKind, x);
    }
  }

  /**
   The vendor side of one lot: the vendor rows and alternate-name rows it
   appends are exactly those its `add_vendor` calls record, in document
   order, judged from the state before the lot; the contract row and the
   proposing agency do not affect them.
   */
  lemma ExtractLotVendors(db: Db, year: int, month: int, lot: Lot)
    requires Valid(db)
    ensures ExtractLot(db, year, month, lot).Success? ==>
      Submitted(ExtractLot(db, year, month, lot).value, Vendors) ==
        Submitted(db, Vendors) + BatchOutcome(db, LotCalls(lot.awardees), map[]).canonical
    ensures ExtractLot(db, year, month, lot).Success? ==>
      Submitted(ExtractLot(db, year, month, lot).value, VendorAltNames) ==
        Submitted(db, VendorAltNames) + BatchOutcome(db, LotCalls(lot.awardees), map[]).alternates
  {
    var c := AddContract(db, year, month, lot);
    AddContractVendors(db, year, month, lot);
    AddAwardeesVendors(c, lot.cig, lot.awardees);
    BatchOutcomeAgrees(c, db, LotCalls(lot.awardees), map[], map[]);
    assert ExtractLot(db, year, month, lot) == AddAwardees(c, lot.cig, lot.awardees);
  }

  /** The names of `codes` at the end of a batch, judged from the state before it. */
  function CurrentNames(db: Db, learned: map<string, string>, codes: seq<string>): (names: seq<string>)
    ensures |names| == |codes|
    ensures forall i :: 0 <= i < |codes| ==> names[i] == CurrentName(db, learned, codes[i]).GetOr("")
  {
    seq(|codes|, i requires 0 <= i < |codes| => CurrentName(db, learned, codes[i]).GetOr(""))
  }

  /**
   The aggregate-vendor rows a nonempty group records, judged from a state
   `db` and the vendor names `learned` since: when its code (the sorted
   member codes joined with "-") is not known in `db`, one row with that code
   and the members' current names joined with " | "; nothing otherwise.
   */
  function GroupRowsFrom(db: Db, learned: map<string, string>, ms: seq<GroupMember>): seq<Row> {
    var codes := SortedCodes(MembersOf(ms));
    var code := Join(codes, "-");
    if |ms| == 0 || LookupName(db, AggregateKind, code).Some? then []
    else [AggregateVendorRow(code, Join(CurrentNames(db, learned, codes), " | "))]
  }

  /**
   The aggregate-vendor rows of a lot, judged from the state before it: those
   of its group, each member named as it is once all the lot's `add_vendor`
   calls are made. Every member has a name by then, so the "" default of
   `CurrentNames` never shows in a lot that succeeds.
   */
  function LotAggregateRows(db: Db, awardees: Option<Awardees>): seq<Row> {
    GroupRowsFrom(db, BatchOutcome(db, LotCalls(awardees), map[]).learned, LotGroup(awardees))
  }

  /** Resolving the members of a group leaves the aggregates alone. */
  lemma {:induction false} ResolveMembersKeepsAggregates(db: Db, ms: seq<GroupMember>)
    ensures SameAggregates(db, ResolveMembers(db, ms))
    decreases |ms|
  {
    if |ms| > 0 {
      var next := AddVendor(db, ms[0].id.code, ms[0].companyName, ms[0].id.ForeignTaxId?);
      ResolveKeepsAggregates(db, VendorKind, ms[0].id.code, ms[0].companyName, ms[0].id.ForeignTaxId?);
      assert next == Resolve(db, VendorKind, ms[0].id.code, ms[0].companyName, ms[0].id.ForeignTaxId?);
      ResolveMembersKeepsAggregates(next, ms[1..]);
      assert ResolveMembers(db, ms) == ResolveMembers(next, ms[1..]);
    }
  }

  /** The single awardee leaves the aggregates alone. */
  lemma SingleWinnerKeepsAggregates(db: Db, cig: string, single: Option<Awardee>)
    ensures SameAggregates(db, AddSingleWinner(db, cig, single))
  {
    match single
    case Some(Awardee(id, Some(name))) =>
      ResolveWinnerKeepsAggregates(db, cig, id.code, name, id.ForeignTaxId?);
      assert AddSingleWinner(db, cig, single) == ResolveWinner(db, cig, id.code, name, id.ForeignTaxId?);
    case _ =>
  }

  lemma ResolveWinnerKeepsAggregates(db: Db, cig: string, code: string, name: Option<string>, foreign: bool)
    ensures SameAggregates(db, ResolveWinner(db, cig, code, name, foreign))
  {
    var resolved := Resolve(db, VendorKind, code, name, foreign);
    ResolveKeepsAggregates(db, VendorKind, code, name, foreign);
    InsertKeepsAggregates(resolved, WinnerRow(cig, code));
    assert ResolveWinner(db, cig, code, name, foreign) == BufferedInsert(resolved, WinnerRow(cig, code));
  }

  /** The contract row and the proposing agency leave the aggregates alone. */
  lemma AddContractKeepsAggregates(db: Db, year: int, month: int, lot: Lot)
    ensures SameAggregates(db, AddContract(db, year, month, lot))
  {
    var row := ContractRowOf(lot, year, month);
    var withContract := InsertContract(db, row);
    InsertKeepsAggregates(db, row);
    ResolveKeepsAggregates(withContract, AgencyKind, lot.proponent.fiscalCode, lot.proponent.name, false);
    assert AddContract(db, year, month, lot) == Resolve(withContract, AgencyKind, lot.proponent.fiscalCode, lot.proponent.name, false);
  }

  /** After the single awardee and the members, every vendor code has the name the lot's calls leave it. */
  lemma MembersAfterSingleNames(db: Db, s: Db, single: seq<VendorCall>, ms: seq<GroupMember>)
    requires Valid(s)
    requires forall c :: LookupName(s, VendorKind, c) == CurrentName(db, BatchOutcome(db, single, map[]).learned, c)
    ensures forall c :: (LookupName(ResolveMembers(s, ms), VendorKind, c) ==
      CurrentName(db, BatchOutcome(db, single + MemberCalls(ms), map[]).learned, c))
  {
    var first := BatchOutcome(db, single, map[]);
    var calls := MemberCalls(ms);
    ResolveMembersOutcome(s, ms);
    assert forall c :: CurrentName(s, map[], c) == CurrentName(db, first.learned, c);
    BatchOutcomeAgrees(s, db, calls, map[], first.learned);
    BatchOutcomeAppend(db, single, calls, map[]);
  }

  /** The row `add_aggregate_vendor` adds once the members are resolved is the one judged from before them. */
  lemma NewRowsFromBefore(db: Db, resolved: Db, learned: map<string, string>, ms: seq<GroupMember>)
    requires |ms| > 0
    requires SameAggregates(db, resolved)
    requires AllKnown(resolved, Codes(MembersOf(ms)))
    requires forall c :: LookupName(resolved, VendorKind, c) == CurrentName(db, learned, c)
    ensures NewAggregateRows(resolved, MembersOf(ms)) == GroupRowsFrom(db, learned, ms)
  {
    var codes := SortedCodes(MembersOf(ms));
    AllKnownSorted(resolved, MembersOf(ms));
    SameAggregatesLookup(db, resolved, Join(codes, "-"));
    KnownNamesAreCurrent(db, resolved, learned, codes);
  }

  /** Known names read in a state whose every lookup is a current name are those current names. */
  lemma KnownNamesAreCurrent(db: Db, resolved: Db, learned: map<string, string>, codes: seq<string>)
    requires AllKnown(resolved, codes)
    requires forall c :: LookupName(resolved, VendorKind, c) == CurrentName(db, learned, c)
    ensures KnownNames(resolved, codes) == CurrentNames(db, learned, codes)
  {
    var known := KnownNames(resolved, codes);
    forall i | 0 <= i < |codes| ensures known[i] == CurrentNames(db, learned, codes)[i] {
      assert LookupName(resolved, VendorKind, codes[i]) == CurrentName(db, learned, codes[i]);
    }
  }

  /** The awardees add exactly the aggregate-vendor rows `LotAggregateRows` computes from the state before them. */
  lemma AddAwardeesAggregates(db: Db, cig: string, awardees: Option<Awardees>)
    requires Valid(db)
    ensures AddAwardees(db, cig, awardees).Success? ==>
      Submitted(AddAwardees(db, cig, awardees).value, AggregateVendors) == Submitted(db, AggregateVendors) + LotAggregateRows(db, awardees)
  {
    if |LotGroup(awardees)| == 0 {
      assert Submitted(db, AggregateVendors) + [] == Submitted(db, AggregateVendors);
    } else {
      var a := awardees.value;
      var ms := a.group.value;
      var single := SingleCalls(a.single);
      var s := AddSingleWinner(db, cig, a.single);
      SingleWinnerOutcome(db, cig, a.single);
      SingleWinnerKeepsAggregates(db, cig, a.single);
      var resolved := ResolveMembers(s, ms);
      ResolveMembersKeepsAggregates(s, ms);
      MembersAfterSingleNames(db, s, single, ms);
      assert LotCalls(awardees) == single + MemberCalls(ms);
      var r := LinkGroup(resolved, cig, ms);
      assert AddAwardees(db, cig, awardees) == AddGroupWinner(s, cig, a.group) == r;
      if r.Success? {
        NewRowsFromBefore(db, resolved, BatchOutcome(db, LotCalls(awardees), map[]).learned, ms);
      }
    }
  }

  /** Starting points that agree on aggregates and on every vendor name give a lot the same aggregate rows. */
  lemma LotAggregateRowsAgree(db: Db, r: Db, awardees: Option<Awardees>)
    requires SameAggregates(db, r)
    requires forall x :: CurrentName(r, map[], x) == CurrentName(db, map[], x)
    ensures LotAggregateRows(r, awardees) == LotAggregateRows(db, awardees)
  {
    var calls := LotCalls(awardees);
    BatchOutcomeAgrees(r, db, calls, map[], map[]);
    GroupRowsAgree(db, r, BatchOutcome(db, calls, map[]).learned, BatchOutcome(r, calls, map[]).learned, LotGroup(awardees));
  }

  /** A group's rows depend only on the aggregates and on the members' current names. */
  lemma GroupRowsAgree(db: Db, r: Db, learned: map<string, string>, learned': map<string, string>, ms: seq<GroupMember>)
    requires SameAggregates(db, r)
    requires forall x :: CurrentName(r, learned', x) == CurrentName(db, learned, x)
    ensures GroupRowsFrom(r, learned', ms) == GroupRowsFrom(db, learned, ms)
  {
    var codes := SortedCodes(MembersOf(ms));
    SameAggregatesLookup(db, r, Join(codes, "-"));
    forall i | 0 <= i < |codes| ensures CurrentNames(r, learned', codes)[i] == CurrentNames(db, learned, codes)[i] {
      assert CurrentName(r, learned', codes[i]) == CurrentName(db, learned, codes[i]);
    }
    assert CurrentNames(r, learned', codes) == CurrentNames(db, learned, codes);
  }

  /**
   The aggregate side of one lot: the aggregate-vendor rows it appends are
   exactly those of its group, judged from the state before the lot; the
   contract row and the proposing agency do not affect them.
   */
  lemma ExtractLotAggregates(db: Db, year: int, month: int, lot: Lot)
    requires Valid(db)
    ensures ExtractLot(db, year, month, lot).Success? ==>
      Submitted(ExtractLot(db, year, month, lot).value, AggregateVendors) ==
        Submitted(db, AggregateVendors) + LotAggregateRows(db, lot.awardees)
  {
    var c := AddContract(db, year, month, lot);
    AddContractVendors(db, year, month, lot);
    AddContractKeepsAggregates(db, year, month, lot);
    AddAwardeesAggregates(c, lot.cig, lot.awardees);
    LotAggregateRowsAgree(db, c, lot.awardees);
    assert ExtractLot(db, year, month, lot) == AddAwardees(c, lot.cig, lot.awardees);
  }
}
