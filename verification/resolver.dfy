/**
 The entity resolver: `add_vendor` and `add_agency`. A code seen for the first
 time gets a canonical row; a known code seen under a different name (exact
 string comparison) gets an alternate-name row; a known code under its
 canonical name changes nothing.
 */
module Resolver {
  import opened Wrappers
  import opened Records
  import opened RecordBuffer
  import opened Identity
  import opened Sequences

  /** The name substituted when the XML gives none: `"NoneVendorName" + code` or `"NoneAgencyName" + code`. */
  function Placeholder(k: Kind, code: string): string
    requires k != AggregateKind
  {
    if k == VendorKind then "NoneVendorName" + code else "NoneAgencyName" + code
  }

  function Country(foreign: bool): string {
    if foreign then "NOT ITALY" else "ITALY"
  }

  /** The canonical row for a new vendor or agency; only vendors carry a country. */
  function CanonicalRow(k: Kind, code: string, name: string, foreign: bool): (row: Row)
    requires k != AggregateKind
    ensures Names(row, k, code) && row.name == name && TableOf(row) == EntityTable(k)
  {
    if k == VendorKind then VendorRow(code, name, Country(foreign)) else AgencyRow(code, name)
  }

  function AltTable(k: Kind): Table
    requires k != AggregateKind
  {
    if k == VendorKind then VendorAltNames else PublicAgencyAltNames
  }

  function AltNameRow(k: Kind, code: string, name: string): (row: Row)
    requires k != AggregateKind
    ensures TableOf(row) == AltTable(k) && forall k' :: !IsCanonical(row, k')
  {
    if k == VendorKind then VendorAltNameRow(code, name) else AgencyAltNameRow(code, name)
  }

  /** The name a resolution works with: the given one, or the placeholder when absent. */
  function ObservedName(k: Kind, code: string, name: Option<string>): string
    requires k != AggregateKind
  {
    name.GetOr(Placeholder(k, code))
  }

  /** Shared body of `add_vendor` and `add_agency`. */
  function Resolve(db: Db, k: Kind, code: string, name: Option<string>, foreign: bool): (r: Db)
    requires k != AggregateKind
    // a new code: exactly one canonical row, no alternate name
    ensures LookupName(db, k, code).None? ==>
      && Submitted(r, EntityTable(k)) == Submitted(db, EntityTable(k)) + [CanonicalRow(k, code, ObservedName(k, code, name), foreign)]
      && Submitted(r, AltTable(k)) == Submitted(db, AltTable(k))
    // a known code under another name: exactly one alternate-name row; canonical rows and caches untouched
    ensures LookupName(db, k, code).Some? && LookupName(db, k, code).value != ObservedName(k, code, name) ==>
      && Submitted(r, AltTable(k)) == Submitted(db, AltTable(k)) + [AltNameRow(k, code, ObservedName(k, code, name))]
      && Submitted(r, EntityTable(k)) == Submitted(db, EntityTable(k))
      && forall k' :: Cache(r, k') == Cache(db, k')
    // a known code under its canonical name: nothing happens
    ensures LookupName(db, k, code) == Some(ObservedName(k, code, name)) ==> r == db
    // no other table is touched
    ensures forall t :: t != EntityTable(k) && t != AltTable(k) ==> Submitted(r, t) == Submitted(db, t)
  {
    var observed := ObservedName(k, code, name);
    match LookupName(db, k, code)
    case None => BufferedInsert(db, CanonicalRow(k, code, observed, foreign))
    case Some(found) =>
      if found == observed then db else BufferedInsert(db, AltNameRow(k, code, observed))
  }

  /**
   What one resolution records in its kind's two tables, judged from the
   state before it: a canonical row for an unknown code, an alternate-name
   row for a known code under another name, nothing otherwise.
   */
  predicate ResolutionEffect(db: Db, r: Db, k: Kind, code: string, name: Option<string>, foreign: bool)
    requires k != AggregateKind
  {
    var observed := ObservedName(k, code, name);
    match LookupName(db, k, code)
    case None =>
      && Submitted(r, EntityTable(k)) == Submitted(db, EntityTable(k)) + [CanonicalRow(k, code, observed, foreign)]
      && Submitted(r, AltTable(k)) == Submitted(db, AltTable(k))
    case Some(found) =>
      && Submitted(r, EntityTable(k)) == Submitted(db, EntityTable(k))
      && Submitted(r, AltTable(k)) == Submitted(db, AltTable(k)) + (if found == observed then [] else [AltNameRow(k, code, observed)])
  }

  /** A step that leaves a kind's canonical and alternate-name rows as they were. */
  predicate SameTables(db: Db, r: Db, k: Kind)
    requires k != AggregateKind
  {
    && Submitted(r, EntityTable(k)) == Submitted(db, EntityTable(k))
    && Submitted(r, AltTable(k)) == Submitted(db, AltTable(k))
  }

  /** A step that leaves a kind alone altogether: its rows, its stored rows and its cache, hence its lookups. */
  predicate SameKind(db: Db, r: Db, k: Kind)
    requires k != AggregateKind
  {
    && SameTables(db, r, k)
    && Stored(r, EntityTable(k)) == Stored(db, EntityTable(k))
    && Cache(r, k) == Cache(db, k)
  }

  /** `add_vendor`: new vendors are domestic ("ITALY") unless flagged foreign ("NOT ITALY"). */
  function AddVendor(db: Db, code: string, name: Option<string>, foreign: bool): (r: Db)
    ensures LookupName(db, VendorKind, code).None? ==>
      Submitted(r, Vendors) == Submitted(db, Vendors) + [VendorRow(code, name.GetOr("NoneVendorName" + code), if foreign then "NOT ITALY" else "ITALY")]
    ensures ResolutionEffect(db, r, VendorKind, code, name, foreign)
    ensures forall t :: t != Vendors && t != VendorAltNames ==> Submitted(r, t) == Submitted(db, t)
  {
    Resolve(db, VendorKind, code, name, foreign)
  }

  /** `add_agency`: same rule, agencies carry no country. */
  function AddAgency(db: Db, code: string, name: Option<string>): (r: Db)
    ensures LookupName(db, AgencyKind, code).None? ==>
      Submitted(r, PublicAgencies) == Submitted(db, PublicAgencies) + [AgencyRow(code, name.GetOr("NoneAgencyName" + code))]
    ensures ResolutionEffect(db, r, AgencyKind, code, name, false)
    ensures forall t :: t != PublicAgencies && t != PublicAgencyAltNames ==> Submitted(r, t) == Submitted(db, t)
  {
    Resolve(db, AgencyKind, code, name, false)
  }

  /** A resolution's effect survives a step before it that leaves the kind alone. */
  lemma EffectBefore(db: Db, mid: Db, r: Db, k: Kind, code: string, name: Option<string>, foreign: bool)
    requires k != AggregateKind
    requires SameKind(db, mid, k) && ResolutionEffect(mid, r, k, code, name, foreign)
    ensures ResolutionEffect(db, r, k, code, name, foreign)
  {
    assert LookupName(mid, k, code) == LookupName(db, k, code);
  }

  /** A resolution's effect survives a step after it that leaves the kind's two tables alone. */
  lemma EffectAfter(db: Db, mid: Db, r: Db, k: Kind, code: string, name: Option<string>, foreign: bool)
    requires k != AggregateKind
    requires ResolutionEffect(db, mid, k, code, name, foreign)
    requires Submitted(r, EntityTable(k)) == Submitted(mid, EntityTable(k))
    requires Submitted(r, AltTable(k)) == Submitted(mid, AltTable(k))
    ensures ResolutionEffect(db, r, k, code, name, foreign)
  {
  }

  /**
   Resolution keeps the run invariant, makes the first-seen name the code's
   canonical name for good, and forgets no code of any kind.
   */
  lemma ResolveInvariant(db: Db, k: Kind, code: string, name: Option<string>, foreign: bool)
    requires Valid(db) && k != AggregateKind
    ensures Valid(Resolve(db, k, code, name, foreign))
    ensures LookupName(Resolve(db, k, code, name, foreign), k, code) == Some(LookupName(db, k, code).GetOr(ObservedName(k, code, name)))
  {
    var observed := ObservedName(k, code, name);
    match LookupName(db, k, code)
    case None =>
      var row := CanonicalRow(k, code, observed, foreign);
      ValidInsert(db, row);
      LookupStable(db, row, k, code);
    case Some(found) =>
      if found != observed {
        var row := AltNameRow(k, code, observed);
        ValidInsert(db, row);
        LookupStable(db, row, k, code);
      }
  }

  /** No code is forgotten by a resolution, and no known name changes. */
  lemma ResolveKeepsKnown(db: Db, k: Kind, code: string, name: Option<string>, foreign: bool, k': Kind, code': string)
    requires Valid(db) && k != AggregateKind
    requires LookupName(db, k', code').Some?
    ensures LookupName(Resolve(db, k, code, name, foreign), k', code') == LookupName(db, k', code')
  {
    var observed := ObservedName(k, code, name);
    match LookupName(db, k, code)
    case None =>
      LookupStable(db, CanonicalRow(k, code, observed, foreign), k', code');
    case Some(found) =>
      if found != observed {
        LookupStable(db, AltNameRow(k, code, observed), k', code');
      }
  }

  /** Resolution only ever concerns its own code: every other code, known or not, looks up as before. */
  lemma ResolveKeepsOthers(db: Db, k: Kind, code: string, name: Option<string>, foreign: bool, k': Kind, code': string)
    requires Valid(db) && k != AggregateKind
    requires k' != k || code' != code
    ensures LookupName(Resolve(db, k, code, name, foreign), k', code') == LookupName(db, k', code')
  {
    var r := Resolve(db, k, code, name, foreign);
    if LookupName(db, k', code').Some? {
      ResolveKeepsKnown(db, k, code, name, foreign, k', code');
    } else {
      ResolveInvariant(db, k, code, name, foreign);
      LookupSound(db, k', code');
      LookupSound(r, k', code');
      var before := Submitted(db, EntityTable(k'));
      if k' == k && LookupName(db, k, code).None? {
        var row := CanonicalRow(k, code, ObservedName(k, code, name), foreign);
        FindNameAppend(before, [row], k', code');
      } else {
        assert Submitted(r, EntityTable(k')) == before;
      }
    }
  }

  /** Resolving a vendor or an agency leaves the aggregates alone. */
  lemma ResolveKeepsAggregates(db: Db, k: Kind, code: string, name: Option<string>, foreign: bool)
    requires k != AggregateKind
    ensures SameAggregates(db, Resolve(db, k, code, name, foreign))
  {
    var observed := ObservedName(k, code, name);
    match LookupName(db, k, code)
    case None =>
      InsertKeepsAggregates(db, CanonicalRow(k, code, observed, foreign));
    case Some(found) =>
      if found != observed {
        InsertKeepsAggregates(db, AltNameRow(k, code, observed));
      }
  }

  /** One call of `add_vendor`: the code, the `ragioneSociale` text, and whether the code is a foreign tax id. */
  datatype VendorCall = VendorCall(code: string, name: Option<string>, foreign: bool)

  /** Calls `add_vendor` for each of `calls`, in order. */
  function ResolveVendors(db: Db, calls: seq<VendorCall>): Db
    decreases |calls|
  {
    if |calls| == 0 then db
    else ResolveVendors(AddVendor(db, calls[0].code, calls[0].name, calls[0].foreign), calls[1..])
  }

  /**
   The name a vendor code has partway through a batch of calls: the one
   learned earlier in the batch, or else the one it had before the batch.
   */
  function CurrentName(db: Db, learned: map<string, string>, code: string): Option<string> {
    if code in learned then Some(learned[code]) else LookupName(db, VendorKind, code)
  }

  /** The vendor rows and alternate-name rows a batch records, and the names it teaches. */
  datatype Outcome = Outcome(canonical: seq<Row>, alternates: seq<Row>, learned: map<string, string>)

  /** What one call records, given the names known so far. */
  function CallOutcome(db: Db, learned: map<string, string>, call: VendorCall): Outcome {
    var observed := ObservedName(VendorKind, call.code, call.name);
    match CurrentName(db, learned, call.code)
    case None => Outcome([CanonicalRow(VendorKind, call.code, observed, call.foreign)], [], learned[call.code := observed])
    case Some(found) =>
      Outcome([], if found == observed then [] else [AltNameRow(VendorKind, call.code, observed)], learned)
  }

  /**
   What a batch of calls records, computed from the state before the batch
   alone: the first call of a code decides its canonical name and country,
   every later call under another name adds an alternate name.
   */
  function BatchOutcome(db: Db, calls: seq<VendorCall>, learned: map<string, string>): Outcome
    decreases |calls|
  {
    if |calls| == 0 then Outcome([], [], learned)
    else
      var first := CallOutcome(db, learned, calls[0]);
      var rest := BatchOutcome(db, calls[1..], first.learned);
      Outcome(first.canonical + rest.canonical, first.alternates + rest.alternates, rest.learned)
  }

  /** Two starting points on which every code has the same current name record the same batch. */
  lemma {:induction false} BatchOutcomeAgrees(db: Db, db': Db, calls: seq<VendorCall>, l: map<string, string>, l': map<string, string>)
    requires forall c :: CurrentName(db, l, c) == CurrentName(db', l', c)
    ensures BatchOutcome(db, calls, l).canonical == BatchOutcome(db', calls, l').canonical
    ensures BatchOutcome(db, calls, l).alternates == BatchOutcome(db', calls, l').alternates
    ensures forall c :: CurrentName(db, BatchOutcome(db, calls, l).learned, c) == CurrentName(db', BatchOutcome(db', calls, l').learned, c)
    decreases |calls|
  {
    if |calls| > 0 {
      var first := CallOutcome(db, l, calls[0]);
      var first' := CallOutcome(db', l', calls[0]);
      assert CurrentName(db, l, calls[0].code) == CurrentName(db', l', calls[0].code);
      forall c ensures CurrentName(db, first.learned, c) == CurrentName(db', first'.learned, c) {
        assert CurrentName(db, l, c) == CurrentName(db', l', c);
      }
      BatchOutcomeAgrees(db, db', calls[1..], first.learned, first'.learned);
    }
  }

  /** A batch split in two records what its halves record, the second half continuing from the first's names. */
  lemma {:induction false} BatchOutcomeAppend(db: Db, a: seq<VendorCall>, b: seq<VendorCall>, l: map<string, string>)
    ensures BatchOutcome(db, a + b, l).canonical ==
      BatchOutcome(db, a, l).canonical + BatchOutcome(db, b, BatchOutcome(db, a, l).learned).canonical
    ensures BatchOutcome(db, a + b, l).alternates ==
      BatchOutcome(db, a, l).alternates + BatchOutcome(db, b, BatchOutcome(db, a, l).learned).alternates
    ensures BatchOutcome(db, a + b, l).learned == BatchOutcome(db, b, BatchOutcome(db, a, l).learned).learned
    decreases |a|
  {
    if |a| == 0 {
      assert a + b == b;
    } else {
      var step := CallOutcome(db, l, a[0]);
      var tail := BatchOutcome(db, a[1..], step.learned);
      var second := BatchOutcome(db, b, tail.learned);
      assert (a + b)[1..] == a[1..] + b;
      var whole := BatchOutcome(db, a[1..] + b, step.learned);
      assert BatchOutcome(db, a + b, l) == Outcome(step.canonical + whole.canonical, step.alternates + whole.alternates, whole.learned);
      assert BatchOutcome(db, a, l) == Outcome(step.canonical + tail.canonical, step.alternates + tail.alternates, tail.learned);
      BatchOutcomeAppend(db, a[1..], b, step.learned);
      AppendAssoc(step.canonical, tail.canonical, second.canonical);
      AppendAssoc(step.alternates, tail.alternates, second.alternates);
    }
  }

  /** After one `add_vendor` call every vendor code has the name it had, the call's code included. */
  lemma AddVendorNames(db: Db, call: VendorCall)
    requires Valid(db)
    ensures forall c :: (LookupName(AddVendor(db, call.code, call.name, call.foreign), VendorKind, c) ==
      CurrentName(db, CallOutcome(db, map[], call).learned, c))
  {
    var r := AddVendor(db, call.code, call.name, call.foreign);
    var learned := CallOutcome(db, map[], call).learned;
    ResolveInvariant(db, VendorKind, call.code, call.name, call.foreign);
    assert LookupName(r, VendorKind, call.code) == CurrentName(db, learned, call.code);
    forall c | c != call.code ensures LookupName(r, VendorKind, c) == CurrentName(db, learned, c) {
      ResolveKeepsOthers(db, VendorKind, call.code, call.name, call.foreign, VendorKind, c);
    }
  }

  /** A batch of one call records what that call records. */
  lemma BatchOfOne(db: Db, call: VendorCall, l: map<string, string>)
    ensures BatchOutcome(db, [call], l).canonical == CallOutcome(db, l, call).canonical
    ensures BatchOutcome(db, [call], l).alternates == CallOutcome(db, l, call).alternates
    ensures BatchOutcome(db, [call], l).learned == CallOutcome(db, l, call).learned
  {
    assert [call][0] == call && [call][1..] == [];
    var first := CallOutcome(db, l, call);
    assert first.canonical + [] == first.canonical && first.alternates + [] == first.alternates;
  }

  /** One `add_vendor` call records what `CallOutcome` says, and every code ends with its current name. */
  lemma AddVendorOutcome(db: Db, call: VendorCall)
    requires Valid(db)
    ensures Valid(AddVendor(db, call.code, call.name, call.foreign))
    ensures Submitted(AddVendor(db, call.code, call.name, call.foreign), Vendors) ==
      Submitted(db, Vendors) + CallOutcome(db, map[], call).canonical
    ensures Submitted(AddVendor(db, call.code, call.name, call.foreign), VendorAltNames) ==
      Submitted(db, VendorAltNames) + CallOutcome(db, map[], call).alternates
    ensures forall c :: (LookupName(AddVendor(db, call.code, call.name, call.foreign), VendorKind, c) ==
      CurrentName(db, CallOutcome(db, map[], call).learned, c))
  {
    ResolveInvariant(db, VendorKind, call.code, call.name, call.foreign);
    AddVendorNames(db, call);
    assert LookupName(db, VendorKind, call.code) == CurrentName(db, map[], call.code);
  }

  /**
   A batch of `add_vendor` calls records exactly the rows `BatchOutcome`
   computes from the state before the batch, and leaves every vendor code
   with the name the batch's first call of it gave, unless it had one before.
   */
  lemma {:induction false} ResolveVendorsOutcome(db: Db, calls: seq<VendorCall>)
    requires Valid(db)
    ensures Valid(ResolveVendors(db, calls))
    ensures Submitted(ResolveVendors(db, calls), Vendors) == Submitted(db, Vendors) + BatchOutcome(db, calls, map[]).canonical
    ensures Submitted(ResolveVendors(db, calls), VendorAltNames) ==
      Submitted(db, VendorAltNames) + BatchOutcome(db, calls, map[]).alternates
    ensures forall c :: LookupName(ResolveVendors(db, calls), VendorKind, c) == CurrentName(db, BatchOutcome(db, calls, map[]).learned, c)
    decreases |calls|
  {
    if |calls| == 0 {
      assert Submitted(db, Vendors) + [] == Submitted(db, Vendors);
      assert Submitted(db, VendorAltNames) + [] == Submitted(db, VendorAltNames);
    } else {
      var call := calls[0];
      var next := AddVendor(db, call.code, call.name, call.foreign);
      var first := CallOutcome(db, map[], call);
      AddVendorOutcome(db, call);
      ResolveVendorsOutcome(next, calls[1..]);
      BatchOutcomeAgrees(next, db, calls[1..], map[], first.learned);
      var rest := BatchOutcome(db, calls[1..], first.learned);
      AppendAssoc(Submitted(db, Vendors), first.canonical, rest.canonical);
      AppendAssoc(Submitted(db, VendorAltNames), first.alternates, rest.alternates);
    }
  }

  /** How many canonical rows of kind `k` for `code` there are in `rows`. */
  function CountNamed(rows: seq<Row>, k: Kind, code: string): nat {
    if |rows| == 0 then 0
    else (if Names(rows[0], k, code) then 1 else 0) + CountNamed(rows[1..], k, code)
  }

  lemma {:induction false} CountNamedNone(rows: seq<Row>, k: Kind, code: string)
    requires forall i :: 0 <= i < |rows| ==> !Names(rows[i], k, code)
    ensures CountNamed(rows, k, code) == 0
    decreases |rows|
  {
    if |rows| > 0 {
      assert forall i :: 0 <= i < |rows| - 1 ==> rows[1..][i] == rows[i + 1];
      CountNamedNone(rows[1..], k, code);
    }
  }

  lemma {:induction false} CountNamedUnique(rows: seq<Row>, k: Kind, code: string)
    requires UniqueCodes(rows, k)
    ensures CountNamed(rows, k, code) <= 1
    decreases |rows|
  {
    if |rows| > 0 {
      assert forall i :: 0 <= i < |rows| - 1 ==> rows[1..][i] == rows[i + 1];
      if Names(rows[0], k, code) {
        CountNamedNone(rows[1..], k, code);
      } else {
        CountNamedUnique(rows[1..], k, code);
      }
    }
  }

  lemma {:induction false} CountNamedAppend(a: seq<Row>, b: seq<Row>, k: Kind, code: string)
    ensures CountNamed(a + b, k, code) == CountNamed(a, k, code) + CountNamed(b, k, code)
    decreases |a|
  {
    if |a| == 0 {
      assert a + b == b;
    } else {
      assert (a + b)[1..] == a[1..] + b;
      CountNamedAppend(a[1..], b, k, code);
    }
  }

  /** At most one canonical row is ever submitted per code and kind. */
  lemma AtMostOneCanonical(db: Db, k: Kind, code: string)
    requires Valid(db)
    ensures CountNamed(Submitted(db, EntityTable(k)), k, code) <= 1
  {
    assert KindValid(db, k);
    CountNamedUnique(Submitted(db, EntityTable(k)), k, code);
  }

  /**
   Resolving the same (code, name) twice, starting from an unknown code, gives
   exactly one canonical row and no alternate-name row: the second call changes nothing.
   */
  lemma ResolveTwice(db: Db, k: Kind, code: string, name: Option<string>, foreign: bool, foreign': bool)
    requires Valid(db) && k != AggregateKind
    requires LookupName(db, k, code).None?
    ensures
      var once := Resolve(db, k, code, name, foreign);
      var twice := Resolve(once, k, code, name, foreign');
      && twice == once
      && CountNamed(Submitted(twice, EntityTable(k)), k, code) == 1
      && Submitted(twice, AltTable(k)) == Submitted(db, AltTable(k))
  {
    var once := Resolve(db, k, code, name, foreign);
    var t := EntityTable(k);
    ResolveInvariant(db, k, code, name, foreign);
    LookupSound(db, k, code);
    CountNamedNone(Submitted(db, t), k, code);
    var row := CanonicalRow(k, code, ObservedName(k, code, name), foreign);
    CountNamedAppend(Submitted(db, t), [row], k, code);
    assert [row][1..] == [];
  }

  /**
   Alternate names are not deduplicated: resolving a known code twice under
   the same different name appends two identical alternate-name rows, while
   the canonical name stays.
   */
  lemma AlternateNamesRepeat(db: Db, k: Kind, code: string, name: Option<string>, foreign: bool)
    requires Valid(db) && k != AggregateKind
    requires LookupName(db, k, code).Some? && LookupName(db, k, code).value != ObservedName(k, code, name)
    ensures
      var once := Resolve(db, k, code, name, foreign);
      var twice := Resolve(once, k, code, name, foreign);
      var alt := AltNameRow(k, code, ObservedName(k, code, name));
      && Submitted(twice, AltTable(k)) == Submitted(db, AltTable(k)) + [alt, alt]
      && Submitted(twice, EntityTable(k)) == Submitted(db, EntityTable(k))
      && LookupName(twice, k, code) == LookupName(db, k, code)
  {
    var alt := AltNameRow(k, code, ObservedName(k, code, name));
    var once := Resolve(db, k, code, name, foreign);
    AlternateNameStep(db, k, code, name, foreign);
    AlternateNameStep(once, k, code, name, foreign);
    AppendTwo(Submitted(db, AltTable(k)), alt, alt);
  }

  /** One resolution under a different name: one more alternate-name row, the rest as before. */
  lemma AlternateNameStep(db: Db, k: Kind, code: string, name: Option<string>, foreign: bool)
    requires Valid(db) && k != AggregateKind
    requires LookupName(db, k, code).Some? && LookupName(db, k, code).value != ObservedName(k, code, name)
    ensures Valid(Resolve(db, k, code, name, foreign))
    ensures LookupName(Resolve(db, k, code, name, foreign), k, code) == LookupName(db, k, code)
    ensures Submitted(Resolve(db, k, code, name, foreign), AltTable(k)) ==
      Submitted(db, AltTable(k)) + [AltNameRow(k, code, ObservedName(k, code, name))]
    ensures Submitted(Resolve(db, k, code, name, foreign), EntityTable(k)) == Submitted(db, EntityTable(k))
  {
    ResolveInvariant(db, k, code, name, foreign);
  }

  /** A vendor first seen as "Alpha SRL", then as "Alpha S.r.l.", keeps the first as canonical name. */
  lemma AlternateNameExample()
    ensures
      var once := AddVendor(EmptyDb, "C12345", Some("Alpha SRL"), false);
      var twice := AddVendor(once, "C12345", Some("Alpha S.r.l."), false);
      && Submitted(twice, Vendors) == [VendorRow("C12345", "Alpha SRL", "ITALY")]
      && Submitted(twice, VendorAltNames) == [VendorAltNameRow("C12345", "Alpha S.r.l.")]
  {
    EmptyDbValid();
    ResolveInvariant(EmptyDb, VendorKind, "C12345", Some("Alpha SRL"), false);
  }

  /** An agency with code "ND" and no name is recorded as "NoneAgencyNameND". */
  lemma PlaceholderExample()
    ensures Submitted(AddAgency(EmptyDb, "ND", None), PublicAgencies) == [AgencyRow("ND", "NoneAgencyNameND")]
  {
    assert LookupName(EmptyDb, AgencyKind, "ND").None?;
    assert "NoneAgencyName" + "ND" == "NoneAgencyNameND";
  }
}
