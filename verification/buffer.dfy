/**
 The record buffer of `buffered_insert` / `flush_table_buffer` together with
 the three code -> name caches it maintains, and an abstract storage: per
 table, the sequence of rows inserted so far.
 */
module RecordBuffer {
  import opened Records
  import opened Sequences

  /** A table's buffer is written to storage once it holds more than this many rows. */
  const MaxBufferSize: nat := 10000

  /**
   The whole mutable state of an extraction run. `buffers` and `storage` map a
   table to its pending and its inserted rows; a table never touched has no
   entry. The caches map a code to the name of the canonical row buffered for
   it (the script's `*_codes_to_commit` sets are exactly their key sets).
   */
  datatype Db = Db(
    buffers: map<Table, seq<Row>>,
    storage: map<Table, seq<Row>>,
    vendorNames: map<string, string>,
    agencyNames: map<string, string>,
    aggregateNames: map<string, string>)

  /** The state at the start of a run: the database file has just been removed. */
  const EmptyDb := Db(map[], map[], map[], map[], map[])

  function Buffered(db: Db, t: Table): seq<Row> {
    if t in db.buffers then db.buffers[t] else []
  }

  function Stored(db: Db, t: Table): seq<Row> {
    if t in db.storage then db.storage[t] else []
  }

  /** Every row ever submitted to `t`, in submission order: inserted ones, then pending ones. */
  function Submitted(db: Db, t: Table): seq<Row> {
    Stored(db, t) + Buffered(db, t)
  }

  function Cache(db: Db, k: Kind): map<string, string> {
    match k
    case VendorKind => db.vendorNames
    case AgencyKind => db.agencyNames
    case AggregateKind => db.aggregateNames
  }

  /** Registers a canonical row's code and name in the cache of its kind (lines 170-180). */
  function CacheRow(db: Db, row: Row): (r: Db)
    ensures r.buffers == db.buffers && r.storage == db.storage
    ensures forall k :: !IsCanonical(row, k) ==> Cache(r, k) == Cache(db, k)
    ensures forall k :: IsCanonical(row, k) ==> Cache(r, k) == Cache(db, k)[row.code := row.name]
  {
    match row
    case VendorRow(c, n, _) => db.(vendorNames := db.vendorNames[c := n])
    case AgencyRow(c, n) => db.(agencyNames := db.agencyNames[c := n])
    case AggregateVendorRow(c, n) => db.(aggregateNames := db.aggregateNames[c := n])
    case _ => db
  }

  /**
   `buffered_insert`: append `row` to its table's buffer and cache it; once the
   buffer exceeds `MaxBufferSize` rows, insert the whole buffer into storage,
   empty it, and only then reset the vendor or agency cache if that is the
   table flushed. The aggregate-vendor cache is never reset.
   */
  function BufferedInsert(db: Db, row: Row): (r: Db)
    // nothing submitted is lost, and the order is kept
    ensures Submitted(r, TableOf(row)) == Submitted(db, TableOf(row)) + [row]
    ensures forall t :: t != TableOf(row) ==> Buffered(r, t) == Buffered(db, t) && Stored(r, t) == Stored(db, t)
    // below the threshold the row waits in the buffer; at the threshold the buffer is written out
    ensures |Buffered(db, TableOf(row))| < MaxBufferSize ==>
      Buffered(r, TableOf(row)) == Buffered(db, TableOf(row)) + [row] && Stored(r, TableOf(row)) == Stored(db, TableOf(row))
    ensures |Buffered(db, TableOf(row))| >= MaxBufferSize ==>
      Buffered(r, TableOf(row)) == [] && Stored(r, TableOf(row)) == Submitted(db, TableOf(row)) + [row]
    ensures |Buffered(db, TableOf(row))| <= MaxBufferSize ==> |Buffered(r, TableOf(row))| <= MaxBufferSize
    // caches: untouched by rows that are not canonical rows of their kind
    ensures forall k :: !IsCanonical(row, k) ==> Cache(r, k) == Cache(db, k)
    // the aggregate cache only ever gains the new entry
    ensures IsCanonical(row, AggregateKind) ==> Cache(r, AggregateKind) == Cache(db, AggregateKind)[row.code := row.name]
    // the vendor and agency caches gain the entry, unless their table was just written out
    ensures forall k :: k != AggregateKind && IsCanonical(row, k) ==>
      Cache(r, k) == (if |Buffered(db, TableOf(row))| >= MaxBufferSize then map[] else Cache(db, k)[row.code := row.name])
  {
    var t := TableOf(row);
    var buffer := Buffered(db, t) + [row];
    var cached := CacheRow(db, row);
    if |buffer| > MaxBufferSize then
      var flushed := cached.(storage := db.storage[t := Stored(db, t) + buffer], buffers := db.buffers[t := []]);
      if t == Vendors then flushed.(vendorNames := map[])
      else if t == PublicAgencies then flushed.(agencyNames := map[])
      else flushed
    else
      cached.(buffers := db.buffers[t := buffer])
  }

  /** `flush_table_buffer`: write a table's pending rows to storage. The caches are left as they are. */
  function FlushTable(db: Db, t: Table): (r: Db)
    ensures Buffered(r, t) == []
    ensures Stored(r, t) == Submitted(db, t)
    ensures forall u :: u != t ==> Buffered(r, u) == Buffered(db, u) && Stored(r, u) == Stored(db, u)
    ensures forall k :: Cache(r, k) == Cache(db, k)
  {
    if t in db.buffers then
      db.(storage := db.storage[t := Stored(db, t) + Buffered(db, t)], buffers := db.buffers[t := []])
    else db
  }

  /** The order in which `extract_data` flushes the tables at the end of a run. */
  const FlushOrder: seq<Table> := [
    PublicAgencies, Vendors, AggregateVendors, Contracts,
    Winners, AggregateWinners, PublicAgencyAltNames, VendorAltNames]

  /** Flushes the tables of `ts`, in order. */
  function FlushTables(db: Db, ts: seq<Table>): (r: Db)
    ensures forall t :: t in ts ==> Buffered(r, t) == [] && Stored(r, t) == Submitted(db, t)
    ensures forall t :: t !in ts ==> Buffered(r, t) == Buffered(db, t) && Stored(r, t) == Stored(db, t)
    ensures forall k :: Cache(r, k) == Cache(db, k)
    decreases |ts|
  {
    if |ts| == 0 then db else FlushTables(FlushTable(db, ts[0]), ts[1..])
  }

  /** The flush sequence that ends `extract_data`: afterwards nothing is pending anywhere. */
  function FlushAll(db: Db): (r: Db)
    ensures forall t :: Buffered(r, t) == [] && Stored(r, t) == Submitted(db, t)
    ensures forall k :: Cache(r, k) == Cache(db, k)
  {
    FlushOrderCoversAllTables();
    FlushTables(db, FlushOrder)
  }

  lemma FlushOrderCoversAllTables()
    ensures forall t :: t in FlushOrder
  {
    forall t ensures t in FlushOrder {
      match t
      case PublicAgencies => assert FlushOrder[0] == t;
      case Vendors => assert FlushOrder[1] == t;
      case AggregateVendors => assert FlushOrder[2] == t;
      case Contracts => assert FlushOrder[3] == t;
      case Winners => assert FlushOrder[4] == t;
      case AggregateWinners => assert FlushOrder[5] == t;
      case PublicAgencyAltNames => assert FlushOrder[6] == t;
      case VendorAltNames => assert FlushOrder[7] == t;
    }
  }

  /** Submits `rows` one after another. */
  function InsertAll(db: Db, rows: seq<Row>): Db
    decreases |rows|
  {
    if |rows| == 0 then db else InsertAll(BufferedInsert(db, rows[0]), rows[1..])
  }

  /** Submitting rows to one table keeps every one of them, in order. */
  lemma {:induction false} InsertAllKeepsOrder(db: Db, rows: seq<Row>, t: Table)
    requires forall i :: 0 <= i < |rows| ==> TableOf(rows[i]) == t
    ensures Submitted(InsertAll(db, rows), t) == Submitted(db, t) + rows
    decreases |rows|
  {
    if |rows| > 0 {
      var next := BufferedInsert(db, rows[0]);
      assert InsertAll(db, rows) == InsertAll(next, rows[1..]);
      assert TableOf(rows[0]) == t;
      assert Submitted(next, t) == Submitted(db, t) + [rows[0]];
      InsertAllKeepsOrder(next, rows[1..], t);
      HeadTail(Submitted(db, t), rows);
    }
  }

  /** How many rows stay pending after `n` further submissions to a buffer holding `b`. */
  function PendingAfter(b: nat, n: nat): nat {
    (b + n) % (MaxBufferSize + 1)
  }

  lemma PendingStep(b: nat, n: nat)
    requires b <= MaxBufferSize
    ensures PendingAfter(if b == MaxBufferSize then 0 else b + 1, n) == PendingAfter(b, n + 1)
  {
    if b == MaxBufferSize {
      assert b + n + 1 == n + (MaxBufferSize + 1);
    }
  }

  /**
   Submitting `n` rows to one table whose buffer holds `b` rows leaves
   `(b + n) % 10001` of them pending: the others have been written to storage,
   one automatic write per 10001 rows.
   */
  lemma {:induction false} InsertAllPending(db: Db, rows: seq<Row>, t: Table)
    requires forall i :: 0 <= i < |rows| ==> TableOf(rows[i]) == t
    requires |Buffered(db, t)| <= MaxBufferSize
    ensures |Buffered(InsertAll(db, rows), t)| == PendingAfter(|Buffered(db, t)|, |rows|)
    decreases |rows|
  {
    var b := |Buffered(db, t)|;
    if |rows| == 0 {
      assert PendingAfter(b, 0) == b;
    } else {
      var next := BufferedInsert(db, rows[0]);
      assert |Buffered(next, t)| == if b == MaxBufferSize then 0 else b + 1;
      InsertAllPending(next, rows[1..], t);
      PendingStep(b, |rows| - 1);
    }
  }

  /**
   Submitting 10001 contract rows to a fresh run writes all of them to storage
   at the threshold, before any final flush; the final flush then leaves them
   stored, in order.
   */
  lemma ContractsFlushScenario(rows: seq<Row>)
    requires |rows| == MaxBufferSize + 1
    requires forall i :: 0 <= i < |rows| ==> TableOf(rows[i]) == Contracts
    ensures Stored(InsertAll(EmptyDb, rows), Contracts) == rows
    ensures Stored(FlushAll(InsertAll(EmptyDb, rows)), Contracts) == rows
  {
    InsertAllKeepsOrder(EmptyDb, rows, Contracts);
    InsertAllPending(EmptyDb, rows, Contracts);
    var db := InsertAll(EmptyDb, rows);
    assert Submitted(EmptyDb, Contracts) == [];
    assert Submitted(db, Contracts) == rows;
    assert |Buffered(db, Contracts)| == PendingAfter(0, |rows|);
    assert PendingAfter(0, |rows|) == 0;
    assert Buffered(db, Contracts) == [];
    assert Stored(db, Contracts) == Submitted(db, Contracts);
  }
}
