/**
 Name lookups (`get_vendor_name`, `get_agency_name`,
 `get_aggregate_vendor_name`) and the invariant that makes them trustworthy:
 the cache, consulted first, and storage, consulted on a miss, together never
 forget a code that was submitted, because a buffer is written to storage
 before its cache is reset.
 */
module Identity {
  import opened Wrappers
  import opened Records
  import opened RecordBuffer

  /** The name of the first canonical row of kind `k` for `code` in `rows` (`find_one`). */
  function FindName(rows: seq<Row>, k: Kind, code: string): (r: Option<string>)
    ensures r.None? <==> forall i :: 0 <= i < |rows| ==> !Names(rows[i], k, code)
    ensures r.Some? ==> exists i :: 0 <= i < |rows| && Names(rows[i], k, code) && rows[i].name == r.value
  {
    if |rows| == 0 then None
    else if Names(rows[0], k, code) then Some(rows[0].name)
    else
      var rest := FindName(rows[1..], k, code);
      assert forall i :: 0 < i < |rows| ==> rows[i] == rows[1..][i - 1];
      rest
  }

  /** Lookup of a code's canonical name: the cache first, then storage; never the buffer itself. */
  function LookupName(db: Db, k: Kind, code: string): Option<string> {
    if code in Cache(db, k) then Some(Cache(db, k)[code]) else FindName(Stored(db, EntityTable(k)), k, code)
  }

  /** `find_one` answers with the first matching row. */
  lemma {:induction false} FindNameFirst(rows: seq<Row>, k: Kind, code: string, i: int)
    requires 0 <= i < |rows| && Names(rows[i], k, code)
    requires forall j :: 0 <= j < i ==> !Names(rows[j], k, code)
    ensures FindName(rows, k, code) == Some(rows[i].name)
    decreases i
  {
    if i > 0 {
      assert !Names(rows[0], k, code);
      assert forall j :: 0 <= j < i - 1 ==> rows[1..][j] == rows[j + 1];
      FindNameFirst(rows[1..], k, code, i - 1);
    }
  }

  /**
   What `get_*_name` answers: the cached name when the code is cached;
   otherwise nothing exactly when no stored row names the code, and else the
   name of the first stored row that does. Pending rows are never consulted.
   */
  lemma LookupAnswers(db: Db, k: Kind, code: string, i: int, pending: map<Table, seq<Row>>)
    ensures code in Cache(db, k) ==> LookupName(db, k, code) == Some(Cache(db, k)[code])
    ensures code !in Cache(db, k) ==>
      (LookupName(db, k, code).None? <==> forall j :: 0 <= j < |Stored(db, EntityTable(k))| ==> !Names(Stored(db, EntityTable(k))[j], k, code))
    ensures (code !in Cache(db, k) && 0 <= i < |Stored(db, EntityTable(k))| && Names(Stored(db, EntityTable(k))[i], k, code) &&
             forall j :: 0 <= j < i ==> !Names(Stored(db, EntityTable(k))[j], k, code)) ==>
      LookupName(db, k, code) == Some(Stored(db, EntityTable(k))[i].name)
    ensures LookupName(db.(buffers := pending), k, code) == LookupName(db, k, code)
  {
    var stored := Stored(db, EntityTable(k));
    if code !in Cache(db, k) && 0 <= i < |stored| && Names(stored[i], k, code) &&
       (forall j :: 0 <= j < i ==> !Names(stored[j], k, code)) {
      FindNameFirst(stored, k, code, i);
    }
  }

  /** No two canonical rows of kind `k` in `rows` share a code. */
  predicate UniqueCodes(rows: seq<Row>, k: Kind) {
    forall i, j :: 0 <= i < j < |rows| && IsCanonical(rows[i], k) && IsCanonical(rows[j], k) ==> rows[i].code != rows[j].code
  }

  /** The invariant of one kind of entity. */
  predicate KindValid(db: Db, k: Kind) {
    var all := Submitted(db, EntityTable(k));
    var pending := Buffered(db, EntityTable(k));
    && UniqueCodes(all, k)
    // every cached name is the name of the canonical row submitted for that code
    && (forall c :: c in Cache(db, k) ==> FindName(all, k, c) == Some(Cache(db, k)[c]))
    // every pending canonical row is cached
    && (forall i :: 0 <= i < |pending| && IsCanonical(pending[i], k) ==> pending[i].code in Cache(db, k))
  }

  /** The invariant of an extraction run. */
  predicate Valid(db: Db) {
    && (forall t :: |Buffered(db, t)| <= MaxBufferSize)
    && (forall k :: KindValid(db, k))
  }

  /** A row that may be submitted without breaking the invariant: a canonical row only for an unknown code. */
  predicate Admissible(db: Db, row: Row) {
    forall k :: IsCanonical(row, k) ==> LookupName(db, k, row.code).None?
  }

  lemma EmptyDbValid()
    ensures Valid(EmptyDb)
  {
  }

  lemma {:induction false} FindNameAppend(a: seq<Row>, b: seq<Row>, k: Kind, code: string)
    ensures FindName(a, k, code).Some? ==> FindName(a + b, k, code) == FindName(a, k, code)
    ensures FindName(a, k, code).None? ==> FindName(a + b, k, code) == FindName(b, k, code)
    decreases |a|
  {
    if |a| > 0 {
      assert (a + b)[1..] == a[1..] + b;
      FindNameAppend(a[1..], b, k, code);
    } else {
      assert a + b == b;
    }
  }

  /**
   Under the invariant, a lookup answers exactly what a scan of every row ever
   submitted to the entity's table would: the name of the canonical row for
   the code, or nothing when there is none.
   */
  lemma LookupSound(db: Db, k: Kind, code: string)
    requires Valid(db)
    ensures LookupName(db, k, code) == FindName(Submitted(db, EntityTable(k)), k, code)
  {
    assert KindValid(db, k);
    var t := EntityTable(k);
    FindNameAppend(Stored(db, t), Buffered(db, t), k, code);
    if code !in Cache(db, k) && FindName(Stored(db, t), k, code).None? {
      assert FindName(Buffered(db, t), k, code).None?;
    }
  }

  /** A canonical row of kind `k` for an unknown code keeps the cache coherent with the submitted rows. */
  lemma CacheCoherentInsert(db: Db, row: Row, k: Kind)
    requires Valid(db) && Admissible(db, row) && IsCanonical(row, k)
    ensures forall c :: c in Cache(BufferedInsert(db, row), k) ==>
      FindName(Submitted(db, EntityTable(k)) + [row], k, c) == Some(Cache(BufferedInsert(db, row), k)[c])
  {
    var r := BufferedInsert(db, row);
    var all := Submitted(db, EntityTable(k));
    assert KindValid(db, k);
    LookupSound(db, k, row.code);
    forall c | c in Cache(r, k)
      ensures FindName(all + [row], k, c) == Some(Cache(r, k)[c])
    {
      FindNameAppend(all, [row], k, c);
      if c != row.code {
        assert c in Cache(db, k);
      }
    }
  }

  /** After a canonical row of kind `k` is buffered, every pending canonical row is cached. */
  lemma PendingCachedInsert(db: Db, row: Row, k: Kind)
    requires Valid(db) && IsCanonical(row, k)
    ensures forall i :: (0 <= i < |Buffered(BufferedInsert(db, row), EntityTable(k))| &&
                         IsCanonical(Buffered(BufferedInsert(db, row), EntityTable(k))[i], k)) ==>
                          Buffered(BufferedInsert(db, row), EntityTable(k))[i].code in Cache(BufferedInsert(db, row), k)
  {
    var r := BufferedInsert(db, row);
    var t := EntityTable(k);
    assert KindValid(db, k);
    var pending := Buffered(r, t);
    if pending != [] {
      assert pending == Buffered(db, t) + [row];
      forall i | 0 <= i < |pending| && IsCanonical(pending[i], k)
        ensures pending[i].code in Cache(r, k)
      {
        if i < |pending| - 1 {
          assert pending[i] == Buffered(db, t)[i];
        }
      }
    }
  }

  /** One kind's invariant survives the submission of an admissible row. */
  lemma KindValidInsert(db: Db, row: Row, k: Kind)
    requires Valid(db) && Admissible(db, row)
    ensures KindValid(BufferedInsert(db, row), k)
  {
    if IsCanonical(row, k) {
      KindValidInsertSame(db, row, k);
    } else {
      KindValidInsertOther(db, row, k);
    }
  }

  lemma KindValidInsertOther(db: Db, row: Row, k: Kind)
    requires Valid(db) && !IsCanonical(row, k)
    ensures KindValid(BufferedInsert(db, row), k)
  {
    var r := BufferedInsert(db, row);
    var t := EntityTable(k);
    assert KindValid(db, k);
    assert Cache(r, k) == Cache(db, k);
    if TableOf(row) != t {
      assert Submitted(r, t) == Submitted(db, t) && Buffered(r, t) == Buffered(db, t);
    } else {
      assert false;
    }
  }

  lemma UniqueCodesAppend(all: seq<Row>, row: Row, k: Kind)
    requires IsCanonical(row, k) && UniqueCodes(all, k) && FindName(all, k, row.code).None?
    ensures UniqueCodes(all + [row], k)
  {
    var s := all + [row];
    forall i, j | 0 <= i < j < |s| && IsCanonical(s[i], k) && IsCanonical(s[j], k)
      ensures s[i].code != s[j].code
    {
      if j == |all| {
        assert !Names(all[i], k, row.code);
      } else {
        assert s[i] == all[i] && s[j] == all[j];
      }
    }
  }

  lemma KindValidInsertSame(db: Db, row: Row, k: Kind)
    requires Valid(db) && Admissible(db, row) && IsCanonical(row, k)
    ensures KindValid(BufferedInsert(db, row), k)
  {
    var r := BufferedInsert(db, row);
    var t := EntityTable(k);
    assert KindValid(db, k);
    var all := Submitted(db, t);
    LookupSound(db, k, row.code);
    assert Submitted(r, t) == all + [row];
    UniqueCodesAppend(all, row, k);
    CacheCoherentInsert(db, row, k);
    PendingCachedInsert(db, row, k);
  }

  /** Submitting an admissible row preserves the invariant. */
  lemma ValidInsert(db: Db, row: Row)
    requires Valid(db) && Admissible(db, row)
    ensures Valid(BufferedInsert(db, row))
  {
    var r := BufferedInsert(db, row);
    forall t ensures |Buffered(r, t)| <= MaxBufferSize {
      assert |Buffered(db, t)| <= MaxBufferSize;
    }
    forall k ensures KindValid(r, k) {
      KindValidInsert(db, row, k);
    }
  }

  /**
   No code is forgotten: after an admissible submission, every code that had
   a name still has the same name, whether it is now answered by the cache or
   by storage, and a submitted canonical row's code now has that row's name.
   */
  lemma LookupStable(db: Db, row: Row, k: Kind, code: string)
    requires Valid(db) && Admissible(db, row)
    ensures LookupName(db, k, code).Some? ==> LookupName(BufferedInsert(db, row), k, code) == LookupName(db, k, code)
    ensures Names(row, k, code) ==> LookupName(BufferedInsert(db, row), k, code) == Some(row.name)
  {
    var r := BufferedInsert(db, row);
    var t := EntityTable(k);
    ValidInsert(db, row);
    LookupSound(db, k, code);
    LookupSound(r, k, code);
    if TableOf(row) == t {
      FindNameAppend(Submitted(db, t), [row], k, code);
    } else {
      assert !IsCanonical(row, k);
    }
  }

  /** Two states agree on everything about aggregates: their rows, submitted and stored, and their cache. */
  predicate SameAggregates(db: Db, r: Db) {
    && Submitted(r, AggregateVendors) == Submitted(db, AggregateVendors)
    && Stored(r, AggregateVendors) == Stored(db, AggregateVendors)
    && Cache(r, AggregateKind) == Cache(db, AggregateKind)
  }

  /** States that agree on aggregates answer every aggregate lookup alike. */
  lemma SameAggregatesLookup(db: Db, r: Db, code: string)
    requires SameAggregates(db, r)
    ensures LookupName(r, AggregateKind, code) == LookupName(db, AggregateKind, code)
  {
  }

  /** A row for any other table leaves the aggregates as they were. */
  lemma InsertKeepsAggregates(db: Db, row: Row)
    requires TableOf(row) != AggregateVendors
    ensures SameAggregates(db, BufferedInsert(db, row))
  {
    assert !IsCanonical(row, AggregateKind);
  }

  /** The end-of-run flushes leave one kind's rows submitted as before and none of them pending. */
  lemma FlushAllKind(db: Db, k: Kind)
    ensures Submitted(FlushAll(db), EntityTable(k)) == Submitted(db, EntityTable(k))
    ensures Buffered(FlushAll(db), EntityTable(k)) == []
    ensures Cache(FlushAll(db), k) == Cache(db, k)
  {
    var r := FlushAll(db);
    var t := EntityTable(k);
    assert Buffered(r, t) == [] && Stored(r, t) == Submitted(db, t);
    assert Submitted(r, t) == Stored(r, t) + [];
  }

  /** The end-of-run flushes keep the invariant. */
  lemma FlushAllValid(db: Db)
    requires Valid(db)
    ensures Valid(FlushAll(db))
  {
    var r := FlushAll(db);
    forall t ensures |Buffered(r, t)| <= MaxBufferSize {
      assert Buffered(r, t) == [];
    }
    forall k ensures KindValid(r, k) {
      assert KindValid(db, k);
      FlushAllKind(db, k);
    }
  }

  /** The end-of-run flushes keep every lookup's answer. */
  lemma FlushAllKeepsLookups(db: Db, k: Kind, code: string)
    requires Valid(db)
    ensures LookupName(FlushAll(db), k, code) == LookupName(db, k, code)
  {
    FlushAllValid(db);
    FlushAllKind(db, k);
    LookupSound(db, k, code);
    LookupSound(FlushAll(db), k, code);
  }
}
