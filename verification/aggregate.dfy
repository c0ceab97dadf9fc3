/**
 The aggregate identity builder (`add_aggregate_vendor`): a consortium's
 members are sorted by code, the codes joined with "-" and the members'
 canonical vendor names joined with " | " in the same order; an aggregate
 vendor row is buffered when that code is new.
 */
module Aggregate {
  import opened Wrappers
  import opened Strings
  import opened Records
  import opened RecordBuffer
  import opened Identity

  /** One `dict(code=..., role=...)` entry of the member list. */
  datatype Member = Member(code: string, role: Option<string>)

  /** The `assert(False)` reached when a member has no canonical vendor name. */
  datatype AggregateError = UnknownMember(code: string)

  function Codes(ms: seq<Member>): (cs: seq<string>)
    ensures |cs| == |ms| && forall i :: 0 <= i < |ms| ==> cs[i] == ms[i].code
  {
    seq(|ms|, i requires 0 <= i < |ms| => ms[i].code)
  }

  predicate SortedByCode(ms: seq<Member>) {
    forall i, j :: 0 <= i < j < |ms| ==> LexLe(ms[i].code, ms[j].code)
  }

  predicate SortedStrings(s: seq<string>) {
    forall i, j :: 0 <= i < j < |s| ==> LexLe(s[i], s[j])
  }

  /** Inserts `m` before the first element whose code is not smaller, so equal codes keep their order. */
  function InsertByCode(m: Member, sorted: seq<Member>): (r: seq<Member>)
    ensures multiset(r) == multiset(sorted) + multiset{m}
    decreases |sorted|
  {
    if |sorted| == 0 then [m]
    else if LexLe(m.code, sorted[0].code) then [m] + sorted
    else
      var rest := InsertByCode(m, sorted[1..]);
      assert sorted == [sorted[0]] + sorted[1..];
      [sorted[0]] + rest
  }

  /** The stable sort of the member list by code (`list.sort` with `cmp` on the codes). */
  function SortByCode(ms: seq<Member>): (r: seq<Member>)
    ensures multiset(r) == multiset(ms)
    decreases |ms|
  {
    if |ms| == 0 then []
    else
      assert ms == [ms[0]] + ms[1..];
      InsertByCode(ms[0], SortByCode(ms[1..]))
  }

  lemma {:induction false} InsertByCodeSorted(m: Member, sorted: seq<Member>)
    requires SortedByCode(sorted)
    ensures SortedByCode(InsertByCode(m, sorted))
    decreases |sorted|
  {
    if |sorted| == 0 {
    } else if LexLe(m.code, sorted[0].code) {
      InsertAtFrontSorted(m, sorted);
    } else {
      LexLeTotal(m.code, sorted[0].code);
      InsertByCodeSorted(m, sorted[1..]);
      InsertAfterHeadBounded(m, sorted);
      InsertAfterHeadSorted(sorted[0], InsertByCode(m, sorted[1..]));
    }
  }

  lemma InsertAtFrontSorted(m: Member, sorted: seq<Member>)
    requires SortedByCode(sorted) && |sorted| > 0 && LexLe(m.code, sorted[0].code)
    ensures SortedByCode([m] + sorted)
  {
    var r := [m] + sorted;
    forall i, j | 0 <= i < j < |r|
      ensures LexLe(r[i].code, r[j].code)
    {
      if i == 0 && j > 1 {
        LexLeTransitive(m.code, sorted[0].code, sorted[j - 1].code);
      } else if i > 0 {
        assert r[i] == sorted[i - 1] && r[j] == sorted[j - 1];
      }
    }
  }

  /** Everything the insertion places after the head is at least the head. */
  lemma InsertAfterHeadBounded(m: Member, sorted: seq<Member>)
    requires SortedByCode(sorted) && |sorted| > 0 && LexLe(sorted[0].code, m.code)
    ensures forall j :: 0 <= j < |InsertByCode(m, sorted[1..])| ==>
      LexLe(sorted[0].code, InsertByCode(m, sorted[1..])[j].code)
  {
    var rest := InsertByCode(m, sorted[1..]);
    forall j | 0 <= j < |rest|
      ensures LexLe(sorted[0].code, rest[j].code)
    {
      assert rest[j] in multiset(rest);
      if rest[j] != m {
        assert rest[j] in multiset(sorted[1..]);
        var k :| 0 <= k < |sorted[1..]| && sorted[1..][k] == rest[j];
        assert sorted[k + 1] == rest[j];
      }
    }
  }

  lemma InsertAfterHeadSorted(head: Member, rest: seq<Member>)
    requires SortedByCode(rest)
    requires forall j :: 0 <= j < |rest| ==> LexLe(head.code, rest[j].code)
    ensures SortedByCode([head] + rest)
  {
    var r := [head] + rest;
    forall i, j | 0 <= i < j < |r|
      ensures LexLe(r[i].code, r[j].code)
    {
      if i > 0 {
        assert r[i] == rest[i - 1];
      }
      assert r[j] == rest[j - 1];
    }
  }

  lemma {:induction false} SortByCodeSorted(ms: seq<Member>)
    ensures SortedByCode(SortByCode(ms))
    decreases |ms|
  {
    if |ms| > 0 {
      SortByCodeSorted(ms[1..]);
      InsertByCodeSorted(ms[0], SortByCode(ms[1..]));
    }
  }

  lemma CodesConcat(a: seq<Member>, b: seq<Member>)
    ensures Codes(a + b) == Codes(a) + Codes(b)
  {
  }

  /** Rearranging members rearranges their codes the same way. */
  lemma {:induction false} CodesMultiset(a: seq<Member>, b: seq<Member>)
    requires multiset(a) == multiset(b)
    ensures multiset(Codes(a)) == multiset(Codes(b))
    decreases |a|
  {
    if |a| == 0 {
      assert |multiset(b)| == 0;
    } else {
      var x := a[0];
      assert x in multiset(b);
      var j :| 0 <= j < |b| && b[j] == x;
      var rest := b[..j] + b[j + 1..];
      assert b == b[..j] + [x] + b[j + 1..];
      assert a == [x] + a[1..];
      assert multiset(a[1..]) == multiset(a) - multiset{x};
      assert multiset(b) == multiset(b[..j]) + multiset{x} + multiset(b[j + 1..]);
      assert multiset(rest) == multiset(b[..j]) + multiset(b[j + 1..]);
      assert multiset(rest) == multiset(b) - multiset{x};
      CodesMultiset(a[1..], rest);
      CodesConcat([x], a[1..]);
      CodesConcat(b[..j], b[j + 1..]);
      CodesConcat(b[..j] + [x], b[j + 1..]);
      CodesConcat(b[..j], [x]);
    }
  }

  /** The member codes in ascending order: what the aggregate code is built from. */
  function SortedCodes(ms: seq<Member>): (cs: seq<string>)
    ensures SortedStrings(cs)
    ensures multiset(cs) == multiset(Codes(ms))
  {
    SortByCodeSorted(ms);
    CodesMultiset(SortByCode(ms), ms);
    Codes(SortByCode(ms))
  }

  /** Two ascending sequences of codes with the same elements are the same sequence. */
  lemma {:induction false} SortedUnique(a: seq<string>, b: seq<string>)
    requires SortedStrings(a) && SortedStrings(b)
    requires multiset(a) == multiset(b)
    ensures a == b
    decreases |a|
  {
    if |a| == 0 {
      assert |multiset(b)| == 0;
    } else {
      assert |b| == |multiset(b)| == |multiset(a)| == |a|;
      SortedHeadIsLeast(a, b[0]);
      SortedHeadIsLeast(b, a[0]);
      LexLeAntisymmetric(a[0], b[0]);
      assert a == [a[0]] + a[1..];
      assert b == [b[0]] + b[1..];
      assert multiset(a[1..]) == multiset(a) - multiset{a[0]};
      assert multiset(b[1..]) == multiset(b) - multiset{b[0]};
      SortedUnique(a[1..], b[1..]);
    }
  }

  /** The head of an ascending sequence is below each of its elements. */
  lemma SortedHeadIsLeast(s: seq<string>, x: string)
    requires SortedStrings(s) && x in multiset(s)
    ensures LexLe(s[0], x)
  {
    var i :| 0 <= i < |s| && s[i] == x;
    if i == 0 {
      LexLeReflexive(x);
    }
  }

  /** Every code has a canonical vendor name. */
  predicate AllKnown(db: Db, codes: seq<string>) {
    forall i :: 0 <= i < |codes| ==> LookupName(db, VendorKind, codes[i]).Some?
  }

  /** The canonical vendor names of known codes, in the same order. */
  function KnownNames(db: Db, codes: seq<string>): (names: seq<string>)
    requires AllKnown(db, codes)
    ensures |names| == |codes|
    ensures forall i :: 0 <= i < |codes| ==> LookupName(db, VendorKind, codes[i]) == Some(names[i])
  {
    seq(|codes|, i requires 0 <= i < |codes| => LookupName(db, VendorKind, codes[i]).value)
  }

  /**
   The loop of lines 318-332 over already sorted codes: the codes joined with
   "-" and their canonical names joined with " | ", or the first code with no
   name.
   */
  function ComposeIdentity(db: Db, codes: seq<string>): (r: Result<(string, string), AggregateError>)
    ensures r.Success? <==> AllKnown(db, codes)
    ensures r.Success? ==> r.value == (Join(codes, "-"), Join(KnownNames(db, codes), " | "))
    ensures r.Failure? ==> exists i :: (0 <= i < |codes| && r.error == UnknownMember(codes[i])
      && LookupName(db, VendorKind, codes[i]).None? && AllKnown(db, codes[..i]))
    decreases |codes|
  {
    if |codes| == 0 then Success(("", ""))
    else
      var n := |codes| - 1;
      var init := codes[..n];
      var last := codes[n];
      match ComposeIdentity(db, init)
      case Failure(e) =>
        PrefixFailure(db, codes, init, e);
        Failure(e)
      case Success(prefix) =>
        match LookupName(db, VendorKind, last)
        case None => Failure(UnknownMember(last))
        case Some(name) =>
          KnownStep(db, codes, n, name);
          assert codes[..n + 1] == codes;
          if |init| == 0 then Success((last, name))
          else
            JoinSnoc(init, "-", last);
            JoinSnoc(KnownNames(db, init), " | ", name);
            Success((prefix.0 + "-" + last, prefix.1 + " | " + name))
  }

  /** A code without a name in a prefix is one in the whole sequence, with the same known codes before it. */
  lemma PrefixFailure(db: Db, codes: seq<string>, init: seq<string>, e: AggregateError)
    requires 0 < |codes| && init == codes[..|codes| - 1]
    requires exists i :: (0 <= i < |init| && e == UnknownMember(init[i])
      && LookupName(db, VendorKind, init[i]).None? && AllKnown(db, init[..i]))
    ensures exists i :: (0 <= i < |codes| && e == UnknownMember(codes[i])
      && LookupName(db, VendorKind, codes[i]).None? && AllKnown(db, codes[..i]))
  {
    var i :| 0 <= i < |init| && e == UnknownMember(init[i])
      && LookupName(db, VendorKind, init[i]).None? && AllKnown(db, init[..i]);
    assert init[i] == codes[i] && init[..i] == codes[..i];
  }

  /** The failure reports the first code without a name. */
  lemma ComposeFirstUnknown(db: Db, codes: seq<string>, i: int)
    requires 0 <= i < |codes| && AllKnown(db, codes[..i]) && LookupName(db, VendorKind, codes[i]).None?
    ensures ComposeIdentity(db, codes) == Failure(UnknownMember(codes[i]))
  {
    var r := ComposeIdentity(db, codes);
    var j :| 0 <= j < |codes| && r.error == UnknownMember(codes[j])
      && LookupName(db, VendorKind, codes[j]).None? && AllKnown(db, codes[..j]);
    assert forall m :: 0 <= m < i ==> codes[..i][m] == codes[m];
    assert forall m :: 0 <= m < j ==> codes[..j][m] == codes[m];
    assert forall m :: 0 <= m < i ==> LookupName(db, VendorKind, codes[m]).Some?;
    assert forall m :: 0 <= m < j ==> LookupName(db, VendorKind, codes[m]).Some?;
  }

  /**
   The same loop written as in the script, with the `first_item` flag: builds
   the code before looking the name up, and stops at the first member with no
   canonical name.
   */
  method BuildIdentity(db: Db, sorted: seq<Member>) returns (res: Result<(string, string), AggregateError>)
    ensures res == ComposeIdentity(db, Codes(sorted))
  {
    var codes := Codes(sorted);
    var code := "";
    var name := "";
    var first := true;
    for i := 0 to |sorted|
      invariant first <==> i == 0
      invariant AllKnown(db, codes[..i])
      invariant code == Join(codes[..i], "-")
      invariant name == Join(KnownNames(db, codes[..i]), " | ")
    {
      if first {
        code := sorted[i].code;
      } else {
        code := code + "-" + sorted[i].code;
      }
      var found := LookupName(db, VendorKind, sorted[i].code);
      if found.None? {
        ComposeFirstUnknown(db, codes, i);
        return Failure(UnknownMember(sorted[i].code));
      }
      KnownStep(db, codes, i, found.value);
      if first {
        name := found.value;
      } else {
        JoinSnoc(codes[..i], "-", codes[i]);
        JoinSnoc(KnownNames(db, codes[..i]), " | ", found.value);
        name := name + " | " + found.value;
      }
      first := false;
    }
    assert codes[..|sorted|] == codes;
    res := Success((code, name));
  }

  /** One more known code extends the known prefix by that code and its name. */
  lemma KnownStep(db: Db, codes: seq<string>, i: int, name: string)
    requires 0 <= i < |codes| && AllKnown(db, codes[..i])
    requires LookupName(db, VendorKind, codes[i]) == Some(name)
    ensures codes[..i + 1] == codes[..i] + [codes[i]]
    ensures AllKnown(db, codes[..i + 1])
    ensures KnownNames(db, codes[..i + 1]) == KnownNames(db, codes[..i]) + [name]
  {
    assert codes[..i + 1] == codes[..i] + [codes[i]];
  }

  /** The (code, name) identity of a consortium with the given members. */
  function AggregateIdentity(db: Db, members: seq<Member>): (r: Result<(string, string), AggregateError>)
    ensures r.Success? <==> AllKnown(db, SortedCodes(members))
    ensures r.Success? <==> AllKnown(db, Codes(members))
    ensures r.Success? ==> r.value.0 == Join(SortedCodes(members), "-")
    ensures r.Success? ==> r.value.1 == Join(KnownNames(db, SortedCodes(members)), " | ")
    ensures r.Failure? ==> r.error.code in Codes(members) && LookupName(db, VendorKind, r.error.code).None?
  {
    var sorted := SortedCodes(members);
    SameCodes(sorted, Codes(members));
    AllKnownSameCodes(db, sorted, Codes(members));
    ComposeIdentity(db, sorted)
  }

  lemma SameCodes(a: seq<string>, b: seq<string>)
    requires multiset(a) == multiset(b)
    ensures forall c :: c in a <==> c in b
  {
    forall c ensures c in a <==> c in b {
      assert c in a <==> c in multiset(a);
      assert c in b <==> c in multiset(b);
    }
  }

  lemma AllKnownSameCodes(db: Db, a: seq<string>, b: seq<string>)
    requires forall c :: c in a <==> c in b
    ensures AllKnown(db, a) <==> AllKnown(db, b)
  {
    if AllKnown(db, a) {
      forall i | 0 <= i < |b| ensures LookupName(db, VendorKind, b[i]).Some? {
        assert b[i] in a;
      }
    }
    if AllKnown(db, b) {
      forall i | 0 <= i < |a| ensures LookupName(db, VendorKind, a[i]).Some? {
        assert a[i] in b;
      }
    }
  }

  /** `add_aggregate_vendor`: the aggregate code, after buffering an aggregate row if the code is new. */
  function AddAggregateVendor(db: Db, members: seq<Member>): (r: Result<(Db, string), AggregateError>)
    // the assert fires exactly when some member has no canonical vendor name, and then nothing is buffered
    ensures r.Success? <==> AllKnown(db, Codes(members))
    ensures r.Success? ==> r.value.1 == Join(SortedCodes(members), "-")
    // an aggregate row is buffered only for a code not yet known
    ensures r.Success? && LookupName(db, AggregateKind, r.value.1).Some? ==> r.value.0 == db
    ensures r.Success? && LookupName(db, AggregateKind, r.value.1).None? ==>
      Submitted(r.value.0, AggregateVendors) == Submitted(db, AggregateVendors)
        + [AggregateVendorRow(r.value.1, AggregateIdentity(db, members).value.1)]
    ensures r.Success? ==> forall t :: t != AggregateVendors ==> Submitted(r.value.0, t) == Submitted(db, t)
  {
    match AggregateIdentity(db, members)
    case Failure(e) => Failure(e)
    case Success(id) =>
      var code := id.0;
      if LookupName(db, AggregateKind, code).None? then
        var row := AggregateVendorRow(code, id.1);
        var inserted := BufferedInsert(db, row);
        assert Submitted(inserted, AggregateVendors) == Submitted(db, AggregateVendors) + [row];
        Success((inserted, code))
      else
        Success((db, code))
  }

  /**
   The aggregate-vendor rows building an aggregate of `members` adds to `db`:
   when every member has a canonical name and the aggregate code (the sorted
   codes joined with "-") is new, one row with that code and the members'
   names joined with " | " in the same order; nothing otherwise.
   */
  function NewAggregateRows(db: Db, members: seq<Member>): seq<Row> {
    var codes := SortedCodes(members);
    var code := Join(codes, "-");
    if AllKnown(db, codes) && LookupName(db, AggregateKind, code).None? then
      [AggregateVendorRow(code, Join(KnownNames(db, codes), " | "))]
    else []
  }

  /** Every member known means every sorted code known. */
  lemma AllKnownSorted(db: Db, members: seq<Member>)
    requires AllKnown(db, Codes(members))
    ensures AllKnown(db, SortedCodes(members))
  {
    assert AggregateIdentity(db, members).Success?;
  }

  /** `add_aggregate_vendor`, when it returns, has appended exactly `NewAggregateRows`. */
  lemma AddAggregateVendorRows(db: Db, members: seq<Member>)
    ensures AddAggregateVendor(db, members).Success? ==>
      Submitted(AddAggregateVendor(db, members).value.0, AggregateVendors) == Submitted(db, AggregateVendors) + NewAggregateRows(db, members)
  {
    var r := AddAggregateVendor(db, members);
    if r.Success? {
      assert AggregateIdentity(db, members).Success?;
      if LookupName(db, AggregateKind, r.value.1).Some? {
        assert Submitted(db, AggregateVendors) + [] == Submitted(db, AggregateVendors);
      }
    }
  }

  /** Building an aggregate keeps the run invariant, registers its code, and forgets nothing. */
  lemma AddAggregateInvariant(db: Db, members: seq<Member>, k: Kind, code: string)
    requires Valid(db)
    requires AddAggregateVendor(db, members).Success?
    ensures Valid(AddAggregateVendor(db, members).value.0)
    ensures LookupName(AddAggregateVendor(db, members).value.0, AggregateKind, AddAggregateVendor(db, members).value.1).Some?
    ensures LookupName(db, k, code).Some? ==>
      LookupName(AddAggregateVendor(db, members).value.0, k, code) == LookupName(db, k, code)
  {
    var id := AggregateIdentity(db, members).value;
    if LookupName(db, AggregateKind, id.0).None? {
      var row := AggregateVendorRow(id.0, id.1);
      ValidInsert(db, row);
      LookupStable(db, row, k, code);
      LookupStable(db, row, AggregateKind, id.0);
    }
  }

  /** The identity depends only on which codes the members have: not on their order, nor on their roles. */
  lemma IdentityDependsOnlyOnCodes(db: Db, m1: seq<Member>, m2: seq<Member>)
    requires multiset(Codes(m1)) == multiset(Codes(m2))
    ensures AggregateIdentity(db, m1) == AggregateIdentity(db, m2)
    ensures AddAggregateVendor(db, m1) == AddAggregateVendor(db, m2)
  {
    SortedUnique(SortedCodes(m1), SortedCodes(m2));
  }

  /** Any permutation of the member list yields the same aggregate code and name. */
  lemma IdentityPermutationInvariant(db: Db, m1: seq<Member>, m2: seq<Member>)
    requires multiset(m1) == multiset(m2)
    ensures AggregateIdentity(db, m1) == AggregateIdentity(db, m2)
    ensures AddAggregateVendor(db, m1) == AddAggregateVendor(db, m2)
  {
    CodesMultiset(m1, m2);
    IdentityDependsOnlyOnCodes(db, m1, m2);
  }

  lemma SortTwo(a: Member, b: Member)
    requires !LexLe(b.code, a.code)
    ensures SortedCodes([b, a]) == [a.code, b.code]
  {
    assert [b, a][1..] == [a];
    assert SortByCode([a]) == InsertByCode(a, []) == [a];
    assert InsertByCode(b, [a]) == [a] + InsertByCode(b, []);
  }

  lemma SortPair(a: Member, b: Member)
    requires !LexLe(b.code, a.code)
    ensures SortedCodes([a, b]) == [a.code, b.code]
  {
    LexLeTotal(a.code, b.code);
    assert [a, b][1..] == [b];
    assert [b][1..] == [];
    assert SortByCode([b]) == InsertByCode(b, []) == [b];
    assert InsertByCode(a, [b]) == [a, b];
  }

  /**
   Two members listed larger code first (e.g. "B" then "A") give the code
   "A-B" and the smaller code's name first, whatever their roles.
   */
  lemma TwoMemberOrder(db: Db, a: Member, b: Member, nameA: string, nameB: string)
    requires !LexLe(b.code, a.code)
    requires LookupName(db, VendorKind, a.code) == Some(nameA) && LookupName(db, VendorKind, b.code) == Some(nameB)
    ensures AggregateIdentity(db, [b, a]) == Success((a.code + "-" + b.code, nameA + " | " + nameB))
  {
    SortTwo(a, b);
    ComposePair(db, a.code, b.code, nameA, nameB);
  }

  /** Two known codes compose to their "-" join and their names' " | " join. */
  lemma ComposePair(db: Db, x: string, y: string, nameX: string, nameY: string)
    requires LookupName(db, VendorKind, x) == Some(nameX) && LookupName(db, VendorKind, y) == Some(nameY)
    ensures ComposeIdentity(db, [x, y]) == Success((x + "-" + y, nameX + " | " + nameY))
  {
    JoinPair(x, y, "-");
    JoinPair(nameX, nameY, " | ");
    assert AllKnown(db, [x, y]);
    assert KnownNames(db, [x, y]) == [nameX, nameY];
  }

  /** A new two-member aggregate, members listed smaller code first, appends exactly one aggregate row. */
  lemma TwoMemberAggregate(db: Db, a: Member, b: Member, nameA: string, nameB: string)
    requires !LexLe(b.code, a.code)
    requires LookupName(db, VendorKind, a.code) == Some(nameA) && LookupName(db, VendorKind, b.code) == Some(nameB)
    requires LookupName(db, AggregateKind, a.code + "-" + b.code).None?
    ensures AddAggregateVendor(db, [a, b]).Success?
    ensures AddAggregateVendor(db, [a, b]).value.1 == a.code + "-" + b.code
    ensures Submitted(AddAggregateVendor(db, [a, b]).value.0, AggregateVendors) ==
      Submitted(db, AggregateVendors) + [AggregateVendorRow(a.code + "-" + b.code, nameA + " | " + nameB)]
  {
    TwoMemberOrder(db, a, b, nameA, nameB);
    IdentityPermutationInvariant(db, [a, b], [b, a]);
  }
}
