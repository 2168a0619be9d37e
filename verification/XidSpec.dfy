/**
 src/cc_xid.c as values: the outstanding transaction ids, kept twice, in a hash
 keyed by xid and in a list in order of issue.
 */
module XidSpec {

  import opened Bytes
  import opened HashSpec
  import opened SingleLink
  import HashWalk

  const UINT32_MAX: u32 := 0xffff_ffff

  class XidEntry {
    const xid: u32

    constructor (xid: u32)
      ensures this.xid == xid
    {
      this.xid := xid;
    }
  }

  /** compare_uint32, hash_uint32 and the default number of buckets. */
  function XidConfig(): (c: Config<u32>)
    ensures Lawful(c)
  {
    Config((x: u32, y: u32) => x == y, (x: u32) => x % UINT32_MAX, 65521)
  }

  datatype XidState = XidState(latest: u32, entries: seq<XidEntry>, table: Table<u32, XidEntry>)

  ghost predicate DistinctXids(entries: seq<XidEntry>) {
    forall i, j :: 0 <= i < j < |entries| ==> entries[i].xid != entries[j].xid
  }

  ghost predicate Issued(entries: seq<XidEntry>, xid: u32) {
    exists i :: 0 <= i < |entries| && entries[i].xid == xid
  }

  ghost function ByXid(entries: seq<XidEntry>): (m: map<u32, Ptr<XidEntry>>)
    requires DistinctXids(entries)
    ensures forall i :: 0 <= i < |entries| ==> entries[i].xid in m && m[entries[i].xid] == Ref(entries[i])
    ensures forall x :: x in m ==> Issued(entries, x)
  {
    if entries == [] then map[]
    else
      var n := |entries| - 1;
      ByXid(entries[..n])[entries[n].xid := Ref(entries[n])]
  }

  /** The hash holds exactly the entries of the list, each under its own xid. */
  ghost predicate Agree(s: XidState) {
    && Inv(XidConfig(), s.table)
    && DistinctXids(s.entries)
    && Models(XidConfig(), s.table, ByXid(s.entries))
  }

  /** What cc_lookup_xid_entry tests. */
  predicate Taken(t: Table<u32, XidEntry>, xid: u32)
    requires Sized(XidConfig(), t)
  {
    Lookup(XidConfig(), t, xid) != Null
  }

  lemma LookupAgrees(s: XidState, xid: u32)
    requires Agree(s)
    ensures forall i :: 0 <= i < |s.entries| && s.entries[i].xid == xid ==>
              Lookup(XidConfig(), s.table, xid) == Ref(s.entries[i])
    ensures Taken(s.table, xid) <==> Issued(s.entries, xid)
    ensures Taken(s.table, xid) <==> Present(XidConfig(), s.table, xid)
  {
    LookupAnswers(XidConfig(), s.table, ByXid(s.entries), xid);
    forall i | 0 <= i < |s.entries| && s.entries[i].xid == xid
      ensures xid in ByXid(s.entries) && ByXid(s.entries)[xid] == Ref(s.entries[i])
    {
    }
  }

  /** Every entry of the list stands in the bucket of its id modulo UINT_MAX, modulo the default 65521. */
  lemma XidPlace(s: XidState, i: nat)
    requires Agree(s) && i < |s.entries|
    ensures var xid := s.entries[i].xid;
            && |s.table.buckets| == 65521
            && Entry(xid, Ref(s.entries[i])) in s.table.buckets[xid % 0xffff_ffff % 65521]
  {
    var xid, c := s.entries[i].xid, XidConfig();
    assert xid in ByXid(s.entries) && Stored(s.table.buckets[Slot(c, xid)], xid);
    var es := s.table.buckets[Slot(c, xid)];
    var j :| 0 <= j < |es| && es[j].key == xid;
    assert es[j] == Entry(xid, Ref(s.entries[i]));
  }

  /** The list and the hash hold equally many entries. */
  lemma SameNumber(s: XidState)
    requires Agree(s)
    ensures |Contents(s.table)| == |s.entries|
  {
    HashWalk.LengthIsMapSize(XidConfig(), s.table, ByXid(s.entries));
    ByXidSize(s.entries);
  }

  lemma ByXidAppend(entries: seq<XidEntry>, e: XidEntry)
    requires DistinctXids(entries) && e.xid !in ByXid(entries)
    ensures DistinctXids(entries + [e])
    ensures ByXid(entries + [e]) == ByXid(entries)[e.xid := Ref(e)]
  {
    var more := entries + [e];
    assert more[..|entries|] == entries;
    assert forall i :: 0 <= i < |entries| ==> more[i] == entries[i];
  }

  lemma RemoveIssued(entries: seq<XidEntry>, p: nat, xid: u32)
    requires DistinctXids(entries) && p < |entries|
    ensures Issued(RemoveAt(entries, p), xid) <==> Issued(entries, xid) && xid != entries[p].xid
  {
    var fewer := RemoveAt(entries, p);
    if Issued(fewer, xid) {
      var i :| 0 <= i < |fewer| && fewer[i].xid == xid;
      assert entries[if i < p then i else i + 1].xid == xid;
    }
    if Issued(entries, xid) && xid != entries[p].xid {
      var i :| 0 <= i < |entries| && entries[i].xid == xid;
      assert fewer[if i < p then i else i - 1].xid == xid;
    }
  }

  lemma RemoveDistinct(entries: seq<XidEntry>, p: nat)
    requires DistinctXids(entries) && p < |entries|
    ensures DistinctXids(RemoveAt(entries, p))
    ensures forall e :: e in RemoveAt(entries, p) ==> e in entries
  {
  }

  /** r is m without xid. */
  ghost predicate Less(m: map<u32, Ptr<XidEntry>>, xid: u32, r: map<u32, Ptr<XidEntry>>) {
    && (forall x :: x in r <==> x in m && x != xid)
    && (forall x :: x in r ==> r[x] == m[x])
  }

  lemma ByXidRemove(entries: seq<XidEntry>, p: nat)
    requires DistinctXids(entries) && p < |entries|
    ensures DistinctXids(RemoveAt(entries, p))
    ensures Less(ByXid(entries), entries[p].xid, ByXid(RemoveAt(entries, p)))
  {
    RemoveDistinct(entries, p);
    var m, r := ByXid(entries), ByXid(RemoveAt(entries, p));
    forall x ensures x in r <==> x in m && x != entries[p].xid {
      RemoveIssued(entries, p, x);
    }
    forall x | x in r ensures r[x] == m[x] {
      var e :| e in RemoveAt(entries, p) && e.xid == x;
      assert e in entries;
    }
  }

  lemma {:induction false} ByXidSize(entries: seq<XidEntry>)
    requires DistinctXids(entries)
    ensures |ByXid(entries)| == |entries|
  {
    if entries != [] {
      var n := |entries| - 1;
      ByXidSize(entries[..n]);
      assert entries[n].xid !in ByXid(entries[..n]);
    }
  }

  // ----- choosing an id

  function NextXid(x: u32): u32 {
    if x == UINT32_MAX then 0 else x + 1
  }

  /** How many steps of NextXid lead from one id to another. */
  function Ahead(start: u32, x: u32): nat {
    if start <= x then x - start else x - start + 0x1_0000_0000
  }

  ghost predicate Full(t: Table<u32, XidEntry>)
    requires Sized(XidConfig(), t)
  {
    forall y: u32 :: Taken(t, y)
  }

  ghost predicate TakenUpTo(t: Table<u32, XidEntry>, start: u32, xid: u32)
    requires Sized(XidConfig(), t)
  {
    forall y: u32 :: Ahead(start, y) < Ahead(start, xid) ==> Taken(t, y)
  }

  /** One more probe found an id taken: either there is a next candidate, or all are taken. */
  lemma ProbeOn(t: Table<u32, XidEntry>, start: u32, xid: u32)
    requires Sized(XidConfig(), t) && TakenUpTo(t, start, xid) && Taken(t, xid)
    ensures if NextXid(xid) == start then Full(t)
            else Ahead(start, NextXid(xid)) == Ahead(start, xid) + 1 && TakenUpTo(t, start, NextXid(xid))
  {
    assert forall y: u32 :: Ahead(start, y) == Ahead(start, xid) ==> y == xid;
    assert NextXid(xid) == start ==> forall y: u32 :: Ahead(start, y) <= Ahead(start, xid);
  }

  /** xid is free, and every id met before it when counting up from start is taken. */
  ghost predicate FirstFree(t: Table<u32, XidEntry>, start: u32, xid: u32)
    requires Sized(XidConfig(), t)
  {
    !Taken(t, xid) && TakenUpTo(t, start, xid)
  }

  /** What cc_generate_xid is meant to return. */
  ghost predicate Generated(s: XidState, xid: u32)
    requires Sized(XidConfig(), s.table)
  {
    if Full(s.table) then xid == 0 else FirstFree(s.table, NextXid(s.latest), xid)
  }

  lemma GeneratedUnique(s: XidState, x: u32, y: u32)
    requires Sized(XidConfig(), s.table) && Generated(s, x) && Generated(s, y)
    ensures x == y
  {
    var start := NextXid(s.latest);
    assert !Full(s.table) ==> Ahead(start, x) == Ahead(start, y);
  }

  /** The id e steps after the successor of x, modulo 2^32. */
  function Later(x: u32, e: nat): u32 {
    (x + 1 + e) % 0x1_0000_0000
  }

  /** Counting up from the last id plus one modulo 2^32, the first id that is not taken; 0 if there is none. */
  lemma GeneratedIs(s: XidState, d: nat)
    requires Sized(XidConfig(), s.table) && d < 0x1_0000_0000
    requires forall e :: 0 <= e < d ==> Taken(s.table, Later(s.latest, e))
    ensures !Taken(s.table, (s.latest + 1 + d) % 0x1_0000_0000) ==> Generated(s, (s.latest + 1 + d) % 0x1_0000_0000)
    ensures d == 0xffff_ffff && Taken(s.table, (s.latest + 1 + d) % 0x1_0000_0000) ==> Generated(s, 0)
  {
    hide Taken, Sized, XidConfig, Later;
    var start := NextXid(s.latest);
    Wraps(s.latest, d);
    forall y: u32 | Ahead(start, y) < d ensures Taken(s.table, y) {
      WrapsBack(s.latest, y);
    }
    if d == 0xffff_ffff && Taken(s.table, Later(s.latest, d)) {
      forall y: u32 ensures Taken(s.table, y) {
        WrapsBack(s.latest, y);
      }
    }
  }

  lemma Wraps(x: u32, e: nat)
    requires e < 0x1_0000_0000
    ensures Later(x, e) == (x + 1 + e) % 0x1_0000_0000 && Ahead(NextXid(x), Later(x, e)) == e
  {
  }

  lemma WrapsBack(x: u32, y: u32)
    ensures Ahead(NextXid(x), y) < 0x1_0000_0000 && Later(x, Ahead(NextXid(x), y)) == y
  {
  }

  ghost function Below(n: nat): (r: set<int>)
    ensures |r| == n && forall x :: x in r <==> 0 <= x < n
  {
    if n == 0 then {} else Below(n - 1) + {n - 1}
  }

  lemma {:induction false} DistinctSize(xs: seq<int>)
    requires forall i, j :: 0 <= i < j < |xs| ==> xs[i] != xs[j]
    ensures |set x | x in xs| == |xs|
  {
    if xs != [] {
      var n := |xs| - 1;
      DistinctSize(xs[..n]);
      assert xs == xs[..n] + [xs[n]];
      assert (set x | x in xs) == (set x | x in xs[..n]) + {xs[n]};
    }
  }

  /** Distinct numbers below n are at most n many, and n many only if all occur. */
  lemma Pigeonhole(xs: seq<int>, n: nat)
    requires forall i, j :: 0 <= i < j < |xs| ==> xs[i] != xs[j]
    requires forall i :: 0 <= i < |xs| ==> 0 <= xs[i] < n
    ensures |xs| <= n
    ensures |xs| == n <==> forall y :: 0 <= y < n ==> y in xs
  {
    var used, all := (set x | x in xs), Below(n);
    DistinctSize(xs);
    assert all == used + (all - used);
    assert |all| == |used| + |all - used|;
    if forall y :: 0 <= y < n ==> y in xs {
      assert all == used;
    }
    if |xs| == n {
      assert all - used == {};
      forall y | 0 <= y < n ensures y in xs {
        assert y in all;
      }
    }
  }

  lemma IssuedIn(entries: seq<XidEntry>, xs: seq<int>, y: u32)
    requires |xs| == |entries| && forall i :: 0 <= i < |xs| ==> xs[i] == entries[i].xid
    ensures Issued(entries, y) <==> y in xs
  {
  }

  /** Every id is taken exactly when 2^32 entries are outstanding. */
  lemma FullWhen(s: XidState)
    requires Agree(s)
    ensures |s.entries| <= 0x1_0000_0000
    ensures Full(s.table) <==> |s.entries| == 0x1_0000_0000
  {
    hide *;
    var xs := IdsOf(s);
    Pigeonhole(xs, 0x1_0000_0000);
    forall y: u32 ensures Taken(s.table, y) <==> y in xs {
      TakenIn(s, xs, y);
    }
    FullIs(s.table, xs);
  }

  lemma IdsOf(s: XidState) returns (xs: seq<int>)
    requires Agree(s)
    ensures |xs| == |s.entries| && forall i :: 0 <= i < |xs| ==> xs[i] == s.entries[i].xid
    ensures forall i, j :: 0 <= i < j < |xs| ==> xs[i] != xs[j]
    ensures forall i :: 0 <= i < |xs| ==> 0 <= xs[i] < 0x1_0000_0000
    ensures Sized(XidConfig(), s.table)
  {
    xs := seq(|s.entries|, i requires 0 <= i < |s.entries| => s.entries[i].xid as int);
    assert DistinctXids(s.entries);
  }

  lemma FullIs(t: Table<u32, XidEntry>, xs: seq<int>)
    requires Sized(XidConfig(), t) && forall y: u32 :: Taken(t, y) <==> y in xs
    ensures Full(t) <==> forall y :: 0 <= y < 0x1_0000_0000 ==> y in xs
  {
    hide Taken, Sized, XidConfig;
    assert (forall y :: 0 <= y < 0x1_0000_0000 ==> y in xs) <==> (forall y: u32 :: y in xs);
  }

  lemma TakenIn(s: XidState, xs: seq<int>, y: u32)
    requires Agree(s) && |xs| == |s.entries| && forall i :: 0 <= i < |xs| ==> xs[i] == s.entries[i].xid
    ensures Taken(s.table, y) <==> y in xs
  {
    assert Sized(XidConfig(), s.table);
    hide *;
    LookupAgrees(s, y);
    IssuedIn(s.entries, xs, y);
  }

  /** The loop as written: its test re-reads the first candidate only, and that
      candidate is not stored when the last id issued was the largest one. */
  function Written(t: Table<u32, XidEntry>, latest: u32): u32
    requires Sized(XidConfig(), t)
  {
    if Taken(t, NextXid(latest)) then 0 else if latest == UINT32_MAX then UINT32_MAX else NextXid(latest)
  }

  /** Exactly when the loop as written issues the id it is meant to issue. */
  lemma WrittenIsGenerated(s: XidState)
    requires Agree(s) && |s.entries| < 0x1_0000_0000
    ensures Generated(s, Written(s.table, s.latest)) <==>
            && s.latest != UINT32_MAX
            && (!Taken(s.table, NextXid(s.latest)) || FirstFree(s.table, NextXid(s.latest), 0))
  {
    FullWhen(s);
    var start := NextXid(s.latest);
    assert Ahead(start, start) == 0;
    if s.latest == UINT32_MAX && !Taken(s.table, 0) {
      assert Ahead(0, 0) < Ahead(0, UINT32_MAX);
    }
  }

  /** Exactly when the id it issues is not outstanding already. */
  lemma WrittenIsFree(s: XidState)
    requires Agree(s)
    ensures !Taken(s.table, Written(s.table, s.latest)) <==>
            if Taken(s.table, NextXid(s.latest)) then !Taken(s.table, 0)
            else s.latest == UINT32_MAX ==> !Taken(s.table, UINT32_MAX)
  {
  }

  lemma OneEntry(e: XidEntry)
    ensures Agree(XidState(e.xid, [e], Insert(XidConfig(), Empty(XidConfig()), e.xid, Ref(e))))
  {
    var c := XidConfig();
    EmptyInv<u32, XidEntry>(c);
    var t: Table<u32, XidEntry> := Empty(c);
    InsertInv(c, t, e.xid, Ref(e));
    InsertModels(c, t, map[], e.xid, Ref(e));
    assert RefInsert(c, map[], e.xid, Ref(e)) == ByXid([e]);
  }

  /** One entry outstanding, yet its id is issued again. */
  lemma WrittenReissues(e: XidEntry)
    requires e.xid == UINT32_MAX
    ensures var s := XidState(UINT32_MAX, [e], Insert(XidConfig(), Empty(XidConfig()), e.xid, Ref(e)));
            Agree(s) && Written(s.table, s.latest) == e.xid && Taken(s.table, e.xid)
  {
    var s := XidState(UINT32_MAX, [e], Insert(XidConfig(), Empty(XidConfig()), e.xid, Ref(e)));
    OneEntry(e);
    assert s.entries[0].xid == e.xid && Issued(s.entries, e.xid) && !Issued(s.entries, 0);
    assert NextXid(s.latest) == 0;
    hide Agree, Insert, Empty, XidConfig, Taken, Issued, NextXid, Lookup;
    LookupAgrees(s, e.xid);
    LookupAgrees(s, 0);
  }

  // ----- runs

  datatype XidOp = Enter(entry: XidEntry) | Leave(xid: u32)

  /** compare_xid_entry against a given entry. */
  function HasXid(xid: u32): XidEntry -> bool {
    (e: XidEntry) => e.xid == xid
  }

  function EntryOf(entries: seq<XidEntry>, xid: u32): nat {
    FirstWhere(entries, HasXid(xid))
  }

  /** The list without the first entry that has the id. */
  function Removed(s: XidState, xid: u32): XidState {
    var p := EntryOf(s.entries, xid);
    s.(entries := if p < |s.entries| then RemoveAt(s.entries, p) else s.entries)
  }

  function StepXid(s: XidState, op: XidOp): (r: XidState)
    requires Sized(XidConfig(), s.table)
    ensures Sized(XidConfig(), r.table)
  {
    match op
    case Enter(e) =>
      XidState(e.xid, s.entries + [e], Insert(XidConfig(), s.table, e.xid, Ref(e)))
    case Leave(xid) =>
      if !Taken(s.table, xid) then s.(table := Delete(XidConfig(), s.table, xid))
      else
        Removed(s, xid).(table := Delete(XidConfig(), s.table, xid))
  }

  /** An insertion issues the generated id, and some id is left to issue. */
  ghost predicate Enabled(s: XidState, op: XidOp)
    requires Sized(XidConfig(), s.table)
  {
    op.Enter? ==> Generated(s, op.entry.xid) && |s.entries| < 0x1_0000_0000
  }

  ghost predicate EnabledRun(s: XidState, ops: seq<XidOp>)
    requires Sized(XidConfig(), s.table)
    decreases |ops|
  {
    ops != [] ==> Enabled(s, ops[0]) && EnabledRun(StepXid(s, ops[0]), ops[1..])
  }

  function RunXid(s: XidState, ops: seq<XidOp>): (r: XidState)
    requires Sized(XidConfig(), s.table)
    ensures Sized(XidConfig(), r.table)
    decreases |ops|
  {
    if ops == [] then s else RunXid(StepXid(s, ops[0]), ops[1..])
  }

  lemma RefDeleteXid(m: map<u32, Ptr<XidEntry>>, xid: u32, r: map<u32, Ptr<XidEntry>>)
    requires Less(m, xid, r)
    ensures RefDelete(XidConfig(), m, xid) == r
  {
  }

  lemma RefDeleteByXid(entries: seq<XidEntry>, p: nat)
    requires DistinctXids(entries) && p < |entries|
    ensures DistinctXids(RemoveAt(entries, p))
    ensures RefDelete(XidConfig(), ByXid(entries), entries[p].xid) == ByXid(RemoveAt(entries, p))
  {
    ByXidRemove(entries, p);
    RefDeleteXid(ByXid(entries), entries[p].xid, ByXid(RemoveAt(entries, p)));
  }

  lemma RefInsertXid(m: map<u32, Ptr<XidEntry>>, xid: u32, v: Ptr<XidEntry>)
    requires xid !in m
    ensures RefInsert(XidConfig(), m, xid, v) == m[xid := v]
  {
    RefDeleteXid(m, xid, m);
  }

  lemma EnterKeeps(s: XidState, e: XidEntry)
    requires Agree(s) && !Taken(s.table, e.xid)
    ensures Agree(StepXid(s, Enter(e)))
  {
    var c := XidConfig();
    LookupAgrees(s, e.xid);
    ByXidAppend(s.entries, e);
    InsertInv(c, s.table, e.xid, Ref(e));
    InsertModels(c, s.table, ByXid(s.entries), e.xid, Ref(e));
    RefInsertXid(ByXid(s.entries), e.xid, Ref(e));
  }

  /** Adding an entry keeps the agreement exactly when its id was not outstanding. */
  lemma EnterAgrees(s: XidState, e: XidEntry)
    requires Agree(s)
    ensures Agree(StepXid(s, Enter(e))) <==> !Taken(s.table, e.xid)
  {
    LookupAgrees(s, e.xid);
    if Taken(s.table, e.xid) {
      var more := StepXid(s, Enter(e)).entries;
      var i :| 0 <= i < |s.entries| && s.entries[i].xid == e.xid;
      assert more[i].xid == more[|s.entries|].xid;
    } else {
      EnterKeeps(s, e);
    }
  }

  /** The entry the hash gives up is in the list, so the list is not empty, and
      the search by xid finds that very entry. */
  lemma LeaveFindsSame(s: XidState, xid: u32)
    requires Agree(s) && Taken(s.table, xid)
    ensures var p := EntryOf(s.entries, xid);
            p < |s.entries| && Lookup(XidConfig(), s.table, xid) == Ref(s.entries[p])
  {
    LookupAgrees(s, xid);
  }

  lemma LeaveAgrees(s: XidState, xid: u32)
    requires Agree(s)
    ensures Agree(StepXid(s, Leave(xid)))
  {
    LookupAgrees(s, xid);
    if Taken(s.table, xid) {
      var c, p := XidConfig(), EntryOf(s.entries, xid);
      LeaveFindsSame(s, xid);
      DeleteInv(c, s.table, xid);
      DeleteModels(c, s.table, ByXid(s.entries), xid);
      RefDeleteByXid(s.entries, p);
    }
  }

  /** Over any run that never exhausts the ids, the list and the hash agree. */
  lemma {:induction false} RunAgrees(s: XidState, ops: seq<XidOp>)
    requires Agree(s) && EnabledRun(s, ops)
    ensures Agree(RunXid(s, ops))
    decreases |ops|
  {
    if ops != [] {
      match ops[0] {
        case Enter(e) => FullWhen(s); EnterAgrees(s, e);
        case Leave(xid) => LeaveAgrees(s, xid);
      }
      RunAgrees(StepXid(s, ops[0]), ops[1..]);
    }
  }
}
