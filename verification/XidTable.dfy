/**
 src/cc_xid.c over the pointer structures: a hash table and a singly linked
 list of the same entries, and the last id issued.
 */
module XidTable {

  import opened Bytes
  import opened HashSpec
  import opened HashTable
  import opened SingleLink
  import opened XidSpec

  const CC_SUCCESS := 0
  const CC_ERROR := -1

  /** cc_lookup_xid_entry. */
  method Find(xidHash: Hash<u32, XidEntry>, xid: u32) returns (result: int)
    requires xidHash.Valid() && xidHash.config == XidConfig()
    ensures result == if Taken(xidHash.s.t, xid) then CC_SUCCESS else CC_ERROR
  {
    var found := xidHash.LookupHashEntry(xid);
    return if found == Null then CC_ERROR else CC_SUCCESS;
  }

  lemma HashSized(xidHash: Hash<u32, XidEntry>)
    requires xidHash.Valid() && xidHash.config == XidConfig()
    ensures Sized(XidConfig(), xidHash.s.t)
  {
  }

  /** The probing loop has come to the candidate xid, the lookups-th it looked up. */
  ghost predicate Probing(t: Table<u32, XidEntry>, start: u32, xid: u32, lookups: nat)
    requires Sized(XidConfig(), t)
  {
    TakenUpTo(t, start, xid) && lookups == Ahead(start, xid) + 1
  }

  lemma ProbingStarts(t: Table<u32, XidEntry>, start: u32)
    requires Sized(XidConfig(), t)
    ensures Probing(t, start, start, 1)
  {
  }

  /** What the loop ends with is the id to generate, whatever the list holds. */
  ghost predicate Probed(t: Table<u32, XidEntry>, last: u32, xid: u32)
    requires Sized(XidConfig(), t)
  {
    FirstFree(t, NextXid(last), xid) || (Full(t) && xid == 0)
  }

  lemma ProbedGenerated(t: Table<u32, XidEntry>, last: u32, xid: u32)
    requires Sized(XidConfig(), t) && Probed(t, last, xid)
    ensures forall entries :: Generated(XidState(last, entries, t), xid)
  {
    forall entries ensures Generated(XidState(last, entries, t), xid) {
    }
  }

  /** A turn of the loop: the candidate was taken, so there is a next one or none is free.
      No more ids than there are have been looked up. */
  lemma ProbeTurn(t: Table<u32, XidEntry>, last: u32, xid: u32, lookups: nat)
    requires Sized(XidConfig(), t) && Probing(t, NextXid(last), xid, lookups) && Taken(t, xid)
    ensures 1 <= lookups <= 0x1_0000_0000
    ensures if NextXid(xid) == NextXid(last) then Probed(t, last, 0)
            else lookups < 0x1_0000_0000 && Probing(t, NextXid(last), NextXid(xid), lookups + 1)
  {
    assert Ahead(NextXid(last), xid) < 0x1_0000_0000 && Ahead(NextXid(last), NextXid(xid)) < 0x1_0000_0000;
    hide Taken, TakenUpTo, Full, XidConfig, Sized, Ahead, NextXid;
    ProbeOn(t, NextXid(last), xid);
  }

  lemma ProbeDone(t: Table<u32, XidEntry>, last: u32, xid: u32, lookups: nat)
    requires Sized(XidConfig(), t) && Probing(t, NextXid(last), xid, lookups) && !Taken(t, xid)
    ensures 1 <= lookups <= 0x1_0000_0000 && Probed(t, last, xid)
  {
    hide Taken, TakenUpTo, XidConfig, Sized, NextXid;
  }

  /** The next candidate; the largest id is followed by 0. */
  method Step(xid: u32) returns (next: u32)
    ensures next == NextXid(xid)
  {
    if xid != UINT32_MAX {
      next := xid + 1;
    } else {
      next := 0;
    }
  }

  /** The probing loop of cc_generate_xid as it is meant: each new candidate is looked up. */
  method ProbeOnward(xidHash: Hash<u32, XidEntry>, last: u32) returns (latest: u32, ghost lookups: nat)
    requires xidHash.Valid() && xidHash.config == XidConfig() && Sized(XidConfig(), xidHash.s.t)
    ensures 1 <= lookups <= 0x1_0000_0000 && Probed(xidHash.s.t, last, latest)
  {
    assert CC_SUCCESS == 0 && CC_ERROR == -1;
    hide *;
    ghost var t := xidHash.s.t;
    var initial := Step(last);
    latest := initial;
    var found := Find(xidHash, latest);
    lookups := 1;
    ProbingStarts(t, initial);
    while found >= 0
      invariant found == if Taken(t, latest) then CC_SUCCESS else CC_ERROR
      invariant Probing(t, initial, latest, lookups)
      decreases 0x1_0000_0000 - lookups
    {
      ProbeTurn(t, last, latest, lookups);
      latest := Step(latest);
      if initial == latest {
        latest := 0;
        return;
      }
      found := Find(xidHash, latest);
      lookups := lookups + 1;
    }
    ProbeDone(t, last, latest, lookups);
  }

  /** The same in terms of the id to generate. */
  method Probe(xidHash: Hash<u32, XidEntry>, last: u32) returns (latest: u32, ghost lookups: nat)
    requires xidHash.Valid() && xidHash.config == XidConfig()
    ensures 1 <= lookups <= 0x1_0000_0000
    ensures forall entries :: Generated(XidState(last, entries, xidHash.s.t), latest)
  {
    hide *;
    HashSized(xidHash);
    latest, lookups := ProbeOnward(xidHash, last);
    ProbedGenerated(xidHash.s.t, last, latest);
  }

  /** The loop as written: the first candidate is looked up again and again. */
  method ProbeAsWritten(xidHash: Hash<u32, XidEntry>, last: u32) returns (latest: u32)
    requires xidHash.Valid() && xidHash.config == XidConfig()
    ensures latest == Written(xidHash.s.t, last)
  {
    ghost var t := xidHash.s.t;
    assert Sized(XidConfig(), t);
    hide Hash.Valid, XidConfig, Taken;
    latest := last;
    var initial: u32 := 0;
    if latest != UINT32_MAX {
      latest := latest + 1;
      initial := latest;
    }
    var found := Find(xidHash, initial);
    while found >= 0
      invariant xidHash.Valid() && xidHash.s.t == t && Sized(XidConfig(), t)
      invariant found == if Taken(t, initial) then CC_SUCCESS else CC_ERROR
      invariant !Taken(t, initial) ==> latest == if last == UINT32_MAX then UINT32_MAX else initial
      decreases 0x1_0000_0000 - Ahead(initial, latest)
    {
      if latest != UINT32_MAX {
        latest := latest + 1;
      } else {
        latest := 0;
      }
      if initial == latest {
        latest := 0;
        break;
      }
      found := Find(xidHash, initial);
    }
  }

  /** The new entry goes last; an empty list gets its first node directly. */
  method Enqueue(head: Link?<XidEntry>, entry: XidEntry, ghost s: seq<Link<XidEntry>>)
    returns (newHead: Link<XidEntry>, ghost s': seq<Link<XidEntry>>)
    requires Spine(head, s)
    modifies s`next
    ensures Spine(newHead, s') && Values(s') == old(Values(s)) + [entry]
    ensures |s'| == |s| + 1 && s'[..|s|] == s && fresh(s'[|s|])
  {
    if head == null {
      newHead := new Link(entry, null);
      s' := [newHead];
      assert Values(s') == Values(s) + [entry];
    } else {
      newHead, s' := AppendToTail(head, entry, s);
    }
  }

  /** find_list_custom, then delete_element with what was found. */
  method Dequeue(head: Link?<XidEntry>, xid: u32, ghost s: seq<Link<XidEntry>>)
    returns (newHead: Link?<XidEntry>, ghost s': seq<Link<XidEntry>>)
    requires Spine(head, s) && s != []
    modifies s`next
    ensures Spine(newHead, s') && forall n :: n in s' ==> n in s
    ensures var p := EntryOf(old(Values(s)), xid);
            Values(s') == if p < |s| then RemoveAt(old(Values(s)), p) else old(Values(s))
  {
    ghost var items := Values(s);
    ghost var p := EntryOf(items, xid);
    assert p < |items| ==> items[p] !in items[..p];
    newHead, s' := head, s;
    var found := FindListCustom(head, HasXid(xid), s);
    if found != Null {
      FirstOfIs(items, found.value, p);
      var deleted;
      newHead, deleted, s' := DeleteElement(head, found.value, s);
    }
  }

  /** The same beside a hash none of whose objects is a node of the list. */
  method DequeueBeside(head: Link?<XidEntry>, xid: u32, ghost s: seq<Link<XidEntry>>, ghost h: Hash<u32, XidEntry>)
    returns (newHead: Link?<XidEntry>, ghost s': seq<Link<XidEntry>>)
    requires Spine(head, s) && s != [] && h.Valid()
    requires forall l :: l in s ==> l as object != h && l as object != h.buckets
    requires forall n, l :: n in h.s.nodes && l in s ==> n as object != l
    requires forall n, l :: n in h.s.index && l in s ==> n as object != l
    modifies s`next
    ensures Spine(newHead, s') && (forall n :: n in s' ==> n in s) && h.Valid()
    ensures var p := EntryOf(old(Values(s)), xid);
            Values(s') == if p < |s| then RemoveAt(old(Values(s)), p) else old(Values(s))
  {
    hide *;
    newHead, s' := Dequeue(head, xid, s);
  }

  lemma RemovedIs(before: XidState, xid: u32)
    ensures var p := EntryOf(before.entries, xid);
            Removed(before, xid) ==
            before.(entries := if p < |before.entries| then RemoveAt(before.entries, p) else before.entries)
  {
  }

  lemma LeaveIs(before: XidState, xid: u32)
    requires Sized(XidConfig(), before.table)
    ensures Taken(before.table, xid) <==> Lookup(XidConfig(), before.table, xid) != Null
    ensures var dropped := before.(table := Delete(XidConfig(), before.table, xid));
            StepXid(before, Leave(xid)) == if Taken(before.table, xid) then Removed(dropped, xid) else dropped
  {
  }

  lemma EnterIs(before: XidState, xid: u32, entry: XidEntry)
    requires Sized(XidConfig(), before.table) && entry.xid == xid
    ensures StepXid(before, Enter(entry)) ==
            XidState(xid, before.entries + [entry], Insert(XidConfig(), before.table, xid, Ref(entry)))
  {
  }

  class XidTable {
    var latest: u32
    const xidHash: Hash<u32, XidEntry>
    var entryList: Link?<XidEntry>
    ghost var spine: seq<Link<XidEntry>>

    ghost predicate Valid()
      reads this, xidHash, xidHash.buckets, xidHash.s.index, xidHash.s.nodes, spine
    {
      && xidHash.Valid() && xidHash.config == XidConfig()
      && Spine(entryList, spine)
    }

    ghost function State(): (s: XidState)
      reads this, xidHash, xidHash.buckets, xidHash.s.index, xidHash.s.nodes, spine
      requires Valid()
      ensures Sized(XidConfig(), s.table)
    {
      XidState(latest, Values(spine), xidHash.s.t)
    }

    constructor ()
      ensures Valid() && State() == XidState(0, [], Empty(XidConfig())) && Agree(State())
      ensures fresh(xidHash) && fresh(xidHash.buckets) && fresh(xidHash.s.nodes)
    {
      latest := 0;
      xidHash := new Hash(XidConfig());
      entryList := null;
      spine := [];
      new;
      EmptyInv<u32, XidEntry>(XidConfig());
    }

    lemma HashApart()
      ensures xidHash as object != this && xidHash.buckets as object != this
      ensures forall n :: n in xidHash.s.nodes ==> n as object != this
      ensures forall n :: n in xidHash.s.index ==> n as object != this
    {
    }

    /** No node of the hash is this object or a node of the list. */
    lemma Apart()
      requires Valid()
      ensures xidHash as object != this && xidHash.buckets as object != this
      ensures forall l :: l in spine ==> l as object != this && l as object != xidHash && l as object != xidHash.buckets
      ensures forall n :: n in xidHash.s.nodes ==> n as object != this
      ensures forall n :: n in xidHash.s.index ==> n as object != this
      ensures forall n, l :: n in xidHash.s.nodes && l in spine ==> n as object != l
      ensures forall n, l :: n in xidHash.s.index && l in spine ==> n as object != l
    {
    }

    lemma Parts()
      requires Valid()
      ensures xidHash.Valid() && xidHash.config == XidConfig() && Spine(entryList, spine)
      ensures State() == XidState(latest, Values(spine), xidHash.s.t)
    {
    }

    method LookupXidEntry(xid: u32) returns (result: int)
      requires Valid()
      ensures result == if Taken(State().table, xid) then CC_SUCCESS else CC_ERROR
    {
      hide Hash.Valid, XidConfig, Taken;
      result := Find(xidHash, xid);
    }

    method GenerateXid() returns (xid: u32)
      requires Valid()
      modifies this`latest
      ensures Valid() && State() == old(State()).(latest := xid)
      ensures Generated(old(State()), xid)
    {
      hide Hash.Valid, XidConfig, Generated, Spine;
      Apart();
      ghost var lookups;
      xid, lookups := Probe(xidHash, latest);
      latest := xid;
    }

    method GenerateXidAsWritten() returns (xid: u32)
      requires Valid()
      modifies this`latest
      ensures Valid() && State() == old(State()).(latest := xid)
      ensures xid == Written(old(State()).table, old(latest))
    {
      hide Hash.Valid, XidConfig, Written, Spine;
      Apart();
      xid := ProbeAsWritten(xidHash, latest);
      latest := xid;
    }

    method AppendEntry(entry: XidEntry)
      requires Valid()
      modifies this`entryList, this`spine, spine
      ensures Valid() && State() == old(State()).(entries := old(State()).entries + [entry])
      ensures |spine| == |old(spine)| + 1 && spine[..|old(spine)|] == old(spine) && fresh(spine[|old(spine)|])
    {
      hide *;
      Parts();
      Apart();
      var newHead;
      ghost var more;
      newHead, more := Enqueue(entryList, entry, spine);
      AdoptList(newHead, more);
    }

    /** cc_insert_xid_entry: whatever the state, one entry is added under the generated id. */
    method InsertXidEntry() returns (xid: u32, ghost entry: XidEntry)
      requires Valid()
      modifies this, xidHash, xidHash.buckets, xidHash.s.nodes, spine
      ensures Valid() && fresh(entry) && entry.xid == xid
      ensures Generated(old(State()), xid)
      ensures State() == StepXid(old(State()), Enter(entry))
    {
      hide *;
      ghost var before := State();
      xid := GenerateXid();
      var newEntry := new XidEntry(xid);
      Apart();
      AppendEntry(newEntry);
      EnterHash(newEntry);
      entry := newEntry;
      EnterIs(before, xid, entry);
    }

    /** insert_hash_entry on the hash; the list stays. */
    method EnterHash(entry: XidEntry)
      requires Valid()
      modifies xidHash, xidHash.buckets, xidHash.s.nodes
      ensures Valid() && State() == XidState(old(State()).latest, old(State()).entries,
                                             Insert(XidConfig(), old(State()).table, entry.xid, Ref(entry)))
    {
      hide Hash.Valid, XidConfig, Spine, Insert;
      Apart();
      var _ := xidHash.InsertHashEntry(entry.xid, Ref(entry));
    }

    method RemoveEntry(xid: u32)
      requires Valid() && State().entries != []
      modifies this`entryList, this`spine, spine
      ensures Valid()
      ensures State() == Removed(old(State()), xid)
    {
      hide *;
      ghost var before := State();
      Parts();
      Apart();
      var newHead;
      ghost var rest;
      newHead, rest := DequeueBeside(entryList, xid, spine, xidHash);
      RemovedIs(before, xid);
      AdoptList(newHead, rest);
    }

    method AdoptList(newHead: Link?<XidEntry>, ghost rest: seq<Link<XidEntry>>)
      requires xidHash.Valid() && xidHash.config == XidConfig() && Spine(newHead, rest)
      modifies this`entryList, this`spine
      ensures Valid() && State() == XidState(latest, Values(rest), xidHash.s.t)
      ensures entryList == newHead && spine == rest
    {
      HashApart();
      assert forall l :: l in rest ==> l as object != this;
      hide Hash.Valid, XidConfig, Spine;
      entryList, spine := newHead, rest;
    }

    /** cc_delete_xid_entry.  The list is reached only when the hash held the id,
        and its head is then read without a test. */
    method DeleteXidEntry(entry: XidEntry) returns (result: int)
      requires Valid()
      requires Taken(State().table, entry.xid) ==> State().entries != []
      modifies this, xidHash, xidHash.buckets, xidHash.s.nodes, spine
      ensures Valid()
      ensures result == if Taken(old(State()).table, entry.xid) then CC_SUCCESS else CC_ERROR
      ensures State() == StepXid(old(State()), Leave(entry.xid))
    {
      hide *;
      LeaveIs(State(), entry.xid);
      var deleted := LeaveHash(entry.xid);
      if deleted == Null {
        return CC_ERROR;
      }
      RemoveEntry(entry.xid);
      return CC_SUCCESS;
    }

    /** delete_hash_entry on the hash; the list stays. */
    method LeaveHash(xid: u32) returns (deleted: Ptr<XidEntry>)
      requires Valid()
      modifies xidHash, xidHash.buckets, xidHash.s.nodes
      ensures Valid() && xidHash.s.nodes == old(xidHash.s.nodes) && spine == old(spine)
      ensures State() == old(State()).(table := Delete(XidConfig(), old(State()).table, xid))
      ensures deleted == Lookup(XidConfig(), old(State()).table, xid)
    {
      hide Hash.Valid, XidConfig, Spine;
      Apart();
      deleted := xidHash.DeleteHashEntry(xid);
    }
  }
}
