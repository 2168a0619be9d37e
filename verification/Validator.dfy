/**
 src/cc_of_err.c: validation of received messages.  A buffer is the sequence of
 its bytes; the validators only read it.  Every result is 0 or a negative code.
 */
module Validator {

  import opened Bytes
  import opened Tlv
  import opened Records
  import opened Regions

  const ERROR_UNSUPPORTED_VERSION := -60
  const ERROR_INVALID_LENGTH := -59
  const ERROR_TOO_SHORT_MESSAGE := -58
  const ERROR_TOO_LONG_MESSAGE := -57
  const ERROR_INVALID_TYPE := -56
  const ERROR_UNDEFINED_TYPE := -55
  const ERROR_NO_TABLE_AVAILABLE := -53
  const ERROR_INVALID_PORT_NO := -52
  const ERROR_INVALID_PORT_CONFIG := -51
  const ERROR_INVALID_PORT_STATE := -50
  const ERROR_INVALID_PORT_FEATURES := -49
  const ERROR_INVALID_WILDCARDS := -45
  const ERROR_INVALID_VLAN_VID := -44
  const ERROR_INVALID_VLAN_PCP := -43
  const ERROR_INVALID_NW_TOS := -42
  const ERROR_TOO_SHORT_QUEUE_DESCRIPTION := -40
  const ERROR_TOO_SHORT_QUEUE_PROPERTY := -39
  const ERROR_TOO_LONG_QUEUE_PROPERTY := -38
  const ERROR_UNDEFINED_QUEUE_PROPERTY := -37
  const ERROR_TOO_SHORT_ACTION := -36
  const ERROR_UNDEFINED_ACTION_TYPE := -35
  const ERROR_TOO_SHORT_ACTION_OUTPUT := -33
  const ERROR_TOO_LONG_ACTION_OUTPUT := -32
  const ERROR_UNSUPPORTED_STATS_TYPE := -8
  const ERROR_INVALID_STATS_REPLY_FLAGS := -7
  const ERROR_INVALID_FLOW_PRIORITY := -6
  const ERROR_INVALID_FLOW_MOD_FLAGS := -5
  const ERROR_UNDEFINED_FLOW_MOD_COMMAND := -1

  // ----- walking a region element by element

  /** What a walker made of a region: its result, and the offset at which it stopped. */
  datatype Outcome = Outcome(code: int, end: nat)

  /** A check of the element at the front of the given bytes. */
  type Check = seq<byte> -> int

  /** The bytes the walker reads, `head` of each element, are there, and its 16-bit
      offset moves forward without wrapping. */
  ghost predicate Walkable(k: Kind, head: nat, check: Check, b: seq<byte>, offset: nat, length: nat)
    decreases length - offset
  {
    offset < length ==>
      && k.at + 2 <= head && offset + head <= |b|
      && (check(b[offset..]) == 0 ==>
            var n := Get16(Wire, b, offset + k.at);
            0 < n && offset + n < 0x1_0000 && Walkable(k, head, check, b, offset + n, length))
  }

  ghost function Walk(k: Kind, head: nat, check: Check, b: seq<byte>, offset: nat, length: nat): Outcome
    requires Walkable(k, head, check, b, offset, length)
    decreases length - offset
  {
    if offset >= length then Outcome(0, offset)
    else if check(b[offset..]) != 0 then Outcome(check(b[offset..]), offset)
    else Walk(k, head, check, b, offset + Get16(Wire, b, offset + k.at), length)
  }

  /** The result of the first element that fails its check, 0 if none does. */
  function FirstFailure(check: Check, cs: seq<seq<byte>>): (code: int)
    ensures code == 0 <==> forall i :: 0 <= i < |cs| ==> check(cs[i]) == 0
  {
    if cs == [] then 0 else if check(cs[0]) != 0 then check(cs[0]) else FirstFailure(check, cs[1..])
  }

  /** The check reads no more than the least element. */
  ghost predicate Local(k: Kind, check: Check) {
    forall c, rest {:trigger check(c + rest)} :: k.min <= |c| ==> check(c + rest) == check(c)
  }

  lemma TileStep(k: Kind, b: seq<byte>, offset: nat, length: nat) returns (n: nat)
    requires offset < length <= |b| && Tiled(Wire, k, b[offset..length])
    ensures k.at + 2 <= k.min && offset + k.min <= length && n == Get16(Wire, b, offset + k.at)
    ensures k.min <= n && offset + n <= length && Tiled(Wire, k, b[offset + n..length])
    ensures Split(Wire, k, b[offset..length]) == [b[offset..offset + n]] + Split(Wire, k, b[offset + n..length])
    ensures b[offset..] == b[offset..offset + n] + b[offset + n..]
  {
    hide *;
    var c := b[..length];
    PrefixSlice(b, length, offset, length);
    NextElement(Wire, k, c, offset);
    TiledSound(Wire, k, c[offset..]);
    LenAt(Wire, k, c, offset);
    PrefixGet16(b, length, offset + k.at);
    n := Get16(Wire, b, offset + k.at);
    PrefixSlice(b, length, offset, offset + n);
    PrefixSlice(b, length, offset + n, length);
    assert b[offset..] == b[offset..offset + n] + b[offset + n..];
  }

  lemma PrefixSlice<T>(b: seq<T>, length: nat, i: nat, j: nat)
    requires i <= j <= length <= |b|
    ensures b[..length][i..j] == b[i..j] && (j == length ==> b[..length][i..] == b[i..j])
  {
  }

  lemma PrefixGet16(b: seq<byte>, length: nat, i: nat)
    requires i + 2 <= length <= |b|
    ensures Get16(Wire, b[..length], i) == Get16(Wire, b, i)
  {
  }

  lemma WalkStep(k: Kind, head: nat, check: Check, b: seq<byte>, offset: nat, length: nat, n: nat)
    requires offset < length && k.at + 2 <= head && offset + head <= |b| && n == Get16(Wire, b, offset + k.at)
    requires 0 < n && offset + n < 0x1_0000 && Walkable(k, head, check, b, offset + n, length)
    ensures Walkable(k, head, check, b, offset, length)
    ensures Walk(k, head, check, b, offset, length) ==
            if check(b[offset..]) != 0 then Outcome(check(b[offset..]), offset)
            else Walk(k, head, check, b, offset + n, length)
  {
  }

  /** One turn of a walker. */
  lemma WalkTurn(k: Kind, head: nat, check: Check, b: seq<byte>, offset: nat, length: nat)
    requires Walkable(k, head, check, b, offset, length) && offset < length
    ensures k.at + 2 <= head && offset + head <= |b| && var n := Get16(Wire, b, offset + k.at);
            if check(b[offset..]) != 0 then
              Walk(k, head, check, b, offset, length) == Outcome(check(b[offset..]), offset)
            else
              && 0 < n && offset + n < 0x1_0000 && Walkable(k, head, check, b, offset + n, length)
              && Walk(k, head, check, b, offset, length) == Walk(k, head, check, b, offset + n, length)
  {
  }

  /** A walk that will have the given outcome has come to `offset`. */
  ghost predicate Toward(k: Kind, head: nat, check: Check, b: seq<byte>, offset: nat, length: nat, outcome: Outcome) {
    Walkable(k, head, check, b, offset, length) && Walk(k, head, check, b, offset, length) == outcome
  }

  lemma TowardNext(k: Kind, head: nat, check: Check, b: seq<byte>, offset: nat, length: nat, outcome: Outcome, at: nat)
    requires Toward(k, head, check, b, offset, length, outcome) && offset < length && at == offset + k.at
    ensures offset <= |b| && at + 2 <= |b| && var n := Get16(Wire, b, at);
            if check(b[offset..]) != 0 then outcome.code == check(b[offset..])
            else 0 < n && offset + n < 0x1_0000 && Toward(k, head, check, b, offset + n, length, outcome)
  {
    WalkTurn(k, head, check, b, offset, length);
  }

  lemma TowardEnd(k: Kind, head: nat, check: Check, b: seq<byte>, offset: nat, length: nat, outcome: Outcome)
    requires Toward(k, head, check, b, offset, length, outcome) && offset >= length
    ensures outcome == Outcome(0, offset)
  {
    WalkEnd(k, head, check, b, offset, length);
  }

  lemma WalkEnd(k: Kind, head: nat, check: Check, b: seq<byte>, offset: nat, length: nat)
    requires Walkable(k, head, check, b, offset, length) && offset >= length
    ensures Walk(k, head, check, b, offset, length) == Outcome(0, offset)
  {
  }

  lemma FailureStep(check: Check, c: seq<byte>, cs: seq<seq<byte>>)
    ensures FirstFailure(check, [c] + cs) == if check(c) != 0 then check(c) else FirstFailure(check, cs)
  {
    assert ([c] + cs)[1..] == cs;
  }

  lemma CheckFirst(k: Kind, check: Check, b: seq<byte>, c: seq<byte>, rest: seq<byte>)
    requires Local(k, check) && k.min <= |c| && b == c + rest
    ensures check(b) == check(c)
  {
    assert check(c + rest) == check(c);
  }

  /** The first element decides, or the elements after it. */
  lemma FoldStep(k: Kind, check: Check, b: seq<byte>, offset: nat, length: nat) returns (n: nat)
    requires Local(k, check) && offset < length <= |b| && Tiled(Wire, k, b[offset..length])
    ensures k.at + 2 <= k.min && offset + k.min <= |b| && n == Get16(Wire, b, offset + k.at)
    ensures k.min <= n && offset + n <= length && Tiled(Wire, k, b[offset + n..length])
    ensures FirstFailure(check, Split(Wire, k, b[offset..length])) ==
            if check(b[offset..]) != 0 then check(b[offset..])
            else FirstFailure(check, Split(Wire, k, b[offset + n..length]))
  {
    hide *;
    n := TileStep(k, b, offset, length);
    CheckFirst(k, check, b[offset..], b[offset..offset + n], b[offset + n..]);
    FailureStep(check, b[offset..offset + n], Split(Wire, k, b[offset + n..length]));
  }

  /** On a tiled region a walker is a fold over the elements: the 16-bit offset never
      wraps, and if no element fails it ends exactly at the region's end. */
  lemma {:induction false} WalkTiled(k: Kind, head: nat, check: Check, b: seq<byte>, offset: nat, length: nat)
    requires k.at + 2 <= head <= k.min && Local(k, check)
    requires offset <= length <= |b| && length < 0x1_0000 && Tiled(Wire, k, b[offset..length])
    ensures Walkable(k, head, check, b, offset, length)
    ensures var w := Walk(k, head, check, b, offset, length);
            && w.code == FirstFailure(check, Split(Wire, k, b[offset..length]))
            && (w.code == 0 ==> w.end == length)
    decreases length - offset
  {
    hide *;
    if offset < length {
      var n := FoldStep(k, check, b, offset, length);
      WalkTiled(k, head, check, b, offset + n, length);
      WalkStep(k, head, check, b, offset, length, n);
    } else {
      WalkNone(k, head, check, b, offset);
    }
  }

  lemma WalkNone(k: Kind, head: nat, check: Check, b: seq<byte>, offset: nat)
    requires k.at + 2 <= head && offset <= |b| && Tiled(Wire, k, b[offset..offset])
    ensures Walkable(k, head, check, b, offset, offset)
    ensures Walk(k, head, check, b, offset, offset) == Outcome(0, offset)
    ensures FirstFailure(check, Split(Wire, k, b[offset..offset])) == 0
  {
    assert b[offset..offset] == [];
    assert Split(Wire, k, b[offset..offset]) == [];
  }

  lemma TileJoin(k: Kind, b: seq<byte>, offset: nat, length: nat, n: nat)
    requires Sound(k) && k.min <= n && offset + n <= length <= |b| && n == Get16(Wire, b, offset + k.at)
    requires Tiled(Wire, k, b[offset + n..length])
    ensures Tiled(Wire, k, b[offset..length])
  {
    var r := b[offset..length];
    assert r[n..] == b[offset + n..length] && Len(Wire, k, r) == n;
  }

  /** What passes the check declares at least the least length. */
  ghost predicate Guarding(k: Kind, head: nat, check: Check) {
    Sound(k) && k.at + 2 <= head &&
    forall c {:trigger check(c)} :: head <= |c| && check(c) == 0 ==> k.min <= Get16(Wire, c, k.at)
  }

  /** From offset on the walk accepts and stops exactly at the end. */
  ghost predicate Exactly(k: Kind, head: nat, check: Check, b: seq<byte>, offset: nat, length: nat) {
    Walkable(k, head, check, b, offset, length) && Walk(k, head, check, b, offset, length) == Outcome(0, length)
  }

  lemma ExactStep(k: Kind, head: nat, check: Check, b: seq<byte>, offset: nat, length: nat) returns (n: nat)
    requires Exactly(k, head, check, b, offset, length) && Guarding(k, head, check) && offset < length <= |b|
    ensures offset + k.at + 2 <= |b| && n == Get16(Wire, b, offset + k.at)
    ensures Sound(k) && k.min <= n && offset + n <= length && Exactly(k, head, check, b, offset + n, length)
  {
    hide Walkable, Walk;
    WalkTurn(k, head, check, b, offset, length);
    n := Get16(Wire, b, offset + k.at);
    assert check(b[offset..]) == 0 && Get16(Wire, b[offset..], k.at) == n;
    WalkPasses(k, head, check, b, offset + n, length);
  }

  ghost predicate TiledFrom(k: Kind, b: seq<byte>, offset: nat, length: nat) {
    offset <= length <= |b| && Tiled(Wire, k, b[offset..length])
  }

  lemma TiledBefore(k: Kind, b: seq<byte>, offset: nat, length: nat, n: nat)
    requires Sound(k) && k.min <= n && TiledFrom(k, b, offset + n, length) && n == Get16(Wire, b, offset + k.at)
    ensures TiledFrom(k, b, offset, length)
  {
    TileJoin(k, b, offset, length, n);
  }

  lemma TiledNone(k: Kind, b: seq<byte>, offset: nat)
    requires Sound(k) && offset <= |b|
    ensures TiledFrom(k, b, offset, offset)
  {
    assert b[offset..offset] == [];
  }

  /** A walker that accepts and stops exactly at the end has seen a tiled region. */
  lemma {:induction false} WalkExact(k: Kind, head: nat, check: Check, b: seq<byte>, offset: nat, length: nat)
    requires Exactly(k, head, check, b, offset, length) && Guarding(k, head, check) && offset <= length <= |b|
    ensures TiledFrom(k, b, offset, length)
    decreases length - offset
  {
    assert Sound(k);
    hide *;
    if offset < length {
      var n := ExactStep(k, head, check, b, offset, length);
      WalkExact(k, head, check, b, offset + n, length);
      TiledBefore(k, b, offset, length, n);
    } else {
      TiledNone(k, b, offset);
    }
  }

  lemma {:induction false} WalkPasses(k: Kind, head: nat, check: Check, b: seq<byte>, offset: nat, length: nat)
    requires Walkable(k, head, check, b, offset, length)
    ensures Walk(k, head, check, b, offset, length).end >= offset
    decreases length - offset
  {
    if offset < length && check(b[offset..]) == 0 {
      WalkPasses(k, head, check, b, offset + Get16(Wire, b, offset + k.at), length);
    }
  }

  /** Exactly the tiled regions without a failing element are accepted with nothing left over or overrun. */
  lemma WalkAccepts(k: Kind, head: nat, check: Check, b: seq<byte>, length: nat)
    requires Walkable(k, head, check, b, 0, length) && Guarding(k, head, check) && Local(k, check)
    requires head <= k.min && length <= |b| && length < 0x1_0000
    ensures Walk(k, head, check, b, 0, length) == Outcome(0, length) <==>
            Tiled(Wire, k, b[..length]) && FirstFailure(check, Split(Wire, k, b[..length])) == 0
  {
    assert b[0..length] == b[..length];
    if Walk(k, head, check, b, 0, length) == Outcome(0, length) {
      WalkExact(k, head, check, b, 0, length);
    }
    if Tiled(Wire, k, b[..length]) {
      WalkTiled(k, head, check, b, 0, length);
    }
  }

  /** Where the region of the given length ends in b; the length may go beyond what b holds. */
  function End(b: seq<byte>, length: nat): nat {
    if length < |b| then length else |b|
  }

  /** The element at p passes its check and declares more than is left of the region. */
  ghost predicate Overruns(k: Kind, check: Check, b: seq<byte>, p: nat, length: nat) {
    p < length && p + k.at + 2 <= |b| && check(b[p..]) == 0 && Get16(Wire, b, p + k.at) > End(b, length) - p
  }

  /** The bytes from offset to p are tiled by elements that pass. */
  ghost predicate Passing(k: Kind, check: Check, b: seq<byte>, offset: nat, p: nat) {
    offset <= p <= |b| && Tiled(Wire, k, b[offset..p]) && FirstFailure(check, Split(Wire, k, b[offset..p])) == 0
  }

  /** From offset on elements pass up to p, where the region ends or is overrun. */
  ghost predicate PassesUpTo(k: Kind, check: Check, b: seq<byte>, offset: nat, length: nat, p: nat) {
    Passing(k, check, b, offset, p) && (p == length || Overruns(k, check, b, p, length))
  }

  lemma PassingNone(k: Kind, check: Check, b: seq<byte>, offset: nat)
    requires Sound(k) && offset <= |b|
    ensures Passing(k, check, b, offset, offset)
  {
    assert b[offset..offset] == [];
  }

  lemma PassingBefore(k: Kind, check: Check, b: seq<byte>, offset: nat, p: nat, n: nat)
    requires Local(k, check) && Sound(k) && k.min <= n && offset + n <= p && Passing(k, check, b, offset + n, p)
    requires n == Get16(Wire, b, offset + k.at) && check(b[offset..]) == 0
    ensures Passing(k, check, b, offset, p)
  {
    hide Tiled, Split, Local, FirstFailure, Get16;
    TileJoin(k, b, offset, p, n);
    var m := FoldStep(k, check, b, offset, p);
  }

  lemma PassingFirst(k: Kind, check: Check, b: seq<byte>, offset: nat, p: nat) returns (n: nat)
    requires Local(k, check) && Sound(k) && offset < p && Passing(k, check, b, offset, p)
    ensures k.min <= n && offset + n <= p && n == Get16(Wire, b, offset + k.at)
    ensures check(b[offset..]) == 0 && Passing(k, check, b, offset + n, p)
  {
    hide Tiled, Split, Local, FirstFailure, Get16;
    n := FoldStep(k, check, b, offset, p);
  }

  /** From offset on the walk accepts. */
  ghost predicate Accepting(k: Kind, head: nat, check: Check, b: seq<byte>, offset: nat, length: nat) {
    Walkable(k, head, check, b, offset, length) && Walk(k, head, check, b, offset, length).code == 0
  }

  lemma AcceptStep(k: Kind, head: nat, check: Check, b: seq<byte>, offset: nat, length: nat) returns (n: nat)
    requires Accepting(k, head, check, b, offset, length) && Guarding(k, head, check) && offset < length
    ensures offset + k.at + 2 <= |b| && n == Get16(Wire, b, offset + k.at) && Sound(k) && k.min <= n
    ensures check(b[offset..]) == 0 && Accepting(k, head, check, b, offset + n, length)
  {
    hide Walkable, Walk;
    WalkTurn(k, head, check, b, offset, length);
    n := Get16(Wire, b, offset + k.at);
    assert check(b[offset..]) == 0 && Get16(Wire, b[offset..], k.at) == n;
  }

  /** Where an accepting walk meets the end or an overrun. */
  lemma {:induction false} WalkPassed(k: Kind, head: nat, check: Check, b: seq<byte>, offset: nat, length: nat)
      returns (p: nat)
    requires Accepting(k, head, check, b, offset, length) && Guarding(k, head, check) && Local(k, check)
    requires offset <= End(b, length)
    ensures offset <= p <= End(b, length) && PassesUpTo(k, check, b, offset, length, p)
    decreases length - offset
  {
    p := offset;
    assert Sound(k);
    hide Accepting, Local, Passing, Guarding, Get16;
    if offset < length {
      var n := AcceptStep(k, head, check, b, offset, length);
      if offset + n <= End(b, length) {
        p := WalkPassed(k, head, check, b, offset + n, length);
        PassingBefore(k, check, b, offset, p, n);
      } else {
        PassingNone(k, check, b, offset);
      }
    } else {
      PassingNone(k, check, b, offset);
    }
  }

  /** Nothing is read beyond b: an element that runs over it is the last. */
  lemma BeyondEnds(k: Kind, head: nat, check: Check, b: seq<byte>, offset: nat, length: nat)
    requires Walkable(k, head, check, b, offset, length) && offset > End(b, length)
    ensures Walk(k, head, check, b, offset, length).code == 0
  {
  }

  lemma {:induction false} PassedWalks(k: Kind, head: nat, check: Check, b: seq<byte>, offset: nat, length: nat, p: nat)
    requires Walkable(k, head, check, b, offset, length) && Local(k, check) && Sound(k)
    requires offset <= p <= End(b, length) && PassesUpTo(k, check, b, offset, length, p)
    ensures Walk(k, head, check, b, offset, length).code == 0
    decreases length - offset
  {
    hide Walkable, Walk, Local, Passing, Get16;
    if offset == length {
      WalkEnd(k, head, check, b, offset, length);
    } else if offset == p {
      WalkTurn(k, head, check, b, offset, length);
      BeyondEnds(k, head, check, b, offset + Get16(Wire, b, offset + k.at), length);
    } else {
      var n := PassingFirst(k, check, b, offset, p);
      WalkTurn(k, head, check, b, offset, length);
      PassedWalks(k, head, check, b, offset + n, length, p);
    }
  }

  /** What a walker accepts: elements that pass, up to the end or up to one more that passes but overruns it. */
  lemma WalkAcceptsWhen(k: Kind, head: nat, check: Check, b: seq<byte>, length: nat)
    requires Walkable(k, head, check, b, 0, length) && Guarding(k, head, check) && Local(k, check)
    ensures Walk(k, head, check, b, 0, length).code == 0 <==>
            exists p :: 0 <= p <= End(b, length) && PassesUpTo(k, check, b, 0, length, p)
  {
    if Walk(k, head, check, b, 0, length).code == 0 {
      var p := WalkPassed(k, head, check, b, 0, length);
    }
    if p: nat :| p <= End(b, length) && PassesUpTo(k, check, b, 0, length, p) {
      PassedWalks(k, head, check, b, 0, length, p);
    }
  }

  // ----- fields

  /** Checks made in order: the first that does not return 0 decides. */
  function First(codes: seq<int>): (code: int)
    ensures code == 0 <==> forall i :: 0 <= i < |codes| ==> codes[i] == 0
    ensures (forall i :: 0 <= i < |codes| ==> codes[i] <= 0) ==> code <= 0
  {
    if codes == [] then 0 else if codes[0] != 0 then codes[0] else First(codes[1..])
  }

  function Fail(bad: bool, code: int): int {
    if bad then code else 0
  }

  function PhyPortNoCode(port: u16): int {
    Fail(port == 0 || 0xff00 < port < 0xfff8, ERROR_INVALID_PORT_NO)
  }

  function VlanVidCode(vid: u16): int {
    Fail(vid != 0xffff && vid / 0x1000 != 0, ERROR_INVALID_VLAN_VID)
  }

  function VlanPcpCode(pcp: byte): int {
    Fail(pcp / 8 != 0, ERROR_INVALID_VLAN_PCP)
  }

  function NwTosCode(tos: byte): int {
    Fail(tos % 4 != 0, ERROR_INVALID_NW_TOS)
  }

  function MatchCode(f: Match): (r: int)
    ensures r <= 0
  {
    First([Fail(f.wildcards / 0x40_0000 != 0, ERROR_INVALID_WILDCARDS), VlanVidCode(f.dlVlan),
           VlanPcpCode(f.dlVlanPcp), NwTosCode(f.nwTos)])
  }

  predicate MatchOk(f: Match) {
    f.wildcards < 0x40_0000 && (f.dlVlan < 4096 || f.dlVlan == 0xffff) && f.dlVlanPcp < 8 && f.nwTos % 4 == 0
  }

  /** The same of the bytes of a match: no undefined wildcard bit, vlan id, vlan priority and tos in range. */
  predicate MatchInRange(o: Order, b: seq<byte>, at: nat)
    requires at + 40 <= |b|
  {
    && Get32(o, b, at) < 0x40_0000 && (Get16(o, b, at + 18) < 0x1000 || Get16(o, b, at + 18) == 0xffff)
    && b[at + 20] < 8 && b[at + 24] % 4 == 0
  }

  lemma MatchInRangeIs(o: Order, b: seq<byte>, at: nat)
    requires at + 40 <= |b|
    ensures MatchOk(DecodeMatch(o, b, at)) <==> MatchInRange(o, b, at)
    ensures MatchOk(DecodeMatch(o, b, at)) ==> (ExactMatch(DecodeMatch(o, b, at)) <==> Get32(o, b, at) == 0)
  {
    hide Get16, Get32;
  }

  lemma MatchAccepted(f: Match)
    ensures MatchCode(f) == 0 <==> MatchOk(f)
  {
    var codes := [Fail(f.wildcards / 0x40_0000 != 0, ERROR_INVALID_WILDCARDS), VlanVidCode(f.dlVlan),
                  VlanPcpCode(f.dlVlanPcp), NwTosCode(f.nwTos)];
    assert MatchCode(f) == First(codes);
    assert codes[0] == 0 <==> f.wildcards < 0x40_0000;
    assert codes[1] == 0 <==> f.dlVlan < 4096 || f.dlVlan == 0xffff;
    assert codes[2] == 0 <==> f.dlVlanPcp < 8;
    assert codes[3] == 0 <==> f.nwTos % 4 == 0;
  }

  /** No wildcard bit is set. */
  predicate ExactMatch(f: Match) {
    f.wildcards % 0x40_0000 == 0
  }

  function PhyPortCode(p: PhyPort): (r: int)
    ensures r <= 0
  {
    First([PhyPortNoCode(p.portNo),
           Fail(p.config / 0x80 != 0, ERROR_INVALID_PORT_CONFIG),
           Fail(p.state / 0x400 != 0 || p.state / 2 % 0x80 != 0, ERROR_INVALID_PORT_STATE),
           Fail(p.curr / 0x1000 != 0 || p.advertised / 0x1000 != 0 || p.supported / 0x1000 != 0 || p.peer / 0x1000 != 0,
                ERROR_INVALID_PORT_FEATURES)])
  }

  /** Only defined bits: seven of configuration, 0x301 of state, twelve of features. */
  predicate PhyPortOk(p: PhyPort) {
    && PortOk(p.portNo) && p.config < 0x80 && p.state < 0x400 && p.state % 0x100 < 2
    && p.curr < 0x1000 && p.advertised < 0x1000 && p.supported < 0x1000 && p.peer < 0x1000
  }

  /** The same of the bytes of a port description. */
  predicate PortInRange(o: Order, b: seq<byte>, at: nat)
    requires at + 48 <= |b|
  {
    && PortOk(Get16(o, b, at)) && Get32(o, b, at + 24) < 0x80
    && Get32(o, b, at + 28) < 0x400 && Get32(o, b, at + 28) % 0x100 < 2
    && Get32(o, b, at + 32) < 0x1000 && Get32(o, b, at + 36) < 0x1000
    && Get32(o, b, at + 40) < 0x1000 && Get32(o, b, at + 44) < 0x1000
  }

  lemma PortInRangeIs(o: Order, b: seq<byte>, at: nat)
    requires at + 48 <= |b|
    ensures PhyPortOk(DecodePhyPort(o, b, at)) <==> PortInRange(o, b, at)
  {
    hide Get16, Get32, PortOk;
  }

  /** Bit 0, or bits 8 and 9, and no other. */
  lemma StateBits(v: u32)
    ensures v / 0x400 == 0 && v / 2 % 0x80 == 0 <==> v < 0x400 && v % 0x100 < 2
  {
    var h, l := v / 0x100, v % 0x100;
    Parity(l);
    MiddleBits(v, h, l / 2, l % 2);
    Below400(v, h, l);
  }

  lemma Parity(l: nat)
    ensures l == 2 * (l / 2) + l % 2 && l % 2 < 2
  {
  }

  /** Bits 1 to 7 of a number. */
  lemma MiddleBits(v: nat, h: nat, m: nat, b: nat)
    requires v == 0x100 * h + (2 * m + b) && m < 0x80 && b < 2
    ensures v / 2 % 0x80 == m
  {
    Halve(v, 0x80 * h + m, b);
    Low7(0x80 * h + m, h, m);
  }

  lemma Halve(v: nat, q: nat, b: nat)
    requires v == 2 * q + b && b < 2
    ensures v / 2 == q
  {
  }

  lemma Low7(q: nat, h: nat, m: nat)
    requires q == 0x80 * h + m && m < 0x80
    ensures q % 0x80 == m
  {
  }

  lemma Below400(v: nat, h: nat, l: nat)
    requires v == 0x100 * h + l && l < 0x100
    ensures v / 0x400 == 0 <==> v < 0x400
    ensures v % 0x100 == l
  {
    Halves(v, h, l);
  }

  lemma PhyPortAccepted(p: PhyPort)
    ensures PhyPortCode(p) == 0 <==> PhyPortOk(p)
  {
    var codes := [PhyPortNoCode(p.portNo), Fail(p.config / 0x80 != 0, ERROR_INVALID_PORT_CONFIG),
                  Fail(p.state / 0x400 != 0 || p.state / 2 % 0x80 != 0, ERROR_INVALID_PORT_STATE),
                  Fail(p.curr / 0x1000 != 0 || p.advertised / 0x1000 != 0 || p.supported / 0x1000 != 0
                       || p.peer / 0x1000 != 0, ERROR_INVALID_PORT_FEATURES)];
    assert PhyPortCode(p) == First(codes);
    assert PhyPortOk(p) <==>
           PortOk(p.portNo) && p.config < 0x80 && (p.state < 0x400 && p.state % 0x100 < 2) &&
           (p.curr < 0x1000 && p.advertised < 0x1000 && p.supported < 0x1000 && p.peer < 0x1000);
    assert codes[0] == 0 <==> PortOk(p.portNo);
    assert codes[1] == 0 <==> p.config < 0x80;
    StateBits(p.state);
    assert codes[2] == 0 <==> p.state < 0x400 && p.state % 0x100 < 2;
    assert codes[3] == 0 <==> p.curr < 0x1000 && p.advertised < 0x1000 && p.supported < 0x1000 && p.peer < 0x1000;
    hide *;
  }

  // ----- actions

  /** The codes of one type lie two apart, too short before too long. */
  function LengthCode(code: u16, len: nat): int {
    if len < Size(ActionStruct(code)) then ERROR_TOO_SHORT_ACTION_OUTPUT + 2 * code
    else if len > Size(ActionStruct(code)) then ERROR_TOO_LONG_ACTION_OUTPUT + 2 * code
    else 0
  }

  /** validate_action and the check of the type it finds; x starts with the action. */
  function ActionCode(x: seq<byte>): (r: int)
    ensures r <= 0
  {
    if |x| < 8 || Get16(Wire, x, 2) < 8 then ERROR_TOO_SHORT_ACTION
    else
      var code, len := Get16(Wire, x, 0), Get16(Wire, x, 2);
      if code == VENDOR then 0
      else if code > ENQUEUE then ERROR_UNDEFINED_ACTION_TYPE
      else if LengthCode(code, len) != 0 then LengthCode(code, len)
      else if code == OUTPUT || code == ENQUEUE then PhyPortNoCode(Get16(Wire, x, 4))
      else if code == SET_VLAN_VID then VlanVidCode(Get16(Wire, x, 4))
      else if code == SET_VLAN_PCP then VlanPcpCode(x[4])
      else if code == SET_NW_TOS then NwTosCode(x[4])
      else 0
  }

  function CheckAction(): Check {
    (x: seq<byte>) => ActionCode(x)
  }

  /** What OpenFlow 1.0.0 asks of the fields of an action. */
  predicate ActionOk(a: Action) {
    match a
    case Output(port, _) => PortOk(port)
    case Enqueue(port, _) => PortOk(port)
    case SetVlanVid(vid) => vid < 4096 || vid == 0xffff
    case SetVlanPcp(pcp) => pcp < 8
    case SetNwTos(tos) => tos % 4 == 0
    case _ => true
  }

  predicate PortOk(port: u16) {
    1 <= port <= 0xff00 || 0xfff8 <= port
  }

  /** An element passes exactly if it decodes to an action of its type's own length
      whose fields are in range. */
  lemma ActionAccepted(x: seq<byte>)
    requires Whole(Wire, ACTIONS, x)
    ensures ActionCode(x) == 0 <==> Exact(Wire, x) && ActionOk(DecodeAction(Wire, x).value)
  {
  }

  lemma ActionLocal()
    ensures Local(ACTIONS, CheckAction()) && Guarding(ACTIONS, 8, CheckAction())
  {
    forall c, rest {:trigger CheckAction()(c + rest)} | ACTIONS.min <= |c|
      ensures ActionCode(c + rest) == ActionCode(c)
    {
    }
  }

  ghost predicate WalkableActions(b: seq<byte>, length: nat) {
    Walkable(ACTIONS, 8, CheckAction(), b, 0, length)
  }

  ghost function ActionsOutcome(b: seq<byte>, length: nat): Outcome
    requires WalkableActions(b, length)
  {
    Walk(ACTIONS, 8, CheckAction(), b, 0, length)
  }

  lemma ActionsToward(b: seq<byte>, length: nat)
    requires WalkableActions(b, length)
    ensures ACTIONS.at == 2 && Toward(ACTIONS, 8, CheckAction(), b, 0, length, ActionsOutcome(b, length))
  {
  }

  lemma CheckActionIs(x: seq<byte>)
    ensures CheckAction()(x) == ActionCode(x)
  {
  }

  /** validate_actions; b starts at the first action and holds all that is readable. */
  method ValidateActions(b: seq<byte>, length: u16) returns (ret: int)
    requires WalkableActions(b, length)
    ensures ret == ActionsOutcome(b, length).code
  {
    hide *;
    var offset: u16 := 0;
    ghost var outcome := ActionsOutcome(b, length);
    ActionsToward(b, length);
    while offset < length
      invariant Toward(ACTIONS, 8, CheckAction(), b, offset, length, outcome)
      decreases length - offset
    {
      TowardNext(ACTIONS, 8, CheckAction(), b, offset, length, outcome, offset + 2);
      CheckActionIs(b[offset..]);
      ret := ActionCode(b[offset..]);
      if ret < 0 {
        return;
      }
      offset := (offset + Get16(Wire, b, offset + 2)) % 0x1_0000;
    }
    TowardEnd(ACTIONS, 8, CheckAction(), b, offset, length, outcome);
    return 0;
  }

  /** For tiled bytes the result is that of the first action that fails, and on success
      the walk ends exactly at the region's end. */
  lemma ActionsFold(b: seq<byte>, length: nat)
    requires length <= |b| && length < 0x1_0000 && Tiled(Wire, ACTIONS, b[..length])
    ensures WalkableActions(b, length)
    ensures ActionsOutcome(b, length).code == FirstFailure(CheckAction(), Split(Wire, ACTIONS, b[..length]))
    ensures ActionsOutcome(b, length).code == 0 ==> ActionsOutcome(b, length).end == length
  {
    ActionLocal();
    assert b[0..length] == b[..length];
    WalkTiled(ACTIONS, 8, CheckAction(), b, 0, length);
  }

  /** One action of its type's own length with its fields in range. */
  predicate WellFormed(c: seq<byte>) {
    Exact(Wire, c) && ActionOk(DecodeAction(Wire, c).value)
  }

  /** The same in bytes, type by type. */
  lemma WellFormedBytes(o: Order, c: seq<byte>)
    ensures Exact(o, c) && ActionOk(DecodeAction(o, c).value) <==>
            && 8 <= |c| && Get16(o, c, 2) == |c|
            && match Get16(o, c, 0)
               case 0 => |c| == 8 && (1 <= Get16(o, c, 4) <= 0xff00 || 0xfff8 <= Get16(o, c, 4))
               case 1 => |c| == 8 && (Get16(o, c, 4) < 0x1000 || Get16(o, c, 4) == 0xffff)
               case 2 => |c| == 8 && c[4] < 8
               case 3 => |c| == 8
               case 4 => |c| == 16
               case 5 => |c| == 16
               case 6 => |c| == 8
               case 7 => |c| == 8
               case 8 => |c| == 8 && c[4] % 4 == 0
               case 9 => |c| == 8
               case 10 => |c| == 8
               case 11 => |c| == 16 && (1 <= Get16(o, c, 4) <= 0xff00 || 0xfff8 <= Get16(o, c, 4))
               case 0xffff => true
               case _ => false
  {
    hide Get16, Get32;
  }

  /** A tiled list of such actions. */
  predicate WellFormedActions(b: seq<byte>) {
    Tiled(Wire, ACTIONS, b) && forall i :: 0 <= i < |Split(Wire, ACTIONS, b)| ==> WellFormed(Split(Wire, ACTIONS, b)[i])
  }

  /** x starts like a well-formed action of more than `room` bytes. */
  ghost predicate BeginsLonger(x: seq<byte>, room: nat) {
    |x| >= 8 && exists c :: WellFormed(c) && |c| > room && c[..8] == x[..8]
  }

  /** Well-formed actions up to p, where the region ends or one starts like a well-formed
      action longer than what is left. */
  ghost predicate AcceptableUpTo(b: seq<byte>, length: nat, p: nat) {
    && p <= End(b, length) && WellFormedActions(b[..p])
    && (p == length || BeginsLonger(b[p..], End(b, length) - p))
  }

  ghost predicate AcceptableActions(b: seq<byte>, length: nat) {
    exists p: nat :: AcceptableUpTo(b, length, p)
  }

  /** The check looks at eight bytes: those that some well-formed action starts with pass. */
  lemma ActionBegins(x: seq<byte>, c: seq<byte>)
    requires |x| >= 8 && WellFormed(c) && c[..8] == x[..8]
    ensures ActionCode(x) == 0 && Get16(Wire, x, 2) == |c|
  {
    ActionAccepted(c);
    ActionPrefix(x, c);
  }

  lemma ActionPrefix(x: seq<byte>, c: seq<byte>)
    requires |x| >= 8 && |c| >= 8 && x[..8] == c[..8]
    ensures ActionCode(x) == ActionCode(c) && Get16(Wire, x, 2) == Get16(Wire, c, 2) &&
            Get16(Wire, x, 0) == Get16(Wire, c, 0)
  {
    assert forall i {:trigger x[i]} :: 0 <= i < 8 ==> x[i] == x[..8][i] && c[i] == c[..8][i];
  }

  lemma BeginsAction(x: seq<byte>) returns (c: seq<byte>)
    requires ActionCode(x) == 0
    ensures |x| >= 8 && WellFormed(c) && c[..8] == x[..8] && |c| == Get16(Wire, x, 2)
  {
    c := x[..8] + seq(Get16(Wire, x, 2) - 8, _ => 0);
    assert c[..8] == x[..8];
    ActionPrefix(x, c);
    hide ActionCode;
    ActionAccepted(c);
  }

  lemma WellFormedPass(b: seq<byte>)
    requires Tiled(Wire, ACTIONS, b)
    ensures FirstFailure(CheckAction(), Split(Wire, ACTIONS, b)) == 0 <==> WellFormedActions(b)
  {
    var cs := Split(Wire, ACTIONS, b);
    forall i | 0 <= i < |cs| ensures CheckAction()(cs[i]) == 0 <==> WellFormed(cs[i]) {
      ActionAccepted(cs[i]);
    }
  }

  lemma OverrunBegins(b: seq<byte>, p: nat, length: nat)
    requires p < length && p <= |b|
    ensures Overruns(ACTIONS, CheckAction(), b, p, length) <==> BeginsLonger(b[p..], End(b, length) - p)
  {
    var x, room := b[p..], End(b, length) - p;
    if Overruns(ACTIONS, CheckAction(), b, p, length) {
      var c := BeginsAction(x);
    }
    if BeginsLonger(x, room) {
      var c :| WellFormed(c) && |c| > room && c[..8] == x[..8];
      ActionBegins(x, c);
    }
  }

  /** Accepted means exactly: well-formed actions up to the end, or up to one more that
      starts like a well-formed action longer than what is left.  Accepted without overrun
      means exactly: a tiled list of well-formed actions. */
  lemma ActionsAccepted(b: seq<byte>, length: nat)
    requires WalkableActions(b, length) && length < 0x1_0000
    ensures ActionsOutcome(b, length).code == 0 <==> AcceptableActions(b, length)
    ensures length <= |b| ==> (ActionsOutcome(b, length) == Outcome(0, length) <==> WellFormedActions(b[..length]))
  {
    ActionLocal();
    WalkAcceptsWhen(ACTIONS, 8, CheckAction(), b, length);
    forall p: nat | p <= End(b, length)
      ensures PassesUpTo(ACTIONS, CheckAction(), b, 0, length, p) <==> AcceptableUpTo(b, length, p)
    {
      ActionsUpTo(b, length, p);
    }
    if length <= |b| {
      WalkAccepts(ACTIONS, 8, CheckAction(), b, length);
      if Tiled(Wire, ACTIONS, b[..length]) {
        WellFormedPass(b[..length]);
      }
    }
  }

  lemma ActionsUpTo(b: seq<byte>, length: nat, p: nat)
    requires p <= End(b, length)
    ensures PassesUpTo(ACTIONS, CheckAction(), b, 0, length, p) <==> AcceptableUpTo(b, length, p)
  {
    assert b[0..p] == b[..p];
    if p < length {
      OverrunBegins(b, p, length);
    }
    if Tiled(Wire, ACTIONS, b[..p]) {
      WellFormedPass(b[..p]);
    }
  }

  /** A last action longer than what is left is accepted all the same: here eight bytes
      are declared to hold a vendor action of sixteen. */
  lemma OverrunAccepted(b: seq<byte>)
    requires b == [0xff, 0xff, 0, 16, 0, 0, 0, 1]
    ensures WalkableActions(b, 8) && ActionsOutcome(b, 8) == Outcome(0, 16) && !Tiled(Wire, ACTIONS, b)
  {
    assert b[0..] == b;
    assert Walkable(ACTIONS, 8, CheckAction(), b, 16, 8);
    WalkStep(ACTIONS, 8, CheckAction(), b, 0, 8, 16);
  }

  /** The same eight bytes pass for a list of sixteen, of which only eight are there. */
  lemma BeyondAccepted(b: seq<byte>)
    requires b == [0xff, 0xff, 0, 16, 0, 0, 0, 1]
    ensures WalkableActions(b, 16) && ActionsOutcome(b, 16) == Outcome(0, 16)
  {
    assert b[0..] == b;
    assert Walkable(ACTIONS, 8, CheckAction(), b, 16, 16);
    WalkStep(ACTIONS, 8, CheckAction(), b, 0, 16, 16);
  }

  // ----- queue properties and packet queues

  /** validate_queue_property; x starts with the property, of which it reads the type and the length. */
  function PropertyCode(x: seq<byte>): (r: int)
    ensures r <= 0
  {
    if |x| < 4 || Get16(Wire, x, 2) < 8 then ERROR_TOO_SHORT_QUEUE_PROPERTY
    else
      var code, len := Get16(Wire, x, 0), Get16(Wire, x, 2);
      if code == NONE then Fail(len > 8, ERROR_TOO_LONG_QUEUE_PROPERTY)
      else if code == MIN_RATE then
        if len < 16 then ERROR_TOO_SHORT_QUEUE_PROPERTY else Fail(len > 16, ERROR_TOO_LONG_QUEUE_PROPERTY)
      else ERROR_UNDEFINED_QUEUE_PROPERTY
  }

  function CheckProperty(): Check {
    (x: seq<byte>) => PropertyCode(x)
  }

  /** NONE is eight bytes long, MIN_RATE sixteen, and there is nothing else. */
  predicate PropertyOk(p: Property) {
    (p.code == NONE && p.len == 8) || (p.code == MIN_RATE && p.len == 16)
  }

  lemma PropertyAccepted(x: seq<byte>)
    requires Whole(Wire, PROPERTIES, x)
    ensures PropertyCode(x) == 0 <==> KnownProperty(Wire, x) && PropertyOk(DecodeProperty(Wire, x).value)
  {
  }

  lemma PropertyLocal()
    ensures Local(PROPERTIES, CheckProperty()) && Guarding(PROPERTIES, 4, CheckProperty())
  {
    forall c, rest {:trigger CheckProperty()(c + rest)} | PROPERTIES.min <= |c|
      ensures PropertyCode(c + rest) == PropertyCode(c)
    {
    }
  }

  ghost predicate WalkableProperties(b: seq<byte>) {
    Walkable(PROPERTIES, 4, CheckProperty(), b, 0, |b|)
  }

  ghost function PropertiesOutcome(b: seq<byte>): Outcome
    requires WalkableProperties(b)
  {
    Walk(PROPERTIES, 4, CheckProperty(), b, 0, |b|)
  }

  lemma PropertiesToward(b: seq<byte>)
    requires WalkableProperties(b)
    ensures PROPERTIES.at == 2 && Toward(PROPERTIES, 4, CheckProperty(), b, 0, |b|, PropertiesOutcome(b))
  {
  }

  lemma CheckPropertyIs(x: seq<byte>)
    ensures CheckProperty()(x) == PropertyCode(x)
  {
  }

  /** validate_queue_properties over the properties b. */
  method ValidateQueueProperties(b: seq<byte>) returns (ret: int)
    requires |b| < 0x1_0000 && WalkableProperties(b)
    ensures ret == PropertiesOutcome(b).code
  {
    hide *;
    var offset: u16 := 0;
    ghost var outcome := PropertiesOutcome(b);
    PropertiesToward(b);
    while offset < |b|
      invariant Toward(PROPERTIES, 4, CheckProperty(), b, offset, |b|, outcome)
      decreases |b| - offset
    {
      TowardNext(PROPERTIES, 4, CheckProperty(), b, offset, |b|, outcome, offset + 2);
      CheckPropertyIs(b[offset..]);
      ret := PropertyCode(b[offset..]);
      if ret < 0 {
        return;
      }
      offset := (offset + Get16(Wire, b, offset + 2)) % 0x1_0000;
    }
    TowardEnd(PROPERTIES, 4, CheckProperty(), b, offset, |b|, outcome);
    return 0;
  }

  /** Properties that tile the region, each of the length its type requires. */
  predicate WellFormedProperties(b: seq<byte>) {
    KnownProperties(Wire, b) &&
    forall i :: 0 <= i < |Split(Wire, PROPERTIES, b)| ==>
             PropertyOk(DecodeProperty(Wire, Split(Wire, PROPERTIES, b)[i]).value)
  }

  /** A header that declares NONE of eight bytes or MIN_RATE of sixteen where fewer are left. */
  predicate DeclaresMore(x: seq<byte>) {
    && 4 <= |x|
    && ((Get16(Wire, x, 0) == NONE && Get16(Wire, x, 2) == 8 > |x|)
        || (Get16(Wire, x, 0) == MIN_RATE && Get16(Wire, x, 2) == 16 > |x|))
  }

  /** Well-formed properties, up to the end or up to a header that declares more than is left. */
  ghost predicate AcceptableProperties(b: seq<byte>) {
    exists p :: 0 <= p <= |b| && WellFormedProperties(b[..p]) && (p == |b| || DeclaresMore(b[p..]))
  }

  lemma WellFormedPropertiesPass(b: seq<byte>)
    requires Tiled(Wire, PROPERTIES, b)
    ensures FirstFailure(CheckProperty(), Split(Wire, PROPERTIES, b)) == 0 <==> WellFormedProperties(b)
  {
    var cs := Split(Wire, PROPERTIES, b);
    forall i | 0 <= i < |cs|
      ensures CheckProperty()(cs[i]) == 0 <==>
                KnownProperty(Wire, cs[i]) && PropertyOk(DecodeProperty(Wire, cs[i]).value)
    {
      PropertyAccepted(cs[i]);
    }
  }

  lemma PropertiesUpTo(b: seq<byte>, p: nat)
    requires p <= |b|
    ensures PassesUpTo(PROPERTIES, CheckProperty(), b, 0, |b|, p) <==>
            WellFormedProperties(b[..p]) && (p == |b| || DeclaresMore(b[p..]))
  {
    assert b[0..p] == b[..p];
    if p < |b| {
      OverrunDeclares(b, p);
    }
    if Tiled(Wire, PROPERTIES, b[..p]) {
      WellFormedPropertiesPass(b[..p]);
    }
  }

  lemma OverrunDeclares(b: seq<byte>, p: nat)
    requires p < |b|
    ensures Overruns(PROPERTIES, CheckProperty(), b, p, |b|) <==> DeclaresMore(b[p..])
  {
    if p + 4 <= |b| {
      assert Get16(Wire, b[p..], 2) == Get16(Wire, b, p + 2);
    }
  }

  /** Accepted means exactly: properties of the lengths required for NONE and MIN_RATE, up to
      the end or up to a header that declares more than is left.  Accepted without overrun
      means exactly: such properties tile the region. */
  lemma PropertiesAccepted(b: seq<byte>)
    requires |b| < 0x1_0000 && WalkableProperties(b)
    ensures PropertiesOutcome(b).code == 0 <==> AcceptableProperties(b)
    ensures PropertiesOutcome(b) == Outcome(0, |b|) <==> WellFormedProperties(b)
  {
    PropertyLocal();
    assert b[..|b|] == b;
    WalkAccepts(PROPERTIES, 4, CheckProperty(), b, |b|);
    WalkAcceptsWhen(PROPERTIES, 4, CheckProperty(), b, |b|);
    forall p | 0 <= p <= |b|
      ensures PassesUpTo(PROPERTIES, CheckProperty(), b, 0, |b|, p) <==>
              WellFormedProperties(b[..p]) && (p == |b| || DeclaresMore(b[p..]))
    {
      PropertiesUpTo(b, p);
    }
    if Tiled(Wire, PROPERTIES, b) {
      WellFormedPropertiesPass(b);
    }
  }

  lemma PropertiesTiled(b: seq<byte>)
    requires |b| < 0x1_0000 && Tiled(Wire, PROPERTIES, b)
    ensures WalkableProperties(b)
    ensures PropertiesOutcome(b).code == FirstFailure(CheckProperty(), Split(Wire, PROPERTIES, b))
  {
    PropertyLocal();
    assert b[0..|b|] == b;
    WalkTiled(PROPERTIES, 4, CheckProperty(), b, 0, |b|);
  }

  /** One property of sixteen bytes is accepted in a queue that has room for eight. */
  lemma PropertyOverrunAccepted(b: seq<byte>)
    requires b == [0, 1, 0, 16, 0, 0, 0, 0]
    ensures WalkableProperties(b) && PropertiesOutcome(b) == Outcome(0, 16) && !Tiled(Wire, PROPERTIES, b)
  {
    assert b[0..] == b;
    assert Walkable(PROPERTIES, 4, CheckProperty(), b, 16, 8);
    WalkStep(PROPERTIES, 4, CheckProperty(), b, 0, 8, 16);
  }

  /** A queue element whose properties can be walked. */
  ghost predicate WalkableQueue(c: seq<byte>) {
    Whole(Wire, QUEUES, c) && (16 <= |c| ==> WalkableProperties(c[8..]))
  }

  /** What validate_packet_queue returns for the element c. */
  ghost function QueueCode(c: seq<byte>): (r: int)
    requires WalkableQueue(c)
  {
    if |c| < 16 then ERROR_TOO_SHORT_QUEUE_DESCRIPTION else PropertiesOutcome(c[8..]).code
  }

  method ValidatePacketQueue(c: seq<byte>) returns (ret: int)
    requires WalkableQueue(c)
    ensures ret == QueueCode(c)
  {
    var len := Get16(Wire, c, 4);
    if len < 16 {
      return ERROR_TOO_SHORT_QUEUE_DESCRIPTION;
    }
    ret := ValidateQueueProperties(c[8..]);
  }

  ghost predicate WalkableQueues(cs: seq<seq<byte>>) {
    forall i :: 0 <= i < |cs| ==> WalkableQueue(cs[i])
  }

  /** The counting loop of validate_queue_get_config_reply over the queues b. */
  method CountQueues(b: seq<byte>) returns (n: nat, rest: nat)
    requires |b| < 0x1_0000 && Tiled(Wire, QUEUES, b)
    ensures var cs := Split(Wire, QUEUES, b);
            if cs != [] && |cs[|cs| - 1]| == 8 then n == |cs| - 1 && rest == 8 else n == |cs| && rest == 0
  {
    var queuesLength: u16, at := |b|, 0;
    n := 0;
    ghost var cs := Split(Wire, QUEUES, b);
    StandingStart(Wire, QUEUES, b);
    assert QUEUES.at == 4;
    hide *;
    while queuesLength > 8
      invariant at + queuesLength == |b| && Standing(Wire, QUEUES, b, at, cs, n)
      invariant n <= |cs| && (n > 0 && queuesLength == 0 ==> |cs[n - 1]| > 8)
      decreases queuesLength
    {
      StandingNext(Wire, QUEUES, b, at, cs, n);
      var len := Get16(Wire, b, at + 4);
      assert |cs[n]| == len;
      queuesLength, at, n := queuesLength - len, at + len, n + 1;
    }
    rest := queuesLength;
    CountDone(b, at, cs, n);
  }

  /** The loop stops at the end of the region or in front of one queue without properties. */
  lemma CountDone(b: seq<byte>, at: nat, cs: seq<seq<byte>>, n: nat)
    requires Standing(Wire, QUEUES, b, at, cs, n) && |b| <= at + 8
    ensures if at == |b| then n == |cs| else |b| - at == 8 && n == |cs| - 1 && |cs[n]| == 8
  {
    StandingEnd(Wire, QUEUES, b, at, cs, n);
    if at < |b| {
      StandingNext(Wire, QUEUES, b, at, cs, n);
      StandingEnd(Wire, QUEUES, b, at + Get16(Wire, b, at + 4), cs, n + 1);
    }
  }
}
