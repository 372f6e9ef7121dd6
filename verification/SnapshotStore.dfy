/** Bounded snapshots and cursors (crates/refyard-host/src/snapshots.rs).

    The locked state is a class whose methods are tied to functions on `SnapshotState`;
    what holds over every run of those functions is proved in SnapshotRuns. */
module SnapshotStore {
  import opened Wrappers
  import opened Numerals

  datatype SnapshotKind = Status | History | Refs | Diff | Worktrees | Submodules | Stashes | Previews

  /** What a read wants recorded. */
  datatype SnapshotRequest = SnapshotRequest(
    kind: SnapshotKind, repositoryId: string, worktreeId: Option<string>, targetGeneration: string,
    tips: seq<string>, headOid: Option<string>, observedRefs: Option<string>, indexKey: Option<string>,
    historyIntent: Option<string>)

  datatype SnapshotRecord = SnapshotRecord(snapshotId: string, createdAtMs: nat, request: SnapshotRequest)

  datatype CursorRecord = CursorRecord(
    snapshotId: string, skip: nat, limit: nat, kind: SnapshotKind, repositoryId: string, worktreeId: Option<string>)

  datatype CursorResult =
    | Resolved(snapshotId: string, skip: nat, limit: nat, kind: SnapshotKind)
    | Malformed
    | Unknown
    | Expired

  datatype SnapshotState = SnapshotState(
    nextSnapshot: nat, nextCursor: nat,
    order: seq<string>, byId: map<string, SnapshotRecord>, cursors: map<string, CursorRecord>)

  const EMPTY := SnapshotState(0, 0, [], map[], map[])

  function SnapshotId(n: nat): string { "snap_" + Base36(n) }
  function CursorId(n: nat): string { "cur_" + Base36(n) }

  /** Ids are never reused. */
  lemma SnapshotIdInjective(a: nat, b: nat)
    ensures SnapshotId(a) == "snap_" + Base36(a)
    ensures SnapshotId(a) == SnapshotId(b) <==> a == b
  {
    NumeralInjective(a, b, ThirtySix);
    if SnapshotId(a) == SnapshotId(b) { assert SnapshotId(a)[5..] == SnapshotId(b)[5..]; }
  }

  lemma CursorIdInjective(a: nat, b: nat)
    ensures CursorId(a) == "cur_" + Base36(a)
    ensures CursorId(a) == CursorId(b) <==> a == b
  {
    NumeralInjective(a, b, ThirtySix);
    if CursorId(a) == CursorId(b) { assert CursorId(a)[4..] == CursorId(b)[4..]; }
  }

  // ---------------------------------------------------------------- eviction

  /** Time since `then`, never negative. */
  function Elapsed(now: nat, then': nat): nat { if now < then' then 0 else now - then' }

  predicate Live(byId: map<string, SnapshotRecord>, id: string, now: nat, ttl: nat) {
    id in byId && Elapsed(now, byId[id].createdAtMs) < ttl
  }

  function Fresh(order: seq<string>, byId: map<string, SnapshotRecord>, now: nat, ttl: nat): seq<string> {
    if order == [] then []
    else (if Live(byId, order[0], now, ttl) then [order[0]] else []) + Fresh(order[1..], byId, now, ttl)
  }

  /** At most the `limit` newest of `order`. */
  function Newest(order: seq<string>, limit: nat): seq<string> {
    if |order| > limit then order[|order| - limit..] else order
  }

  function Kept(order: seq<string>, byId: map<string, SnapshotRecord>, now: nat, ttl: nat, limit: nat): seq<string> {
    Newest(Fresh(order, byId, now, ttl), limit)
  }

  function Restricted(byId: map<string, SnapshotRecord>, ids: seq<string>): map<string, SnapshotRecord> {
    map id | id in byId && id in ids :: byId[id]
  }

  // ---------------------------------------------------------------- operations

  function Recorded(s: SnapshotState, request: SnapshotRequest, now: nat): SnapshotRecord {
    SnapshotRecord(SnapshotId(s.nextSnapshot + 1), now, request)
  }

  function Minted(s: SnapshotState, request: SnapshotRequest, now: nat, ttl: nat, limit: nat): SnapshotState {
    var record := Recorded(s, request, now);
    var order := s.order + [record.snapshotId];
    var byId := s.byId[record.snapshotId := record];
    var kept := Kept(order, byId, now, ttl, limit);
    s.(nextSnapshot := s.nextSnapshot + 1, order := kept, byId := Restricted(byId, kept))
  }

  function Found(s: SnapshotState, id: string): Option<SnapshotRecord> {
    if id in s.byId then Some(s.byId[id]) else None
  }

  function CursorMinted(s: SnapshotState, snapshot: SnapshotRecord, skip: nat, limit: nat): SnapshotState {
    s.(nextCursor := s.nextCursor + 1,
       cursors := s.cursors[CursorId(s.nextCursor + 1) :=
         CursorRecord(snapshot.snapshotId, skip, limit, snapshot.request.kind,
                      snapshot.request.repositoryId, snapshot.request.worktreeId)])
  }

  predicate CursorChar(c: char) { '0' <= c <= '9' || 'a' <= c <= 'z' || 'A' <= c <= 'Z' || c == '_' || c == '-' }

  /** `is_cursor_shape`. */
  predicate IsCursorShape(cursor: string) {
    && "cur_" <= cursor && 4 < |cursor| <= 100
    && forall i :: 4 <= i < |cursor| ==> CursorChar(cursor[i])
  }

  function CursorPlace(s: SnapshotState, cursor: string): Option<(string, Option<string>)> {
    if cursor in s.cursors then Some((s.cursors[cursor].repositoryId, s.cursors[cursor].worktreeId)) else None
  }

  function CursorResolved(s: SnapshotState, cursor: string): CursorResult {
    if !IsCursorShape(cursor) then Malformed
    else if cursor !in s.cursors then Unknown
    else
      var record := s.cursors[cursor];
      if record.snapshotId !in s.byId then Expired
      else Resolved(record.snapshotId, record.skip, record.limit, record.kind)
  }

  /** `cur_`, then one to 96 ASCII letters, digits, underscores and hyphens, by their codes. */
  ghost predicate IsCursorText(cursor: string, rest: string) {
    && cursor == "cur_" + rest && 1 <= |rest| <= 96
    && forall i :: 0 <= i < |rest| ==>
         var code := rest[i] as int;
         48 <= code <= 57 || 65 <= code <= 90 || 97 <= code <= 122 || code == 95 || code == 45
  }

  /** The shape check takes exactly such texts. */
  lemma CursorShapeExactly(cursor: string)
    ensures IsCursorShape(cursor) <==> exists rest :: IsCursorText(cursor, rest)
  {
    if IsCursorShape(cursor) {
      assert IsCursorText(cursor, cursor[4..]);
    }
    if rest :| IsCursorText(cursor, rest) {
      forall i | 4 <= i < |cursor| ensures CursorChar(cursor[i]) {
        assert cursor[i] == rest[i - 4];
      }
    }
  }

  // ---------------------------------------------------------------- facts about eviction

  /** Order and map agree: the order lists exactly the map's keys, each once. */
  ghost predicate Agrees(order: seq<string>, byId: map<string, SnapshotRecord>) {
    && Distinct(order)
    && (forall id :: id in byId <==> id in order)
  }

  /** Every retained snapshot got its id from the counter. */
  ghost predicate OwnIds(byId: map<string, SnapshotRecord>, minted: nat) {
    forall id :: id in byId ==> exists n :: 1 <= n <= minted && id == SnapshotId(n)
  }

  predicate Distinct(order: seq<string>) { forall i, j :: 0 <= i < j < |order| ==> order[i] != order[j] }

  lemma {:induction false} FreshFacts(order: seq<string>, byId: map<string, SnapshotRecord>, now: nat, ttl: nat)
    ensures forall id :: id in Fresh(order, byId, now, ttl) <==> id in order && Live(byId, id, now, ttl)
    ensures Distinct(order) ==> Distinct(Fresh(order, byId, now, ttl))
    decreases |order|
  {
    if order != [] {
      FreshFacts(order[1..], byId, now, ttl);
      assert order == [order[0]] + order[1..];
      if Distinct(order) { assert order[0] !in order[1..]; }
    }
  }

  lemma KeptFacts(order: seq<string>, byId: map<string, SnapshotRecord>, now: nat, ttl: nat, limit: nat)
    ensures |Kept(order, byId, now, ttl, limit)| <= limit
    ensures forall id :: id in Kept(order, byId, now, ttl, limit) ==> id in order && Live(byId, id, now, ttl)
    ensures Distinct(order) ==> Distinct(Kept(order, byId, now, ttl, limit))
  {
    FreshFacts(order, byId, now, ttl);
  }

  lemma NextIdIsFree(byId: map<string, SnapshotRecord>, minted: nat)
    requires OwnIds(byId, minted)
    ensures SnapshotId(minted + 1) !in byId
  {
    hide SnapshotId;
    if SnapshotId(minted + 1) in byId {
      var n :| 1 <= n <= minted && SnapshotId(minted + 1) == SnapshotId(n);
      SnapshotIdInjective(minted + 1, n);
    }
  }

  lemma OneMoreId(byId: map<string, SnapshotRecord>, minted: nat, record: SnapshotRecord)
    requires OwnIds(byId, minted) && record.snapshotId == SnapshotId(minted + 1)
    ensures OwnIds(byId[record.snapshotId := record], minted + 1)
  {
    hide SnapshotId;
  }

  lemma AgreesWithNew(order: seq<string>, byId: map<string, SnapshotRecord>, record: SnapshotRecord)
    requires Agrees(order, byId) && record.snapshotId !in byId
    ensures Agrees(order + [record.snapshotId], byId[record.snapshotId := record])
  {}

  lemma RestrictedOwnIds(byId: map<string, SnapshotRecord>, kept: seq<string>, minted: nat)
    requires OwnIds(byId, minted)
    ensures OwnIds(Restricted(byId, kept), minted)
  {
    hide SnapshotId;
  }

  lemma SpelledId(n: nat)
    ensures SnapshotId(n) == "snap_" + Base36(n)
  {}

  lemma RestrictedToFresh(byId: map<string, SnapshotRecord>, kept: seq<string>, order: seq<string>, now: nat, ttl: nat)
    requires kept == Fresh(order, byId, now, ttl) && Agrees(order, byId)
    ensures Restricted(byId, kept) == map id | id in byId && Live(byId, id, now, ttl) :: byId[id]
  {
    FreshFacts(order, byId, now, ttl);
  }

  lemma RestrictedAgrees(byId: map<string, SnapshotRecord>, order: seq<string>)
    requires Distinct(order) && forall id :: id in order ==> id in byId
    ensures Agrees(order, Restricted(byId, order))
  {}

  lemma RestrictedToTail(byId: map<string, SnapshotRecord>, order: seq<string>)
    requires order != [] && Distinct(order)
    ensures Restricted(byId, order) - {order[0]} == Restricted(byId, order[1..])
    ensures Distinct(order[1..])
  {
    assert order == [order[0]] + order[1..];
    assert order[0] !in order[1..];
  }

  // ---------------------------------------------------------------- the store

  class Store {
    var nextSnapshot: nat
    var nextCursor: nat
    var order: seq<string>
    var byId: map<string, SnapshotRecord>
    var cursors: map<string, CursorRecord>
    const ttlMs: nat
    const maxEntries: nat

    function State(): SnapshotState
      reads this
    {
      SnapshotState(nextSnapshot, nextCursor, order, byId, cursors)
    }

    ghost predicate Valid()
      reads this
    {
      Agrees(order, byId) && OwnIds(byId, nextSnapshot)
    }

    constructor (ttlMs: nat, maxEntries: nat)
      ensures Valid() && State() == EMPTY && this.ttlMs == ttlMs && this.maxEntries == maxEntries
    {
      this.ttlMs, this.maxEntries := ttlMs, maxEntries;
      nextSnapshot, nextCursor, order, byId, cursors := 0, 0, [], map[], map[];
    }

    /** `mint`; the clock is read by the caller. */
    method Mint(request: SnapshotRequest, now: nat) returns (record: SnapshotRecord)
      requires Valid()
      modifies this
      ensures Valid() && record == SnapshotRecord("snap_" + Base36(old(nextSnapshot) + 1), now, request)
      ensures State() == Minted(old(State()), request, now, ttlMs, maxEntries)
      ensures |order| <= maxEntries
    {
      hide Agrees, OwnIds, Kept, Restricted, SnapshotId;
      NextIdIsFree(byId, nextSnapshot);
      nextSnapshot := nextSnapshot + 1;
      record := SnapshotRecord(SnapshotId(nextSnapshot), now, request);
      AgreesWithNew(order, byId, record);
      OneMoreId(byId, nextSnapshot - 1, record);
      order := order + [record.snapshotId];
      byId := byId[record.snapshotId := record];
      ghost var all := byId;
      Evict(now);
      RestrictedOwnIds(all, order, nextSnapshot);
      SpelledId(nextSnapshot);
    }

    /** `evict`: the expired go first, then the oldest until the store is small enough. */
    method Evict(now: nat)
      requires Agrees(order, byId)
      modifies this`order, this`byId
      ensures |order| <= maxEntries && Agrees(order, byId)
      ensures order == Kept(old(order), old(byId), now, ttlMs, maxEntries)
      ensures byId == Restricted(old(byId), order)
    {
      hide Fresh, Live, Restricted;
      ghost var order0, byId0 := order, byId;
      FreshFacts(order0, byId0, now, ttlMs);
      KeptFacts(order0, byId0, now, ttlMs, maxEntries);
      var remaining := Fresh(order, byId, now, ttlMs);
      byId := map id | id in byId && Live(byId, id, now, ttlMs) :: byId[id];
      order := remaining;
      RestrictedToFresh(byId0, order, order0, now, ttlMs);
      while |order| > maxEntries
        invariant Newest(order, maxEntries) == Newest(remaining, maxEntries)
        invariant Distinct(order)
        invariant byId == Restricted(byId0, order)
      {
        var oldest := order[0];
        RestrictedToTail(byId0, order);
        order := order[1..];
        byId := byId - {oldest};
      }
      RestrictedAgrees(byId0, order);
    }

    /** `get`; what it finds after a run is SnapshotRuns.GetAnswersExactly. */
    method Get(snapshotId: string) returns (record: Option<SnapshotRecord>)
      requires Valid()
      ensures record == Found(State(), snapshotId)
      ensures record.Some? <==> snapshotId in order
    {
      if snapshotId in byId { return Some(byId[snapshotId]); }
      return None;
    }

    /** `mint_cursor`. */
    method MintCursor(snapshot: SnapshotRecord, skip: nat, limit: nat) returns (cursor: string)
      modifies this`nextCursor, this`cursors
      ensures cursor == CursorId(old(nextCursor) + 1)
      ensures State() == CursorMinted(old(State()), snapshot, skip, limit)
    {
      nextCursor := nextCursor + 1;
      cursor := CursorId(nextCursor);
      cursors := cursors[cursor := CursorRecord(snapshot.snapshotId, skip, limit, snapshot.request.kind,
                                                snapshot.request.repositoryId, snapshot.request.worktreeId)];
    }

    /** `cursor_repository`: the place a continuation must be asked for in. */
    method CursorRepository(cursor: string) returns (place: Option<(string, Option<string>)>)
      ensures place == CursorPlace(State(), cursor)
    {
      if cursor !in cursors { return None; }
      return Some((cursors[cursor].repositoryId, cursors[cursor].worktreeId));
    }

    /** `resolve_cursor`. */
    method ResolveCursor(cursor: string) returns (result: CursorResult)
      ensures result == CursorResolved(State(), cursor)
    {
      if !IsCursorShape(cursor) { return Malformed; }
      if cursor !in cursors { return Unknown; }
      var record := cursors[cursor];
      if record.snapshotId !in byId { return Expired; }
      return Resolved(record.snapshotId, record.skip, record.limit, record.kind);
    }
  }
}
