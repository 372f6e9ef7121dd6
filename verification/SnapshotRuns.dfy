/** The snapshot store over every run: what is retained, and the life of a cursor. */
module SnapshotRuns {
  import opened Wrappers
  import opened Numerals
  import opened SnapshotStore

  /** The ids minted after the first `from`, oldest first. */
  function Ids(from: nat, to: nat): (ids: seq<string>)
    requires from <= to
    ensures |ids| == to - from && forall i :: 0 <= i < |ids| ==> ids[i] == SnapshotId(from + 1 + i)
  {
    if from == to then [] else Ids(from, to - 1) + [SnapshotId(to)]
  }

  /** The records of the snapshots minted after `from`: under their own ids, made no later
      than `now`, and in minting order. */
  ghost predicate Chronicle(byId: map<string, SnapshotRecord>, from: nat, to: nat, now: nat) {
    && (forall n :: from < n <= to ==> SnapshotId(n) in byId)
    && (forall n :: from < n <= to ==> byId[SnapshotId(n)].snapshotId == SnapshotId(n) && byId[SnapshotId(n)].createdAtMs <= now)
    && (forall m, n :: from < m <= n <= to ==> byId[SnapshotId(m)].createdAtMs <= byId[SnapshotId(n)].createdAtMs)
  }

  /** The state after some run: exactly the snapshots minted after the first `from` are
      retained, listed in minting order. */
  ghost predicate Retains(s: SnapshotState, from: nat, now: nat) {
    && from <= s.nextSnapshot && s.order == Ids(from, s.nextSnapshot)
    && (forall id :: id in s.byId <==> id in s.order)
    && Chronicle(s.byId, from, s.nextSnapshot, now)
  }

  // ---------------------------------------------------------------- minting

  lemma {:induction false} IdsDrop(from: nat, k: nat, to: nat)
    requires from <= k <= to
    ensures Ids(from, to)[k - from..] == Ids(k, to)
  {
    assert Ids(from, to)[k - from..] == Ids(k, to);
  }

  /** Under a clock that does not go back, what the time limit leaves is a suffix. */
  lemma {:induction false} FreshIsSuffix(from: nat, to: nat, byId: map<string, SnapshotRecord>, now: nat, ttl: nat)
    returns (k: nat)
    requires from <= to
    requires Chronicle(byId, from, to, now)
    ensures from <= k <= to && Fresh(Ids(from, to), byId, now, ttl) == Ids(k, to)
    decreases |Ids(from, to)|
  {
    hide SnapshotId;
    if from == to { return from; }
    IdsDrop(from, from + 1, to);
    assert Ids(from, to)[1..] == Ids(from + 1, to);
    if Live(byId, SnapshotId(from + 1), now, ttl) {
      k := from;
      AllLive(Ids(from, to), from, to, byId, now, ttl);
    } else {
      k := FreshIsSuffix(from + 1, to, byId, now, ttl);
    }
  }

  lemma AllLive(ids: seq<string>, from: nat, to: nat, byId: map<string, SnapshotRecord>, now: nat, ttl: nat)
    requires from < to && ids == Ids(from, to)
    requires Chronicle(byId, from, to, now)
    requires Live(byId, SnapshotId(from + 1), now, ttl)
    ensures Fresh(ids, byId, now, ttl) == ids
  {
    hide SnapshotId;
    forall i | 0 <= i < |ids| ensures Live(byId, ids[i], now, ttl) {
      assert byId[SnapshotId(from + 1)].createdAtMs <= byId[SnapshotId(from + 1 + i)].createdAtMs;
    }
    FreshKeepsAll(ids, byId, now, ttl);
  }

  lemma {:induction false} FreshKeepsAll(ids: seq<string>, byId: map<string, SnapshotRecord>, now: nat, ttl: nat)
    requires forall i :: 0 <= i < |ids| ==> Live(byId, ids[i], now, ttl)
    ensures Fresh(ids, byId, now, ttl) == ids
    decreases |ids|
  {
    if ids != [] { FreshKeepsAll(ids[1..], byId, now, ttl); }
  }

  lemma ChronicleGrows(byId: map<string, SnapshotRecord>, from: nat, to: nat, before: nat, record: SnapshotRecord)
    requires from <= to && Chronicle(byId, from, to, before) && before <= record.createdAtMs
    requires record.snapshotId == SnapshotId(to + 1)
    ensures Chronicle(byId[record.snapshotId := record], from, to + 1, record.createdAtMs)
  {
    hide SnapshotId;
    forall n ensures SnapshotId(n) == SnapshotId(to + 1) <==> n == to + 1 { SnapshotIdInjective(n, to + 1); }
  }

  lemma ChronicleRestricted(byId: map<string, SnapshotRecord>, from: nat, k: nat, to: nat, now: nat)
    requires from <= k <= to && Chronicle(byId, from, to, now)
    ensures Chronicle(Restricted(byId, Ids(k, to)), k, to, now)
    ensures forall id :: id in Restricted(byId, Ids(k, to)) <==> id in Ids(k, to)
  {
    hide SnapshotId;
    forall n | k < n <= to ensures SnapshotId(n) in Ids(k, to) {
      assert Ids(k, to)[n - k - 1] == SnapshotId(n);
    }
  }

  /** Under a clock that does not go back, a mint keeps a suffix of everything minted, and no
      more than the store may hold. */
  lemma MintRetains(s: SnapshotState, from: nat, before: nat, request: SnapshotRequest, now: nat, ttl: nat, limit: nat)
    returns (first: nat, k: nat)
    requires Retains(s, from, before) && before <= now
    ensures from <= k && Retains(Minted(s, request, now, ttl, limit), k, now)
    ensures |Minted(s, request, now, ttl, limit).order| <= limit
    ensures var to := s.nextSnapshot + 1;
            && from <= first <= to && k == (if to - first > limit then to - limit else first)
            && Fresh(Ids(from, to), s.byId[SnapshotId(to) := Recorded(s, request, now)], now, ttl) == Ids(first, to)
  {
    hide SnapshotId, Chronicle, Fresh, Restricted;
    var to := s.nextSnapshot + 1;
    var record := Recorded(s, request, now);
    var byId := s.byId[record.snapshotId := record];
    ChronicleGrows(s.byId, from, s.nextSnapshot, before, record);
    assert s.order + [record.snapshotId] == Ids(from, to);
    first := FreshIsSuffix(from, to, byId, now, ttl);
    k := if to - first > limit then to - limit else first;
    IdsDrop(first, k, to);
    assert Kept(Ids(from, to), byId, now, ttl, limit) == Ids(k, to);
    ChronicleRestricted(byId, from, k, to, now);
  }

  lemma FreshNumbers(from: nat, first: nat, to: nat, byId: map<string, SnapshotRecord>, now: nat, ttl: nat, n: nat)
    requires from <= first <= to && from < n <= to
    requires Fresh(Ids(from, to), byId, now, ttl) == Ids(first, to)
    ensures n > first <==> Live(byId, SnapshotId(n), now, ttl)
  {
    hide SnapshotId, Fresh, Live;
    FreshFacts(Ids(from, to), byId, now, ttl);
    InIds(from, to, n);
    InIds(first, to, n);
  }

  lemma InIds(from: nat, to: nat, n: nat)
    requires from <= to && 1 <= n <= to
    ensures SnapshotId(n) in Ids(from, to) <==> from < n
  {
    hide SnapshotId;
    var ids := Ids(from, to);
    if from < n { assert ids[n - from - 1] == SnapshotId(n); }
    if SnapshotId(n) in ids {
      var i :| 0 <= i < |ids| && ids[i] == SnapshotId(n);
      SnapshotIdInjective(from + 1 + i, n);
    }
  }

  lemma MintAddsOnlyTheNewId(s: SnapshotState, request: SnapshotRequest, now: nat, ttl: nat, limit: nat)
    ensures forall id :: id in Minted(s, request, now, ttl, limit).byId ==> id in s.byId || id == SnapshotId(s.nextSnapshot + 1)
  {
    hide SnapshotId, Kept;
  }

  // ---------------------------------------------------------------- runs, under any clock

  /** The clock is the wall clock, which may step back; a cursor may be minted for any record. */
  datatype Op =
    | Mint(request: SnapshotRequest, now: nat)
    | MintCursor(snapshot: SnapshotRecord, skip: nat, limit: nat)

  datatype Limits = Limits(ttlMs: nat, maxEntries: nat)

  function Step(s: SnapshotState, op: Op, limits: Limits): SnapshotState {
    match op
    case Mint(wanted, now) => Minted(s, wanted, now, limits.ttlMs, limits.maxEntries)
    case MintCursor(snapshot, skip, limit) => CursorMinted(s, snapshot, skip, limit)
  }

  function After(s: SnapshotState, ops: seq<Op>, limits: Limits): SnapshotState
    decreases |ops|
  {
    if ops == [] then s else After(Step(s, ops[0], limits), ops[1..], limits)
  }

  /** Cursors are keyed by the counter. */
  ghost predicate CursorKeys(s: SnapshotState) {
    && (forall k :: 1 <= k <= s.nextCursor ==> CursorId(k) in s.cursors)
    && (forall c :: c in s.cursors ==> exists k :: 1 <= k <= s.nextCursor && c == CursorId(k))
  }

  /** Order and map agree, ids come from the counters. */
  ghost predicate Consistent(s: SnapshotState) {
    Agrees(s.order, s.byId) && OwnIds(s.byId, s.nextSnapshot) && CursorKeys(s)
  }

  lemma MintStaysConsistent(s: SnapshotState, request: SnapshotRequest, now: nat, ttl: nat, limit: nat)
    requires Agrees(s.order, s.byId) && OwnIds(s.byId, s.nextSnapshot)
    ensures var t := Minted(s, request, now, ttl, limit);
            Agrees(t.order, t.byId) && OwnIds(t.byId, t.nextSnapshot) && |t.order| <= limit
  {
    hide SnapshotId, Kept, Live;
    var record := Recorded(s, request, now);
    var order, byId := s.order + [record.snapshotId], s.byId[record.snapshotId := record];
    NextIdIsFree(s.byId, s.nextSnapshot);
    OneMoreId(s.byId, s.nextSnapshot, record);
    KeptFacts(order, byId, now, ttl, limit);
    RestrictedAgrees(byId, Kept(order, byId, now, ttl, limit));
  }

  lemma CursorMintKeepsKeys(s: SnapshotState, snapshot: SnapshotRecord, skip: nat, limit: nat)
    requires CursorKeys(s)
    ensures CursorKeys(CursorMinted(s, snapshot, skip, limit))
  {
    hide CursorId;
    var t := CursorMinted(s, snapshot, skip, limit);
    forall c | c in t.cursors ensures exists k :: 1 <= k <= t.nextCursor && c == CursorId(k) {
      if c in s.cursors { var k :| 1 <= k <= s.nextCursor && c == CursorId(k); }
    }
  }

  /** Every operation keeps order and map in agreement, within the maximum after a mint. */
  lemma StepStaysConsistent(s: SnapshotState, op: Op, limits: Limits)
    requires Consistent(s)
    ensures Consistent(Step(s, op, limits))
    ensures op.Mint? ==> |Step(s, op, limits).order| <= limits.maxEntries
  {
    hide Agrees, OwnIds, CursorId, SnapshotId, Kept;
    match op
    case Mint(wanted, now) => MintStaysConsistent(s, wanted, now, limits.ttlMs, limits.maxEntries);
    case MintCursor(snapshot, skip, limit) => CursorMintKeepsKeys(s, snapshot, skip, limit);
  }

  lemma StartIsConsistent()
    ensures Consistent(EMPTY)
  {}

  lemma {:induction false} RunsStayConsistent(s: SnapshotState, ops: seq<Op>, limits: Limits)
    requires Consistent(s)
    ensures Consistent(After(s, ops, limits))
    ensures |s.order| <= limits.maxEntries ==> |After(s, ops, limits).order| <= limits.maxEntries
    decreases |ops|
  {
    hide Consistent, Minted;
    if ops != [] {
      StepStaysConsistent(s, ops[0], limits);
      RunsStayConsistent(Step(s, ops[0], limits), ops[1..], limits);
    }
  }

  /** Whatever is minted, and whatever the clock does, the order lists exactly the map's keys,
      each once, and no more than the maximum. */
  lemma StoreStaysConsistent(ops: seq<Op>, limits: Limits)
    ensures Consistent(After(EMPTY, ops, limits))
    ensures |After(EMPTY, ops, limits).order| <= limits.maxEntries
  {
    StartIsConsistent();
    RunsStayConsistent(EMPTY, ops, limits);
  }

  // ---------------------------------------------------------------- what get answers

  /** The records a run's mints answer with, in order. */
  function Log(s: SnapshotState, ops: seq<Op>, limits: Limits): seq<SnapshotRecord>
    decreases |ops|
  {
    if ops == [] then []
    else (if ops[0].Mint? then [Recorded(s, ops[0].request, ops[0].now)] else []) + Log(Step(s, ops[0], limits), ops[1..], limits)
  }

  /** Everything retained is what the mint of its number answered with. */
  ghost predicate Remembers(s: SnapshotState, log: seq<SnapshotRecord>) {
    && |log| == s.nextSnapshot
    && (forall n :: 1 <= n <= |log| ==> log[n - 1].snapshotId == SnapshotId(n))
    && (forall id :: id in s.byId ==> exists n :: 1 <= n <= |log| && id == SnapshotId(n))
    && (forall n :: 1 <= n <= |log| && SnapshotId(n) in s.byId ==> s.byId[SnapshotId(n)] == log[n - 1])
  }

  lemma MintRemembers(s: SnapshotState, log: seq<SnapshotRecord>, request: SnapshotRequest, now: nat, ttl: nat, limit: nat)
    requires Remembers(s, log)
    ensures Remembers(Minted(s, request, now, ttl, limit), log + [Recorded(s, request, now)])
  {
    hide SnapshotId, Kept;
    var t, more := Minted(s, request, now, ttl, limit), log + [Recorded(s, request, now)];
    forall n ensures SnapshotId(n) == SnapshotId(t.nextSnapshot) <==> n == t.nextSnapshot { SnapshotIdInjective(n, t.nextSnapshot); }
    forall id | id in t.byId ensures exists n :: 1 <= n <= |more| && id == SnapshotId(n) {
      if id in s.byId { var n :| 1 <= n <= |log| && id == SnapshotId(n); } else { assert 1 <= t.nextSnapshot <= |more|; }
    }
  }

  lemma {:induction false} RunsRemember(s: SnapshotState, log: seq<SnapshotRecord>, ops: seq<Op>, limits: Limits)
    requires Remembers(s, log)
    ensures Remembers(After(s, ops, limits), log + Log(s, ops, limits))
    decreases |ops|
  {
    hide Minted, Recorded, SnapshotId;
    if ops == [] {
      assert log + [] == log;
    } else {
      var t := Step(s, ops[0], limits);
      if ops[0].Mint? {
        var record := Recorded(s, ops[0].request, ops[0].now);
        MintRemembers(s, log, ops[0].request, ops[0].now, limits.ttlMs, limits.maxEntries);
        RunsRemember(t, log + [record], ops[1..], limits);
        assert log + ([record] + Log(t, ops[1..], limits)) == (log + [record]) + Log(t, ops[1..], limits);
      } else {
        RunsRemember(t, log, ops[1..], limits);
        assert [] + Log(t, ops[1..], limits) == Log(t, ops[1..], limits);
      }
    }
  }

  /** The mints of a run, in order. */
  function MintsOf(ops: seq<Op>): (mints: seq<Op>)
    ensures forall i :: 0 <= i < |mints| ==> mints[i].Mint?
    decreases |ops|
  {
    if ops == [] then [] else (if ops[0].Mint? then [ops[0]] else []) + MintsOf(ops[1..])
  }

  /** The snapshot a mint asks for, under its number: everything but the id is the caller's. */
  function Asked(mint: Op, n: nat): SnapshotRecord
    requires mint.Mint?
  {
    SnapshotRecord("snap_" + Base36(n), mint.now, mint.request)
  }

  lemma {:induction false} LogIsTheMints(s: SnapshotState, ops: seq<Op>, limits: Limits)
    ensures var log, mints := Log(s, ops, limits), MintsOf(ops);
            |log| == |mints| && forall i :: 0 <= i < |log| ==> log[i] == Asked(mints[i], s.nextSnapshot + 1 + i)
    decreases |ops|
  {
    hide Minted, CursorMinted;
    if ops != [] {
      var t := Step(s, ops[0], limits);
      LogIsTheMints(t, ops[1..], limits);
      if ops[0].Mint? {
        MintCounts(s, ops[0].request, ops[0].now, limits.ttlMs, limits.maxEntries);
      } else {
        CursorMintCounts(s, ops[0].snapshot, ops[0].skip, ops[0].limit);
      }
    }
  }

  lemma CursorMintCounts(s: SnapshotState, snapshot: SnapshotRecord, skip: nat, limit: nat)
    ensures CursorMinted(s, snapshot, skip, limit).nextSnapshot == s.nextSnapshot
  {}

  /** Under any clock, `get` answers nothing but what a mint of this run asked for, field by
      field, under the id of that mint's number. */
  lemma GetAnswersOnlyTheMinted(ops: seq<Op>, limits: Limits, id: string)
    ensures var mints, found := MintsOf(ops), Found(After(EMPTY, ops, limits), id);
            found.Some? ==> exists n :: 1 <= n <= |mints| && id == "snap_" + Base36(n) && found.value == Asked(mints[n - 1], n)
  {
    hide Base36;
    RunsRemember(EMPTY, [], ops, limits);
    assert [] + Log(EMPTY, ops, limits) == Log(EMPTY, ops, limits);
    LogIsTheMints(EMPTY, ops, limits);
    var log, mints, s := Log(EMPTY, ops, limits), MintsOf(ops), After(EMPTY, ops, limits);
    if id in s.byId {
      var n :| 1 <= n <= |log| && id == SnapshotId(n);
      assert s.byId[id] == log[n - 1] == Asked(mints[n - 1], n);
    }
  }

  /** What the `n`th mint asked for is what `get` answers under its id, while it answers. */
  lemma GetAnswersAsAsked(ops: seq<Op>, limits: Limits, n: nat)
    requires 1 <= n <= |MintsOf(ops)|
    ensures var found, mint := Found(After(EMPTY, ops, limits), "snap_" + Base36(n)), MintsOf(ops)[n - 1];
            found.Some? ==> found.value == SnapshotRecord("snap_" + Base36(n), mint.now, mint.request)
  {
    GetAnswersOnlyTheMinted(ops, limits, "snap_" + Base36(n));
    hide Base36, MintsOf, After;
    forall m ensures "snap_" + Base36(m) == "snap_" + Base36(n) <==> m == n { SnapshotIdInjective(m, n); }
  }

  // ---------------------------------------------------------------- a clock that does not go back

  function Clock(clock: nat, op: Op): nat { if op.Mint? then op.now else clock }

  function ClockAfter(clock: nat, ops: seq<Op>): nat
    decreases |ops|
  {
    if ops == [] then clock else ClockAfter(Clock(clock, ops[0]), ops[1..])
  }

  ghost predicate NeverBack(clock: nat, ops: seq<Op>)
    decreases |ops|
  {
    ops == [] || (clock <= Clock(clock, ops[0]) && NeverBack(Clock(clock, ops[0]), ops[1..]))
  }

  /** Exactly the unexpired among the newest are retained, by the time of the last mint. */
  ghost predicate RetainsExactly(s: SnapshotState, log: seq<SnapshotRecord>, clock: nat, limits: Limits) {
    forall n :: 1 <= n <= |log| ==>
      (SnapshotId(n) in s.byId <==> |log| - n < limits.maxEntries && Elapsed(clock, log[n - 1].createdAtMs) < limits.ttlMs)
  }

  ghost predicate Sound(s: SnapshotState, log: seq<SnapshotRecord>, clock: nat, limits: Limits) {
    && (exists from :: Retains(s, from, clock)) && Remembers(s, log) && RetainsExactly(s, log, clock, limits)
    && (forall i :: 0 <= i < |log| ==> log[i].createdAtMs <= clock)
  }

  lemma EmptyIsSound(limits: Limits)
    ensures Sound(EMPTY, [], 0, limits)
  {
    assert Retains(EMPTY, 0, 0);
  }

  lemma MintStaysSound(s: SnapshotState, log: seq<SnapshotRecord>, clock: nat, request: SnapshotRequest, now: nat, limits: Limits)
    requires Sound(s, log, clock, limits) && clock <= now
    ensures Sound(Minted(s, request, now, limits.ttlMs, limits.maxEntries), log + [Recorded(s, request, now)], now, limits)
  {
    hide Chronicle, Minted, Ids, SnapshotId, RetainsExactly;
    var from :| Retains(s, from, clock);
    var record := Recorded(s, request, now);
    var first, k := MintRetains(s, from, clock, request, now, limits.ttlMs, limits.maxEntries);
    MintRemembers(s, log, request, now, limits.ttlMs, limits.maxEntries);
    MintRetainsExactly(s, log, from, first, k, clock, request, now, limits);
  }

  lemma MintRetainsExactly(s: SnapshotState, log: seq<SnapshotRecord>, from: nat, first: nat, k: nat, clock: nat,
                           request: SnapshotRequest, now: nat, limits: Limits)
    requires Retains(s, from, clock) && Remembers(s, log) && RetainsExactly(s, log, clock, limits) && clock <= now
    requires Retains(Minted(s, request, now, limits.ttlMs, limits.maxEntries), k, now)
    requires var to := s.nextSnapshot + 1;
             && from <= first <= to && k == (if to - first > limits.maxEntries then to - limits.maxEntries else first)
             && Fresh(Ids(from, to), s.byId[SnapshotId(to) := Recorded(s, request, now)], now, limits.ttlMs) == Ids(first, to)
    ensures RetainsExactly(Minted(s, request, now, limits.ttlMs, limits.maxEntries), log + [Recorded(s, request, now)], now, limits)
  {
    hide Retains, SnapshotId, Minted, Recorded, Fresh, Remembers, Elapsed;
    var t, record := Minted(s, request, now, limits.ttlMs, limits.maxEntries), Recorded(s, request, now);
    var to, more := s.nextSnapshot + 1, log + [record];
    assert |more| == to && from < to by { LogCounts(s, log, from, clock); }
    forall n | 1 <= n <= to
      ensures SnapshotId(n) in t.byId <==> to - n < limits.maxEntries && Elapsed(now, more[n - 1].createdAtMs) < limits.ttlMs
    {
      MintCounts(s, request, now, limits.ttlMs, limits.maxEntries);
      RetainedNumbers(t, k, now, n);
      if from < n {
        FreshNumbers(from, first, to, s.byId[SnapshotId(to) := record], now, limits.ttlMs, n);
        NumberIsLive(s, log, from, clock, record, now, limits.ttlMs, n);
      } else {
        RetainedNumbers(s, from, clock, n);
        Older(clock, now, log[n - 1].createdAtMs);
      }
    }
  }

  lemma LogCounts(s: SnapshotState, log: seq<SnapshotRecord>, from: nat, clock: nat)
    requires Remembers(s, log) && Retains(s, from, clock)
    ensures from <= |log| == s.nextSnapshot
  {}

  lemma Older(before: nat, now: nat, created: nat)
    requires before <= now
    ensures Elapsed(before, created) <= Elapsed(now, created)
  {}

  lemma RetainedNumbers(s: SnapshotState, from: nat, clock: nat, n: nat)
    requires Retains(s, from, clock) && 1 <= n <= s.nextSnapshot
    ensures SnapshotId(n) in s.byId <==> from < n
  {
    hide SnapshotId, Chronicle;
    InIds(from, s.nextSnapshot, n);
  }

  lemma NumberIsLive(s: SnapshotState, log: seq<SnapshotRecord>, from: nat, clock: nat, record: SnapshotRecord,
                     now: nat, ttl: nat, n: nat)
    requires Retains(s, from, clock) && Remembers(s, log) && from < n <= s.nextSnapshot + 1
    ensures Live(s.byId[SnapshotId(s.nextSnapshot + 1) := record], SnapshotId(n), now, ttl)
            <==> Elapsed(now, (log + [record])[n - 1].createdAtMs) < ttl
  {
    hide SnapshotId, Chronicle, Elapsed;
    SnapshotIdInjective(n, s.nextSnapshot + 1);
    if n <= s.nextSnapshot { RetainedNumbers(s, from, clock, n); }
  }

  lemma {:induction false} RunsStaySound(s: SnapshotState, log: seq<SnapshotRecord>, clock: nat, ops: seq<Op>, limits: Limits)
    requires Sound(s, log, clock, limits) && NeverBack(clock, ops)
    ensures Sound(After(s, ops, limits), log + Log(s, ops, limits), ClockAfter(clock, ops), limits)
    decreases |ops|
  {
    hide Minted, Recorded, Sound;
    if ops == [] {
      assert log + [] == log;
    } else {
      var t := Step(s, ops[0], limits);
      match ops[0] {
        case Mint(wanted, now) =>
          var record := Recorded(s, wanted, now);
          MintStaysSound(s, log, clock, wanted, now, limits);
          RunsStaySound(t, log + [record], now, ops[1..], limits);
          assert log + ([record] + Log(t, ops[1..], limits)) == (log + [record]) + Log(t, ops[1..], limits);
        case MintCursor(snapshot, skip, limit) =>
          CursorMintStaysSound(s, log, clock, snapshot, skip, limit, limits);
          RunsStaySound(t, log, clock, ops[1..], limits);
          assert [] + Log(t, ops[1..], limits) == Log(t, ops[1..], limits);
      }
    }
  }

  lemma CursorMintStaysSound(s: SnapshotState, log: seq<SnapshotRecord>, clock: nat, snapshot: SnapshotRecord,
                             skip: nat, limit: nat, limits: Limits)
    requires Sound(s, log, clock, limits)
    ensures Sound(CursorMinted(s, snapshot, skip, limit), log, clock, limits)
  {
    hide Chronicle, Ids;
    var from :| Retains(s, from, clock);
    assert Retains(CursorMinted(s, snapshot, skip, limit), from, clock);
  }

  /** Under a clock that does not go back, `get` answers exactly the snapshots among the
      newest `maxEntries` that had not expired at the last mint, each as its mint asked for
      it; and they are a suffix of all that was minted. */
  lemma GetAnswersExactly(ops: seq<Op>, limits: Limits, n: nat)
    requires NeverBack(0, ops)
    ensures var mints, s, now := MintsOf(ops), After(EMPTY, ops, limits), ClockAfter(0, ops);
            && (exists from :: Retains(s, from, now))
            && (1 <= n <= |mints| ==>
                  Found(s, "snap_" + Base36(n))
                  == if |mints| - n < limits.maxEntries && now < mints[n - 1].now + limits.ttlMs
                     then Some(Asked(mints[n - 1], n)) else None)
  {
    hide Base36, Retains, Minted, NeverBack, ClockAfter, After, Log, MintsOf, Sound, Found;
    EmptyIsSound(limits);
    RunsStaySound(EMPTY, [], 0, ops, limits);
    assert [] + Log(EMPTY, ops, limits) == Log(EMPTY, ops, limits);
    LogIsTheMints(EMPTY, ops, limits);
    var s, log, now := After(EMPTY, ops, limits), Log(EMPTY, ops, limits), ClockAfter(0, ops);
    assert exists from :: Retains(s, from, now) by { SoundRetains(s, log, now, limits); }
    if 1 <= n <= |log| { SoundAnswers(s, log, now, limits, n); }
  }

  lemma SoundRetains(s: SnapshotState, log: seq<SnapshotRecord>, clock: nat, limits: Limits)
    requires Sound(s, log, clock, limits)
    ensures exists from :: Retains(s, from, clock)
  {}

  lemma SoundAnswers(s: SnapshotState, log: seq<SnapshotRecord>, clock: nat, limits: Limits, n: nat)
    requires Sound(s, log, clock, limits) && 1 <= n <= |log|
    ensures Found(s, SnapshotId(n))
            == if |log| - n < limits.maxEntries && clock < log[n - 1].createdAtMs + limits.ttlMs then Some(log[n - 1]) else None
  {
    hide SnapshotId, Retains;
    assert log[n - 1].createdAtMs <= clock;
  }

  // ---------------------------------------------------------------- the life of a cursor

  const LAST_WORD := 0xFFFF_FFFF_FFFF_FFFF

  /** Cursors this store mints have the shape it accepts: a 64-bit counter is short. */
  lemma OwnCursorShape(k: nat)
    requires k <= LAST_WORD
    ensures IsCursorShape(CursorId(k))
  {
    Base36OfWord(k);
    var cursor := CursorId(k);
    assert cursor[..4] == "cur_";
    assert IsCursorShape(cursor) by {
      forall i | 4 <= i < |cursor| ensures CursorChar(cursor[i]) {
        assert cursor[i] == Base36(k)[i - 4] && IsDigit(cursor[i]);
      }
    }
  }

  /** What a cursor of this store's own is answered with. */
  lemma OwnCursorsResolve(s: SnapshotState, k: nat)
    requires CursorKeys(s) && k <= LAST_WORD
    ensures !CursorResolved(s, CursorId(k)).Malformed?
    ensures CursorResolved(s, CursorId(k)).Unknown? <==> !(1 <= k <= s.nextCursor)
  {
    OwnCursorShape(k);
    hide CursorId, SnapshotId, IsCursorShape;
    if CursorId(k) in s.cursors {
      var j :| 1 <= j <= s.nextCursor && CursorId(k) == CursorId(j);
      CursorIdInjective(j, k);
    }
  }

  /** The cursor a mint answers with resolves exactly as minted, unless its snapshot was
      already gone. */
  lemma NewCursorResolves(s: SnapshotState, snapshot: SnapshotRecord, skip: nat, limit: nat)
    requires CursorKeys(s) && s.nextCursor < LAST_WORD
    ensures var t := CursorMinted(s, snapshot, skip, limit);
            CursorResolved(t, CursorId(t.nextCursor))
            == if snapshot.snapshotId in s.byId then Resolved(snapshot.snapshotId, skip, limit, snapshot.request.kind) else Expired
  {
    hide CursorId, IsCursorShape;
    var t := CursorMinted(s, snapshot, skip, limit);
    CursorMintKeepsKeys(s, snapshot, skip, limit);
    OwnCursorsResolve(t, t.nextCursor);
  }

  /** A cursor belongs to the place of the snapshot it was minted for, as long as it lives,
      so a continuation asked for anywhere else is told from it. */
  lemma CursorKeepsItsPlace(s: SnapshotState, snapshot: SnapshotRecord, skip: nat, limit: nat, ops: seq<Op>, limits: Limits)
    requires s.nextCursor < LAST_WORD
    ensures var t := CursorMinted(s, snapshot, skip, limit);
            CursorPlace(After(t, ops, limits), CursorId(t.nextCursor))
            == Some((snapshot.request.repositoryId, snapshot.request.worktreeId))
  {
    hide CursorId, After;
    var t := CursorMinted(s, snapshot, skip, limit);
    RunsKeepCursor(t, ops, limits, t.nextCursor);
  }

  /** How far a cursor has come: Unknown, then Resolved, then Expired. */
  function Stage(result: CursorResult): nat {
    if result.Malformed? || result.Unknown? then 0 else if result.Resolved? then 1 else 2
  }

  /** An id the counter has yet to give out. */
  ghost predicate Future(s: SnapshotState, id: string) { exists n :: n > s.nextSnapshot && id == SnapshotId(n) }

  /** A snapshot this store has minted is not a future one. */
  lemma MintedIsNotFuture(s: SnapshotState, n: nat)
    requires n <= s.nextSnapshot
    ensures !Future(s, SnapshotId(n))
  {
    hide SnapshotId;
    forall m | m > s.nextSnapshot ensures SnapshotId(m) != SnapshotId(n) { SnapshotIdInjective(m, n); }
  }

  predicate IsCursor(s: SnapshotState, k: nat) { 1 <= k <= s.nextCursor && k <= LAST_WORD && CursorId(k) in s.cursors }

  lemma StepKeepsCursor(s: SnapshotState, op: Op, limits: Limits, k: nat)
    requires IsCursor(s, k)
    ensures IsCursor(Step(s, op, limits), k) && Step(s, op, limits).cursors[CursorId(k)] == s.cursors[CursorId(k)]
    ensures forall id :: Future(Step(s, op, limits), id) ==> Future(s, id)
  {
    hide CursorId, SnapshotId, Kept;
    if op.MintCursor? { CursorIdInjective(k, s.nextCursor + 1); }
  }

  /** A cursor for a snapshot of this store never goes back, and while it resolves it
      resolves to what it was minted with, under any clock. */
  lemma CursorsOnlyAge(s: SnapshotState, op: Op, limits: Limits, k: nat)
    requires IsCursor(s, k) && !Future(s, s.cursors[CursorId(k)].snapshotId)
    ensures var before, after := CursorResolved(s, CursorId(k)), CursorResolved(Step(s, op, limits), CursorId(k));
            && 1 <= Stage(before) <= Stage(after)
            && (after.Resolved? ==> after == before)
  {
    OwnCursorShape(k);
    hide CursorId, SnapshotId, IsCursorShape, Minted;
    StepKeepsCursor(s, op, limits, k);
    if op.Mint? { MintAddsOnlyTheNewId(s, op.request, op.now, limits.ttlMs, limits.maxEntries); }
  }

  lemma {:induction false} CursorsOnlyAgeOverRuns(s: SnapshotState, ops: seq<Op>, limits: Limits, k: nat)
    requires IsCursor(s, k) && !Future(s, s.cursors[CursorId(k)].snapshotId)
    ensures var before, after := CursorResolved(s, CursorId(k)), CursorResolved(After(s, ops, limits), CursorId(k));
            1 <= Stage(before) <= Stage(after) && (after.Resolved? ==> after == before)
    decreases |ops|
  {
    hide CursorResolved, Future, CursorId, Step;
    if ops == [] {
      assert 1 <= Stage(CursorResolved(s, CursorId(k))) by { KnownCursor(s, k); }
    } else {
      CursorsOnlyAge(s, ops[0], limits, k);
      StepKeepsCursor(s, ops[0], limits, k);
      CursorsOnlyAgeOverRuns(Step(s, ops[0], limits), ops[1..], limits, k);
    }
  }

  /** So it is for every cursor minted for a snapshot this store has answered with. */
  lemma OwnCursorsOnlyAge(s: SnapshotState, snapshot: SnapshotRecord, n: nat, skip: nat, limit: nat, ops: seq<Op>, limits: Limits)
    requires s.nextCursor < LAST_WORD && n <= s.nextSnapshot && snapshot.snapshotId == SnapshotId(n)
    ensures var t := CursorMinted(s, snapshot, skip, limit);
            var before, after := CursorResolved(t, CursorId(t.nextCursor)), CursorResolved(After(t, ops, limits), CursorId(t.nextCursor));
            1 <= Stage(before) <= Stage(after) && (after.Resolved? ==> after == before == Resolved(SnapshotId(n), skip, limit, snapshot.request.kind))
  {
    hide CursorId, SnapshotId, CursorResolved, After;
    var t := CursorMinted(s, snapshot, skip, limit);
    MintedIsNotFuture(t, n);
    KnownCursor(t, t.nextCursor);
    CursorsOnlyAgeOverRuns(t, ops, limits, t.nextCursor);
  }

  lemma KnownCursor(s: SnapshotState, k: nat)
    requires IsCursor(s, k)
    ensures CursorResolved(s, CursorId(k))
            == var record := s.cursors[CursorId(k)];
               if record.snapshotId in s.byId then Resolved(record.snapshotId, record.skip, record.limit, record.kind) else Expired
  {
    OwnCursorShape(k);
    hide CursorId, IsCursorShape;
  }

  // ---------------------------------------------------------------- cursors for records of another store

  lemma {:induction false} FreshSnoc(order: seq<string>, id: string, byId: map<string, SnapshotRecord>, now: nat, ttl: nat)
    ensures Fresh(order + [id], byId, now, ttl)
            == Fresh(order, byId, now, ttl) + (if Live(byId, id, now, ttl) then [id] else [])
    decreases |order|
  {
    hide Live;
    if order == [] {
      assert [] + [id] == [id];
    } else {
      assert (order + [id])[1..] == order[1..] + [id];
      FreshSnoc(order[1..], id, byId, now, ttl);
      var head := if Live(byId, order[0], now, ttl) then [order[0]] else [];
      var last := if Live(byId, id, now, ttl) then [id] else [];
      assert head + (Fresh(order[1..], byId, now, ttl) + last) == (head + Fresh(order[1..], byId, now, ttl)) + last;
    }
  }

  /** A mint keeps the snapshot it makes, unless the limits let nothing live. */
  lemma MintKeepsItsOwn(s: SnapshotState, request: SnapshotRequest, now: nat, limits: Limits)
    ensures SnapshotId(s.nextSnapshot + 1) in Minted(s, request, now, limits.ttlMs, limits.maxEntries).byId
            <==> limits.ttlMs > 0 && limits.maxEntries > 0
  {
    hide SnapshotId, Fresh;
    var record := Recorded(s, request, now);
    var byId := s.byId[record.snapshotId := record];
    var kept := Fresh(s.order + [record.snapshotId], byId, now, limits.ttlMs);
    FreshSnoc(s.order, record.snapshotId, byId, now, limits.ttlMs);
    FreshFacts(s.order + [record.snapshotId], byId, now, limits.ttlMs);
    if limits.ttlMs > 0 { assert kept[|kept| - 1] == record.snapshotId; }
    if limits.ttlMs > 0 && limits.maxEntries > 0 {
      var newest := Newest(kept, limits.maxEntries);
      assert newest[|newest| - 1] == record.snapshotId;
    }
  }

  function Mints(request: SnapshotRequest, count: nat): seq<Op> {
    if count == 0 then [] else [Mint(request, 0)] + Mints(request, count - 1)
  }

  lemma {:induction false} MintingReaches(s: SnapshotState, request: SnapshotRequest, count: nat, limits: Limits)
    requires count > 0 && limits.ttlMs > 0 && limits.maxEntries > 0
    ensures SnapshotId(s.nextSnapshot + count) in After(s, Mints(request, count), limits).byId
    decreases count
  {
    hide SnapshotId, Minted;
    var t := Step(s, Mint(request, 0), limits);
    assert Mints(request, count)[1..] == Mints(request, count - 1);
    assert t.nextSnapshot == s.nextSnapshot + 1 by { MintCounts(s, request, 0, limits.ttlMs, limits.maxEntries); }
    if count == 1 {
      MintKeepsItsOwn(s, request, 0, limits);
    } else {
      MintingReaches(t, request, count - 1, limits);
    }
  }

  lemma MintCounts(s: SnapshotState, request: SnapshotRequest, now: nat, ttl: nat, limit: nat)
    ensures Minted(s, request, now, ttl, limit).nextSnapshot == s.nextSnapshot + 1
  {}

  /** A store with a limit of zero retains nothing after any run that starts with nothing. */
  lemma {:induction false} NothingLives(s: SnapshotState, ops: seq<Op>, limits: Limits, id: string)
    requires id !in s.byId && (limits.ttlMs == 0 || limits.maxEntries == 0)
    ensures id !in After(s, ops, limits).byId
    decreases |ops|
  {
    hide SnapshotId, Minted;
    if ops != [] {
      if ops[0].Mint? {
        MintAddsOnlyTheNewId(s, ops[0].request, ops[0].now, limits.ttlMs, limits.maxEntries);
        MintKeepsItsOwn(s, ops[0].request, ops[0].now, limits);
      }
      NothingLives(Step(s, ops[0], limits), ops[1..], limits, id);
    }
  }

  lemma {:induction false} RunsKeepCursor(s: SnapshotState, ops: seq<Op>, limits: Limits, k: nat)
    requires IsCursor(s, k)
    ensures IsCursor(After(s, ops, limits), k) && After(s, ops, limits).cursors[CursorId(k)] == s.cursors[CursorId(k)]
    decreases |ops|
  {
    hide CursorId, Step, IsCursor;
    if ops != [] {
      StepKeepsCursor(s, ops[0], limits, k);
      RunsKeepCursor(Step(s, ops[0], limits), ops[1..], limits, k);
    }
  }

  ghost predicate BackAfter(s: SnapshotState, ops: seq<Op>, limits: Limits, k: nat) {
    Stage(CursorResolved(After(s, ops, limits), CursorId(k))) < Stage(CursorResolved(s, CursorId(k)))
  }

  /** Where a cursor stands: Resolved or Expired, as its snapshot is retained or not. */
  lemma StageKnown(s: SnapshotState, ops: seq<Op>, limits: Limits, k: nat)
    requires IsCursor(s, k)
    ensures var id := s.cursors[CursorId(k)].snapshotId;
            BackAfter(s, ops, limits, k) <==> id !in s.byId && id in After(s, ops, limits).byId
  {
    hide CursorId, CursorResolved, After, IsCursor;
    assert CursorId(k) in s.cursors by { CursorIsKnown(s, k); }
    RunsKeepCursor(s, ops, limits, k);
    KnownCursor(s, k);
    KnownCursor(After(s, ops, limits), k);
  }

  lemma CursorIsKnown(s: SnapshotState, k: nat)
    requires IsCursor(s, k)
    ensures CursorId(k) in s.cursors
  {}

  /** A cursor can go back exactly when it was minted for a record with an id this store has
      yet to give out, as another store's record may have, and the limits let anything live. */
  lemma CursorsGoBackExactly(s: SnapshotState, limits: Limits, k: nat)
    requires Consistent(s) && IsCursor(s, k)
    ensures (exists ops :: BackAfter(s, ops, limits, k))
            <==> Future(s, s.cursors[CursorId(k)].snapshotId) && limits.ttlMs > 0 && limits.maxEntries > 0
  {
    hide CursorId, SnapshotId, BackAfter, IsCursor, Agrees, CursorKeys, After, Future, Mints;
    assert CursorId(k) in s.cursors by { CursorIsKnown(s, k); }
    var id := s.cursors[CursorId(k)].snapshotId;
    if Future(s, id) {
      if id in s.byId { MintedIsNotFutureId(s, id); }
      if limits.ttlMs > 0 && limits.maxEntries > 0 {
        var ops := MintedLater(s, id, limits);
        StageKnown(s, ops, limits, k);
      } else {
        forall ops ensures !BackAfter(s, ops, limits, k) {
          NothingLives(s, ops, limits, id);
          StageKnown(s, ops, limits, k);
        }
      }
    } else {
      forall ops ensures !BackAfter(s, ops, limits, k) {
        NeverMintedAgain(s, ops, limits, id);
        StageKnown(s, ops, limits, k);
      }
    }
  }

  lemma MintedLater(s: SnapshotState, id: string, limits: Limits) returns (ops: seq<Op>)
    requires Future(s, id) && limits.ttlMs > 0 && limits.maxEntries > 0
    ensures id in After(s, ops, limits).byId
  {
    hide SnapshotId, After;
    var n :| n > s.nextSnapshot && id == SnapshotId(n);
    var request := SnapshotRequest(Status, "", None, "", [], None, None, None, None);
    ops := Mints(request, n - s.nextSnapshot);
    MintingReaches(s, request, n - s.nextSnapshot, limits);
  }

  /** What is gone and not to come stays gone. */
  lemma {:induction false} NeverMintedAgain(s: SnapshotState, ops: seq<Op>, limits: Limits, id: string)
    requires !Future(s, id)
    ensures id in After(s, ops, limits).byId ==> id in s.byId
    decreases |ops|
  {
    hide SnapshotId, Minted;
    if ops != [] {
      var t := Step(s, ops[0], limits);
      if ops[0].Mint? {
        MintAddsOnlyTheNewId(s, ops[0].request, ops[0].now, limits.ttlMs, limits.maxEntries);
        MintCounts(s, ops[0].request, ops[0].now, limits.ttlMs, limits.maxEntries);
      }
      assert !Future(t, id);
      NeverMintedAgain(t, ops[1..], limits, id);
    }
  }

  lemma MintedIsNotFutureId(s: SnapshotState, id: string)
    requires OwnIds(s.byId, s.nextSnapshot) && id in s.byId
    ensures !Future(s, id)
  {
    hide SnapshotId, Future;
    var n :| 1 <= n <= s.nextSnapshot && id == SnapshotId(n);
    MintedIsNotFuture(s, n);
  }

  /** It does happen: a cursor minted for the first snapshot of another store is Expired here
      until this store makes a snapshot of that number. */
  lemma ForeignCursorGoesBack(record: SnapshotRecord, request: SnapshotRequest, skip: nat, limit: nat)
    requires record.snapshotId == SnapshotId(1)
    ensures var s := CursorMinted(EMPTY, record, skip, limit);
            var t := Minted(s, request, 0, 1, 1);
            CursorResolved(s, CursorId(1)).Expired? && CursorResolved(t, CursorId(1)).Resolved?
  {
    hide CursorId, SnapshotId, CursorResolved, Minted;
    var s := CursorMinted(EMPTY, record, skip, limit);
    KnownCursor(s, 1);
    StepKeepsCursor(s, Mint(request, 0), Limits(1, 1), 1);
    KnownCursor(Minted(s, request, 0, 1, 1), 1);
    MintKeepsItsOwn(s, request, 0, Limits(1, 1));
  }
}
