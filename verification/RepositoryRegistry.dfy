/** Registered repositories, one per location (crates/refyard-host/src/registry.rs). */
module RepositoryRegistry {
  import opened Wrappers
  import opened Numerals
  import opened Separators

  /** The parts of a record that decide its identity, and the rest as one value. */
  datatype Record = Record(
    repositoryId: string, targetId: string, targetGeneration: string, commonDir: string,
    canonicalCommonDir: string, details: string)

  datatype RegistryState = RegistryState(
    next: nat, order: seq<string>, byId: map<string, Record>, idByLocation: map<string, string>)

  const EMPTY := RegistryState(0, [], map[], map[])

  /** `location_key`: one common directory on one target. */
  function LocationKey(targetId: string, commonDir: string): string { targetId + (['\0'] + commonDir) }

  function KeyOf(record: Record): string { LocationKey(record.targetId, record.commonDir) }

  function RepoId(n: nat): string { "repo_" + Base36(n) }

  function Without(order: seq<string>, id: string): seq<string> {
    if order == [] then []
    else (if order[0] != id then [order[0]] else []) + Without(order[1..], id)
  }

  /** `revoke_locked`. */
  function Revoked(s: RegistryState, id: string): RegistryState {
    if id !in s.byId then s
    else s.(byId := s.byId - {id}, idByLocation := s.idByLocation - {KeyOf(s.byId[id])}, order := Without(s.order, id))
  }

  function Known(s: RegistryState, record: Record): Option<Record> {
    var key := KeyOf(record);
    if key in s.idByLocation && s.idByLocation[key] in s.byId
       && s.byId[s.idByLocation[key]].targetGeneration == record.targetGeneration
    then Some(s.byId[s.idByLocation[key]]) else None
  }

  /** The registry once any earlier build at the record's location is gone. */
  function Cleared(s: RegistryState, record: Record): RegistryState {
    if KeyOf(record) in s.idByLocation then Revoked(s, s.idByLocation[KeyOf(record)]) else s
  }

  function Entered(s: RegistryState, record: Record): RegistryState {
    s.(idByLocation := s.idByLocation[KeyOf(record) := record.repositoryId],
       order := s.order + [record.repositoryId], byId := s.byId[record.repositoryId := record])
  }

  function Registered(s: RegistryState, record: Record): (RegistryState, Record) {
    var known := Known(s, record);
    if known.Some? then (s, known.value)
    else
      var stored := record.(canonicalCommonDir := record.commonDir);
      (Entered(Cleared(s, record), stored), stored)
  }

  function OnTarget(order: seq<string>, byId: map<string, Record>, target: string): seq<string> {
    if order == [] then []
    else (if order[0] in byId && byId[order[0]].targetId == target then [order[0]] else []) + OnTarget(order[1..], byId, target)
  }

  function OffTarget(order: seq<string>, byId: map<string, Record>, target: string): seq<string> {
    if order == [] then []
    else (if order[0] in byId && byId[order[0]].targetId == target then [] else [order[0]]) + OffTarget(order[1..], byId, target)
  }

  function RevokedAll(s: RegistryState, ids: seq<string>): RegistryState {
    if ids == [] then s else Revoked(RevokedAll(s, ids[..|ids| - 1]), ids[|ids| - 1])
  }

  class Registry {
    var next: nat
    var order: seq<string>
    var byId: map<string, Record>
    var idByLocation: map<string, string>

    function State(): RegistryState
      reads this
    {
      RegistryState(next, order, byId, idByLocation)
    }

    constructor ()
      ensures State() == EMPTY
    {
      next, order, byId, idByLocation := 0, [], map[], map[];
    }

    /** `next_id`. */
    method NextId() returns (id: string)
      modifies this`next
      ensures next == old(next) + 1 && id == RepoId(next)
    {
      next := next + 1;
      id := RepoId(next);
    }

    /** `register`. */
    method Register(record: Record) returns (registered: Record)
      modifies this
      ensures (State(), registered) == Registered(old(State()), record)
    {
      var common := record.commonDir;
      var key := LocationKey(record.targetId, common);
      if key in idByLocation {
        var existing := idByLocation[key];
        if existing in byId && byId[existing].targetGeneration == record.targetGeneration { return byId[existing]; }
        RevokeLocked(existing);
      }
      registered := record.(canonicalCommonDir := common);
      idByLocation := idByLocation[key := record.repositoryId];
      order := order + [record.repositoryId];
      byId := byId[record.repositoryId := registered];
    }

    /** `list`: one record per id, in the order of registration. */
    method List() returns (records: seq<Record>)
      requires Agree(State())
      ensures |records| == |order| && forall i :: 0 <= i < |order| ==> order[i] in byId && records[i] == byId[order[i]]
      ensures forall id :: id in byId ==> byId[id] in records
    {
      records := [];
      var i := 0;
      while i < |order|
        invariant 0 <= i <= |order| && |records| == i
        invariant forall j :: 0 <= j < i ==> order[j] in byId && records[j] == byId[order[j]]
      {
        assert order[i] in byId;
        if order[i] in byId { records := records + [byId[order[i]]]; }
        i := i + 1;
      }
      forall id | id in byId ensures byId[id] in records {
        var j :| 0 <= j < |order| && order[j] == id;
        assert records[j] == byId[id];
      }
    }

    /** `revoke`. */
    method Revoke(id: string) returns (removed: bool)
      modifies this
      ensures removed <==> id in old(byId)
      ensures State() == Revoked(old(State()), id)
    {
      if id !in byId { return false; }
      RevokeLocked(id);
      return true;
    }

    /** `revoke_target`. */
    method RevokeTarget(target: string) returns (doomed: seq<string>)
      modifies this
      ensures doomed == OnTarget(old(order), old(byId), target)
      ensures State() == RevokedAll(old(State()), doomed)
    {
      doomed := OnTarget(order, byId, target);
      var i := 0;
      while i < |doomed|
        invariant 0 <= i <= |doomed|
        invariant State() == RevokedAll(old(State()), doomed[..i])
      {
        assert doomed[..i + 1][..i] == doomed[..i];
        RevokeLocked(doomed[i]);
        i := i + 1;
      }
      assert doomed[..i] == doomed;
    }

    method RevokeLocked(id: string)
      modifies this
      ensures State() == Revoked(old(State()), id)
    {
      if id !in byId { return; }
      var record := byId[id];
      byId := byId - {id};
      idByLocation := idByLocation - {LocationKey(record.targetId, record.commonDir)};
      order := Without(order, id);
    }
  }

  // ---------------------------------------------------------------- agreement

  predicate Distinct(order: seq<string>) { forall i, j :: 0 <= i < j < |order| ==> order[i] != order[j] }

  /** The order lists the map's ids once each, and id map and location map are inverse. */
  ghost predicate Agree(s: RegistryState) {
    && Distinct(s.order) && (forall id :: id in s.order <==> id in s.byId)
    && (forall id :: id in s.byId ==>
          s.byId[id].repositoryId == id && KeyOf(s.byId[id]) in s.idByLocation && s.idByLocation[KeyOf(s.byId[id])] == id)
    && (forall key :: key in s.idByLocation ==>
          s.idByLocation[key] in s.byId && KeyOf(s.byId[s.idByLocation[key]]) == key)
  }

  lemma {:induction false} WithoutFacts(order: seq<string>, id: string)
    ensures forall x :: x in Without(order, id) <==> x in order && x != id
    ensures Distinct(order) ==> Distinct(Without(order, id))
    ensures id !in order ==> Without(order, id) == order
    decreases |order|
  {
    if order != [] {
      WithoutFacts(order[1..], id);
      assert order == [order[0]] + order[1..];
      if Distinct(order) { assert order[0] !in order[1..]; }
    }
  }

  lemma RevokeAgrees(s: RegistryState, id: string)
    requires Agree(s)
    ensures Agree(Revoked(s, id))
  {
    hide KeyOf, Distinct;
    WithoutFacts(s.order, id);
  }

  lemma EnterAgrees(s: RegistryState, record: Record)
    requires Agree(s) && KeyOf(record) !in s.idByLocation
    ensures Agree(Entered(s, record)) <==> record.repositoryId !in s.byId
  {
    hide KeyOf;
    var t := Entered(s, record);
    if record.repositoryId in s.byId {
      var i :| 0 <= i < |s.order| && s.order[i] == record.repositoryId;
      assert t.order[i] == t.order[|s.order|];
    } else {
      assert KeyOf(record) in t.idByLocation;
    }
  }

  lemma ClearedAgrees(s: RegistryState, record: Record)
    requires Agree(s)
    ensures Agree(Cleared(s, record)) && KeyOf(record) !in Cleared(s, record).idByLocation
    ensures forall id :: id in Cleared(s, record).byId
              <==> id in s.byId && !(KeyOf(record) in s.idByLocation && s.idByLocation[KeyOf(record)] == id)
  {
    hide LocationKey;
    if KeyOf(record) in s.idByLocation { RevokeAgrees(s, s.idByLocation[KeyOf(record)]); }
  }

  /** Registering keeps the three structures in agreement exactly when the location is
      already known on this build, or the id is not taken by a repository that stays. */
  lemma RegisterAgreesExactly(s: RegistryState, record: Record)
    requires Agree(s)
    ensures Agree(Registered(s, record).0)
            <==> || Known(s, record).Some?
                 || record.repositoryId !in s.byId
                 || (KeyOf(record) in s.idByLocation && s.idByLocation[KeyOf(record)] == record.repositoryId)
  {
    hide LocationKey, Cleared, Entered, Agree;
    if Known(s, record).None? {
      ClearedAgrees(s, record);
      EnterAgrees(Cleared(s, record), record.(canonicalCommonDir := record.commonDir));
    }
  }

  // ---------------------------------------------------------------- identity

  predicate CleanTarget(target: string) { '\0' !in target }

  lemma LocationKeyInjective(a: string, x: string, b: string, y: string)
    requires CleanTarget(a) && CleanTarget(b)
    ensures LocationKey(a, x) == LocationKey(b, y) <==> a == b && x == y
  {
    SplitAtFirst(a, x, b, y, '\0');
  }

  /** At most one repository per target and common directory. */
  lemma OnePerLocation(s: RegistryState, a: string, b: string)
    requires Agree(s) && a in s.byId && b in s.byId
    requires s.byId[a].targetId == s.byId[b].targetId && s.byId[a].commonDir == s.byId[b].commonDir
    ensures a == b
  {
    hide LocationKey;
  }

  /** Registering one location again: on the same build it answers with the repository it
      already is and changes nothing; otherwise the new record takes the place, at the end
      of the order, of exactly the record of that location, and every other one stays. */
  lemma RegisterReplacesOnlyItsLocation(s: RegistryState, record: Record, id: string)
    requires Agree(s) && (forall r :: r in s.byId ==> CleanTarget(s.byId[r].targetId)) && CleanTarget(record.targetId)
    requires id in s.byId && id != record.repositoryId
    ensures var sameLocation := s.byId[id].targetId == record.targetId && s.byId[id].commonDir == record.commonDir;
            var (t, answer) := Registered(s, record);
            if sameLocation && s.byId[id].targetGeneration == record.targetGeneration
            then t == s && answer == s.byId[id]
            else (id in t.byId <==> !sameLocation || Known(s, record).Some?)
                 && (id in t.byId ==> t.byId[id] == s.byId[id])
  {
    LocationKeyInjective(s.byId[id].targetId, s.byId[id].commonDir, record.targetId, record.commonDir);
    hide LocationKey;
    ClearedAgrees(s, record);
  }

  lemma NewRecordIsLast(s: RegistryState, record: Record)
    requires Agree(s) && Known(s, record).None?
    ensures var (t, answer) := Registered(s, record);
            && answer == record.(canonicalCommonDir := record.commonDir)
            && t.order == Cleared(s, record).order + [record.repositoryId]
            && record.repositoryId in t.byId && t.byId[record.repositoryId] == answer
            && t.idByLocation[KeyOf(record)] == record.repositoryId
  {}

  // ---------------------------------------------------------------- revoking a target

  lemma {:induction false} TargetFacts(order: seq<string>, byId: map<string, Record>, target: string)
    ensures forall id :: id in OnTarget(order, byId, target) <==> id in order && id in byId && byId[id].targetId == target
    ensures forall id :: id in OffTarget(order, byId, target) <==> id in order && !(id in byId && byId[id].targetId == target)
    decreases |order|
  {
    if order != [] {
      TargetFacts(order[1..], byId, target);
      assert order == [order[0]] + order[1..];
    }
  }

  lemma RevokedIds(s: RegistryState, id: string)
    requires Agree(s)
    ensures Revoked(s, id).byId == s.byId - {id} && Revoked(s, id).order == Without(s.order, id)
  {
    hide KeyOf, Distinct, Without;
    if id !in s.byId { WithoutFacts(s.order, id); }
  }

  lemma {:induction false} RevokedAllFacts(s: RegistryState, ids: seq<string>)
    requires Agree(s)
    ensures Agree(RevokedAll(s, ids))
    ensures RevokedAll(s, ids).byId == s.byId - (set id | id in ids)
    ensures RevokedAll(s, ids).order == WithoutAll(s.order, ids)
    decreases |ids|
  {
    hide Agree, Revoked;
    if ids != [] {
      var init, last := ids[..|ids| - 1], ids[|ids| - 1];
      RevokedAllFacts(s, init);
      RevokeAgrees(RevokedAll(s, init), last);
      RevokedIds(RevokedAll(s, init), last);
      assert ids == init + [last];
    }
  }

  function WithoutAll(order: seq<string>, ids: seq<string>): seq<string> {
    if ids == [] then order else Without(WithoutAll(order, ids[..|ids| - 1]), ids[|ids| - 1])
  }

  lemma {:induction false} WithoutCons(x: string, order: seq<string>, ids: seq<string>)
    ensures WithoutAll([x] + order, ids) == (if x in ids then [] else [x]) + WithoutAll(order, ids)
    decreases |ids|
  {
    if ids != [] {
      var init, last := ids[..|ids| - 1], ids[|ids| - 1];
      WithoutCons(x, order, init);
      assert ids == init + [last];
      var rest := WithoutAll(order, init);
      assert ([x] + rest)[1..] == rest && [] + rest == rest;
    }
  }

  lemma {:induction false} WithoutAllIsOffTarget(order: seq<string>, byId: map<string, Record>, target: string, ids: seq<string>)
    requires forall id :: id in order ==> (id in ids <==> id in byId && byId[id].targetId == target)
    ensures WithoutAll(order, ids) == OffTarget(order, byId, target)
    decreases |order|
  {
    if order == [] {
      NothingLeft(ids);
    } else {
      WithoutCons(order[0], order[1..], ids);
      assert order == [order[0]] + order[1..];
      WithoutAllIsOffTarget(order[1..], byId, target, ids);
    }
  }

  lemma {:induction false} NothingLeft(ids: seq<string>)
    ensures WithoutAll([], ids) == []
    decreases |ids|
  {
    if ids != [] { NothingLeft(ids[..|ids| - 1]); }
  }

  /** `revoke_target` removes exactly that target's repositories, answers with their ids in
      order, and keeps the order of the rest. */
  lemma RevokeTargetExactly(s: RegistryState, target: string)
    requires Agree(s)
    ensures var doomed := OnTarget(s.order, s.byId, target);
            var t := RevokedAll(s, doomed);
            && Agree(t) && t.order == OffTarget(s.order, s.byId, target)
            && t.byId == (map id | id in s.byId && s.byId[id].targetId != target :: s.byId[id])
            && (forall id :: id in doomed <==> id in s.byId && s.byId[id].targetId == target)
  {
    hide KeyOf, Distinct;
    var doomed := OnTarget(s.order, s.byId, target);
    TargetFacts(s.order, s.byId, target);
    RevokedAllFacts(s, doomed);
    WithoutAllIsOffTarget(s.order, s.byId, target, doomed);
  }

  // ---------------------------------------------------------------- runs

  /** The registry, and the ids handed out and not yet registered: opening a repository takes
      an id first and registers, or gives up, some time later. */
  datatype World = World(registry: RegistryState, pending: set<string>)

  datatype Op =
    | NextId
    | Register(record: Record)      // with an id handed out before
    | Revoke(id: string)
    | RevokeTarget(target: string)

  predicate Possible(w: World, op: Op) { op.Register? ==> op.record.repositoryId in w.pending }

  function Step(w: World, op: Op): World {
    var s := w.registry;
    match op
    case NextId => World(s.(next := s.next + 1), w.pending + {RepoId(s.next + 1)})
    case Register(record) => World(Registered(s, record).0, w.pending - {record.repositoryId})
    case Revoke(id) => w.(registry := Revoked(s, id))
    case RevokeTarget(target) => w.(registry := RevokedAll(s, OnTarget(s.order, s.byId, target)))
  }

  ghost predicate Runs(w: World, ops: seq<Op>)
    decreases |ops|
  {
    ops == [] || (Possible(w, ops[0]) && Runs(Step(w, ops[0]), ops[1..]))
  }

  function After(w: World, ops: seq<Op>): World
    decreases |ops|
  {
    if ops == [] then w else After(Step(w, ops[0]), ops[1..])
  }

  ghost predicate OwnIds(s: RegistryState) { forall id :: id in s.byId ==> FromCounter(id, s.next) }

  ghost predicate FromCounter(id: string, next: nat) { exists n :: 1 <= n <= next && id == RepoId(n) }

  /** The three structures agree, and an id that was handed out is still free. */
  ghost predicate InOrder(w: World) {
    && Agree(w.registry) && OwnIds(w.registry)
    && forall id :: id in w.pending ==> id !in w.registry.byId && FromCounter(id, w.registry.next)
  }

  lemma StartsInOrder()
    ensures InOrder(World(EMPTY, {}))
  {}

  lemma RepoIdInjective(a: nat, b: nat)
    ensures RepoId(a) == "repo_" + Base36(a)
    ensures RepoId(a) == RepoId(b) <==> a == b
  {
    NumeralInjective(a, b, ThirtySix);
    if RepoId(a) == RepoId(b) { assert RepoId(a)[5..] == RepoId(b)[5..]; }
  }

  lemma NextIdIsFree(s: RegistryState)
    requires OwnIds(s)
    ensures RepoId(s.next + 1) !in s.byId
  {
    hide RepoId;
    if RepoId(s.next + 1) in s.byId {
      var n :| 1 <= n <= s.next && RepoId(s.next + 1) == RepoId(n);
      RepoIdInjective(n, s.next + 1);
    }
  }

  lemma RegisteredIds(s: RegistryState, record: Record)
    requires Agree(s)
    ensures forall id :: id in Registered(s, record).0.byId ==> id in s.byId || id == record.repositoryId
    ensures Registered(s, record).0.next == s.next
  {
    hide LocationKey;
  }

  lemma NextIdKeepsOrder(w: World)
    requires InOrder(w)
    ensures InOrder(Step(w, NextId))
  {
    hide Agree, RepoId;
    NextIdIsFree(w.registry);
    assert Agree(Step(w, NextId).registry) by { SameStructures(w.registry, w.registry.next + 1); }
    forall id | FromCounter(id, w.registry.next) ensures FromCounter(id, w.registry.next + 1) {
      var n :| 1 <= n <= w.registry.next && id == RepoId(n);
    }
    assert 1 <= w.registry.next + 1;
  }

  lemma SameStructures(s: RegistryState, next: nat)
    requires Agree(s)
    ensures Agree(s.(next := next))
  {}

  lemma RegisterKeepsOrder(w: World, record: Record)
    requires InOrder(w) && Possible(w, Register(record))
    ensures InOrder(Step(w, Register(record)))
  {
    hide Agree, Registered, FromCounter, KeyOf;
    RegisterAgreesExactly(w.registry, record);
    RegisteredIds(w.registry, record);
  }

  lemma RevokesKeepOrder(w: World, ids: seq<string>)
    requires InOrder(w)
    ensures InOrder(w.(registry := RevokedAll(w.registry, ids)))
  {
    hide Agree, FromCounter;
    RevokedAllFacts(w.registry, ids);
    RevokedAllKeepsCounter(w.registry, ids);
  }

  lemma RevokeKeepsOrder(w: World, id: string)
    requires InOrder(w)
    ensures InOrder(w.(registry := Revoked(w.registry, id)))
  {
    hide Agree, FromCounter;
    RevokeAgrees(w.registry, id);
    RevokedIds(w.registry, id);
  }

  /** Whatever is opened and revoked, however openings overlap and whichever give up, the
      three structures agree. */
  lemma {:induction false} RunsAgree(w: World, ops: seq<Op>)
    requires InOrder(w) && Runs(w, ops)
    ensures InOrder(After(w, ops))
    decreases |ops|
  {
    hide InOrder, Registered, Revoked, RepoId;
    if ops != [] {
      match ops[0] {
        case NextId => NextIdKeepsOrder(w);
        case Register(record) => RegisterKeepsOrder(w, record);
        case Revoke(id) => RevokeKeepsOrder(w, id);
        case RevokeTarget(target) => RevokesKeepOrder(w, OnTarget(w.registry.order, w.registry.byId, target));
      }
      RunsAgree(Step(w, ops[0]), ops[1..]);
    }
  }

  lemma RegistryAlwaysAgrees(ops: seq<Op>)
    requires Runs(World(EMPTY, {}), ops)
    ensures Agree(After(World(EMPTY, {}), ops).registry)
  {
    StartsInOrder();
    RunsAgree(World(EMPTY, {}), ops);
  }

  lemma {:induction false} RevokedAllKeepsCounter(s: RegistryState, ids: seq<string>)
    ensures RevokedAll(s, ids).next == s.next
    decreases |ids|
  {
    if ids != [] { RevokedAllKeepsCounter(s, ids[..|ids| - 1]); }
  }
}
