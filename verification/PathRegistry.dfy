/** Opaque path ids and the bytes they stand for (crates/refyard-host/src/paths.rs).

    The registry's three maps and counter refine one map from a worktree and path bytes to
    the build and id they are currently bound to. */
module PathRegistry {
  import opened Wrappers
  import opened Bytes
  import opened Numerals
  import opened Separators

  type Path = seq<byte>
  type WorktreeId = seq<byte>     // as the bytes of its text

  datatype RegistryState = RegistryState(
    next: nat, idByKey: map<seq<byte>, string>, bytesById: map<string, Path>, generationById: map<string, string>)

  /** `binding_key`. */
  function BindingKey(worktree: WorktreeId, path: Path): seq<byte> { worktree + ([0] + path) }

  function PathId(n: nat): string { "path_" + Base36(n) }

  function OnGeneration(s: RegistryState, id: string, generation: string): bool {
    id in s.generationById && s.generationById[id] == generation
  }

  function Bound(s: RegistryState, worktree: WorktreeId, generation: string, path: Path): (RegistryState, string) {
    var key := BindingKey(worktree, path);
    if key in s.idByKey && OnGeneration(s, s.idByKey[key], generation) then (s, s.idByKey[key])
    else
      var id := PathId(s.next + 1);
      (RegistryState(s.next + 1, s.idByKey[key := id], s.bytesById[id := path], s.generationById[id := generation]), id)
  }

  function Resolved(s: RegistryState, generation: string, id: string): Option<Path> {
    if OnGeneration(s, id, generation) && id in s.bytesById then Some(s.bytesById[id]) else None
  }

  function ResolvedIn(s: RegistryState, worktree: WorktreeId, generation: string, id: string): Option<Path> {
    var path := Resolved(s, generation, id);
    if path.None? then None
    else
      var key := BindingKey(worktree, path.value);
      if key in s.idByKey && s.idByKey[key] == id then path else None
  }

  class Registry {
    var next: nat
    var idByKey: map<seq<byte>, string>
    var bytesById: map<string, Path>
    var generationById: map<string, string>

    function State(): RegistryState
      reads this
    {
      RegistryState(next, idByKey, bytesById, generationById)
    }

    constructor ()
      ensures State() == RegistryState(0, map[], map[], map[])
    {
      next, idByKey, bytesById, generationById := 0, map[], map[], map[];
    }

    /** `bind`: a binding does not outlive the build it was made on. */
    method Bind(worktree: WorktreeId, generation: string, path: Path) returns (id: string)
      modifies this
      ensures (State(), id) == Bound(old(State()), worktree, generation, path)
    {
      var key := BindingKey(worktree, path);
      if key in idByKey {
        var existing := idByKey[key];
        if existing in generationById && generationById[existing] == generation { return existing; }
      }
      next := next + 1;
      id := PathId(next);
      idByKey := idByKey[key := id];
      bytesById := bytesById[id := path];
      generationById := generationById[id := generation];
    }

    /** `resolve`. */
    method Resolve(generation: string, id: string) returns (path: Option<Path>)
      ensures path == Resolved(State(), generation, id)
    {
      if id !in generationById || generationById[id] != generation { return None; }
      if id in bytesById { return Some(bytesById[id]); }
      return None;
    }

    /** `resolve_in`. */
    method ResolveIn(worktree: WorktreeId, generation: string, id: string) returns (path: Option<Path>)
      ensures path == ResolvedIn(State(), worktree, generation, id)
    {
      path := Resolve(generation, id);
      if path.None? { return None; }
      var expected := BindingKey(worktree, path.value);
      if expected !in idByKey || idByKey[expected] != id { return None; }
    }
  }

  // ---------------------------------------------------------------- the abstract registry

  /** Where bytes live. Worktree ids never contain a NUL. */
  datatype Place = Place(worktree: WorktreeId, path: Path)

  datatype Mint = Mint(generation: string, path: Path)

  /** Ids by number: what each was minted for, and which one each place is bound to. */
  datatype Bindings = Bindings(minted: seq<Mint>, current: map<Place, nat>)

  ghost predicate Meaningful(b: Bindings) {
    && (forall place :: place in b.current ==>
          && 0 !in place.worktree
          && 1 <= b.current[place] <= |b.minted| && b.minted[b.current[place] - 1].path == place.path)
    && (forall a, c :: a in b.current && c in b.current && a != c ==> b.current[a] != b.current[c])
  }

  function BoundTo(b: Bindings, place: Place, generation: string): (Bindings, nat) {
    if place in b.current && 1 <= b.current[place] <= |b.minted| && b.minted[b.current[place] - 1].generation == generation
    then (b, b.current[place])
    else (Bindings(b.minted + [Mint(generation, place.path)], b.current[place := |b.minted| + 1]), |b.minted| + 1)
  }

  // ---------------------------------------------------------------- refinement

  ghost predicate RefinesIds(next: nat, bytesById: map<string, Path>, generationById: map<string, string>, minted: seq<Mint>) {
    && next == |minted|
    && (forall n :: 1 <= n <= |minted| ==>
          && PathId(n) in bytesById && bytesById[PathId(n)] == minted[n - 1].path
          && PathId(n) in generationById && generationById[PathId(n)] == minted[n - 1].generation)
    && (forall id :: id in generationById ==> exists n :: 1 <= n <= |minted| && id == PathId(n))
  }

  function KeyOf(place: Place): seq<byte> { BindingKey(place.worktree, place.path) }

  ghost predicate RefinesKeys(idByKey: map<seq<byte>, string>, current: map<Place, nat>) {
    && (forall place :: place in current ==> KeyOf(place) in idByKey && idByKey[KeyOf(place)] == PathId(current[place]))
    && (forall key :: key in idByKey ==> exists place :: place in current && key == KeyOf(place))
  }

  ghost predicate Refines(s: RegistryState, b: Bindings) {
    Meaningful(b) && RefinesIds(s.next, s.bytesById, s.generationById, b.minted) && RefinesKeys(s.idByKey, b.current)
  }

  lemma StartRefines()
    ensures Refines(RegistryState(0, map[], map[], map[]), Bindings([], map[]))
  {}

  /** Ids are never reused. */
  lemma PathIdInjective(a: nat, b: nat)
    ensures PathId(a) == "path_" + Base36(a)
    ensures PathId(a) == PathId(b) <==> a == b
  {
    NumeralInjective(a, b, ThirtySix);
    if PathId(a) == PathId(b) { assert PathId(a)[5..] == PathId(b)[5..]; }
  }

  /** The key tells the place, for worktree ids without a NUL. */
  lemma BindingKeyInjective(a: Place, b: Place)
    requires 0 !in a.worktree && 0 !in b.worktree
    ensures BindingKey(a.worktree, a.path) == BindingKey(b.worktree, b.path) <==> a == b
  {
    SplitAtFirst(a.worktree, a.path, b.worktree, b.path, 0);
  }

  lemma NewIdRefines(next: nat, bytesById: map<string, Path>, generationById: map<string, string>, minted: seq<Mint>, mint: Mint)
    requires RefinesIds(next, bytesById, generationById, minted)
    ensures var id := PathId(next + 1);
            RefinesIds(next + 1, bytesById[id := mint.path], generationById[id := mint.generation], minted + [mint])
  {
    hide PathId;
    forall n ensures PathId(n) == PathId(next + 1) <==> n == next + 1 { PathIdInjective(n, next + 1); }
    var more, generations := minted + [mint], generationById[PathId(next + 1) := mint.generation];
    forall id | id in generations ensures exists n :: 1 <= n <= |more| && id == PathId(n) {
      if id == PathId(next + 1) { assert 1 <= next + 1 <= |more|; }
      else { var n :| 1 <= n <= |minted| && id == PathId(n); }
    }
  }

  lemma NewKeyRefines(idByKey: map<seq<byte>, string>, current: map<Place, nat>, place: Place, n: nat)
    requires RefinesKeys(idByKey, current) && 0 !in place.worktree
    requires forall p :: p in current ==> 0 !in p.worktree
    ensures RefinesKeys(idByKey[KeyOf(place) := PathId(n)], current[place := n])
  {
    hide PathId, BindingKey;
    var ids, more := idByKey[KeyOf(place) := PathId(n)], current[place := n];
    forall p | p in more ensures KeyOf(p) == KeyOf(place) <==> p == place { BindingKeyInjective(p, place); }
    forall k | k in ids ensures exists p :: p in more && k == KeyOf(p) {
      if k == KeyOf(place) { assert place in more; }
      else { var p :| p in current && k == KeyOf(p); assert p in more; }
    }
  }

  lemma SameDecision(s: RegistryState, b: Bindings, place: Place)
    requires Refines(s, b) && 0 !in place.worktree
    ensures KeyOf(place) in s.idByKey <==> place in b.current
    ensures place in b.current ==> s.idByKey[KeyOf(place)] == PathId(b.current[place])
    ensures place in b.current ==>
              && PathId(b.current[place]) in s.generationById
              && s.generationById[PathId(b.current[place])] == b.minted[b.current[place] - 1].generation
  {
    hide PathId, BindingKey;
    if KeyOf(place) in s.idByKey {
      var p :| p in b.current && KeyOf(place) == KeyOf(p);
      BindingKeyInjective(p, place);
    }
  }

  /** Binding in the registry is binding in the map. */
  lemma BindRefines(s: RegistryState, b: Bindings, place: Place, generation: string)
    requires Refines(s, b) && 0 !in place.worktree
    ensures var (s', id) := Bound(s, place.worktree, generation, place.path);
            var (b', n) := BoundTo(b, place, generation);
            Refines(s', b') && id == PathId(n)
  {
    hide PathId, BindingKey, RefinesIds, RefinesKeys;
    SameDecision(s, b, place);
    var mint := Mint(generation, place.path);
    assert s.next == |b.minted| by { NextIsCount(s, b); }
    if !(place in b.current && b.minted[b.current[place] - 1].generation == generation) {
      NewIdRefines(s.next, s.bytesById, s.generationById, b.minted, mint);
      NewKeyRefines(s.idByKey, b.current, place, s.next + 1);
      NewBindingIsMeaningful(b, place, mint);
    }
  }

  lemma NextIsCount(s: RegistryState, b: Bindings)
    requires Refines(s, b)
    ensures s.next == |b.minted|
  {}

  lemma NewBindingIsMeaningful(b: Bindings, place: Place, mint: Mint)
    requires Meaningful(b) && 0 !in place.worktree && mint.path == place.path
    ensures Meaningful(Bindings(b.minted + [mint], b.current[place := |b.minted| + 1]))
  {}

  /** `resolve` answers exactly the bytes an id was minted for, under that build. */
  lemma ResolvesExactly(s: RegistryState, b: Bindings, generation: string, id: string, path: Path)
    requires Refines(s, b)
    ensures Resolved(s, generation, id) == Some(path)
            <==> exists n :: 1 <= n <= |b.minted| && id == PathId(n) && b.minted[n - 1] == Mint(generation, path)
  {
    hide PathId;
    if n :| 1 <= n <= |b.minted| && id == PathId(n) {
      forall k | 1 <= k <= |b.minted| && id == PathId(k) ensures k == n { PathIdInjective(k, n); }
    }
  }

  /** `resolve_in` answers bytes exactly when the id is the current binding of those bytes in
      that worktree, on that build. An id from one worktree never addresses another's file. */
  lemma ResolvesInExactly(s: RegistryState, b: Bindings, worktree: WorktreeId, generation: string, id: string, path: Path)
    requires Refines(s, b)
    ensures ResolvedIn(s, worktree, generation, id) == Some(path)
            <==> && Place(worktree, path) in b.current
                 && id == PathId(b.current[Place(worktree, path)])
                 && b.minted[b.current[Place(worktree, path)] - 1].generation == generation
  {
    hide PathId, BindingKey, RefinesIds, RefinesKeys, Resolved;
    ResolvesExactly(s, b, generation, id, path);
    assert KeyOf(Place(worktree, path)) == BindingKey(worktree, path);
    if ResolvedIn(s, worktree, generation, id) == Some(path) {
      var n :| 1 <= n <= |b.minted| && id == PathId(n) && b.minted[n - 1] == Mint(generation, path);
      KeyTellsPlace(s, b, Place(worktree, path), n);
    }
    if Place(worktree, path) in b.current { PlaceHasKey(s, b, Place(worktree, path)); }
  }

  lemma PlaceHasKey(s: RegistryState, b: Bindings, place: Place)
    requires Refines(s, b) && place in b.current
    ensures KeyOf(place) in s.idByKey && s.idByKey[KeyOf(place)] == PathId(b.current[place])
    ensures 1 <= b.current[place] <= |b.minted| && b.minted[b.current[place] - 1].path == place.path
  {
    hide PathId, RefinesIds, KeyOf;
  }

  lemma KeyTellsPlace(s: RegistryState, b: Bindings, place: Place, n: nat)
    requires Refines(s, b) && 1 <= n <= |b.minted| && b.minted[n - 1].path == place.path
    requires KeyOf(place) in s.idByKey && s.idByKey[KeyOf(place)] == PathId(n)
    ensures place in b.current && b.current[place] == n
  {
    hide PathId, BindingKey, RefinesIds;
    var p :| p in b.current && KeyOf(place) == KeyOf(p);
    PathIdInjective(n, b.current[p]);
    SameBytesSameWorktree(place.worktree, p.worktree, place.path);
  }

  lemma SameBytesSameWorktree(a: WorktreeId, b: WorktreeId, path: Path)
    requires BindingKey(a, path) == BindingKey(b, path)
    ensures a == b
  {
    assert BindingKey(a, path)[..|a|] == a;
    assert BindingKey(b, path)[..|b|] == b;
  }

  lemma BoundToBinds(b: Bindings, place: Place, generation: string)
    requires Meaningful(b)
    ensures var (b', n) := BoundTo(b, place, generation);
            && place in b'.current && b'.current[place] == n && 1 <= n <= |b'.minted|
            && b'.minted[n - 1] == Mint(generation, place.path) && b.minted <= b'.minted
  {}

  /** A rebuilt target gets a new id for the same bytes, and the old id is refused on it. */
  lemma RebuildReplaces(s: RegistryState, b: Bindings, place: Place, before: string, after: string)
    requires Refines(s, b) && 0 !in place.worktree && before != after
    ensures var (s1, old') := Bound(s, place.worktree, before, place.path);
            var (s2, new') := Bound(s1, place.worktree, after, place.path);
            && old' != new' && ResolvedIn(s2, place.worktree, after, new') == Some(place.path)
            && ResolvedIn(s2, place.worktree, before, old').None? && Resolved(s2, after, old').None?
  {
    hide PathId, Bound, BoundTo, RefinesIds, RefinesKeys, Resolved, ResolvedIn;
    var (s1, old') := Bound(s, place.worktree, before, place.path);
    var (b1, m) := BoundTo(b, place, before);
    BindRefines(s, b, place, before);
    BoundToBinds(b, place, before);
    var (s2, new') := Bound(s1, place.worktree, after, place.path);
    var (b2, n) := BoundTo(b1, place, after);
    BindRefines(s1, b1, place, after);
    BoundToBinds(b1, place, after);
    ResolvesInExactly(s2, b2, place.worktree, after, new', place.path);
    OldIdIsRefused(s2, b2, place, before, after, m, n);
    PathIdInjective(m, n);
  }

  lemma OldIdIsRefused(s: RegistryState, b: Bindings, place: Place, before: string, after: string, m: nat, n: nat)
    requires Refines(s, b) && before != after && 1 <= m <= |b.minted| && b.minted[m - 1] == Mint(before, place.path)
    requires place in b.current && b.current[place] == n && 1 <= n <= |b.minted| && b.minted[n - 1] == Mint(after, place.path)
    ensures Resolved(s, after, PathId(m)).None? && ResolvedIn(s, place.worktree, before, PathId(m)).None?
  {
    hide PathId, Resolved, ResolvedIn, RefinesIds, RefinesKeys;
    forall k ensures PathId(k) == PathId(m) <==> k == m { PathIdInjective(k, m); }
    forall path ensures Resolved(s, after, PathId(m)) != Some(path) { ResolvesExactly(s, b, after, PathId(m), path); }
    NoneOrSome(Resolved(s, after, PathId(m)));
    ResolvesExactly(s, b, before, PathId(m), place.path);
    ResolvesInExactly(s, b, place.worktree, before, PathId(m), place.path);
    InIsResolved(s, place.worktree, before, PathId(m));
  }

  lemma NoneOrSome(path: Option<Path>)
    ensures path.None? || exists p :: path == Some(p)
  {
    assert path.Some? ==> path == Some(path.value);
  }

  lemma InIsResolved(s: RegistryState, worktree: WorktreeId, generation: string, id: string)
    ensures ResolvedIn(s, worktree, generation, id).None? || ResolvedIn(s, worktree, generation, id) == Resolved(s, generation, id)
  {
    hide Resolved;
  }

  /** Asking again gives the same id and changes nothing. */
  lemma BindIsStable(s: RegistryState, worktree: WorktreeId, generation: string, path: Path)
    ensures var (t, id) := Bound(s, worktree, generation, path);
            Bound(t, worktree, generation, path) == (t, id)
  {
    hide PathId, BindingKey;
  }

  /** An id given out answers the bytes it was asked for, in that worktree and on that build,
      and every other place's id goes on answering as it did. */
  lemma BindAnswersAndKeeps(s: RegistryState, b: Bindings, place: Place, generation: string, other: Place, build: string, id: string)
    requires Refines(s, b) && 0 !in place.worktree && other != place
    ensures var (t, given) := Bound(s, place.worktree, generation, place.path);
            && ResolvedIn(t, place.worktree, generation, given) == Some(place.path)
            && (ResolvedIn(s, other.worktree, build, id) == Some(other.path) ==>
                  ResolvedIn(t, other.worktree, build, id) == Some(other.path))
  {
    hide PathId, Bound, BoundTo, RefinesIds, RefinesKeys, Resolved, ResolvedIn;
    var (t, given) := Bound(s, place.worktree, generation, place.path);
    var (c, n) := BoundTo(b, place, generation);
    BindRefines(s, b, place, generation);
    BoundToBinds(b, place, generation);
    ResolvesInExactly(t, c, place.worktree, generation, given, place.path);
    ResolvesInExactly(s, b, other.worktree, build, id, other.path);
    ResolvesInExactly(t, c, other.worktree, build, id, other.path);
    BoundToKeeps(b, place, generation, other);
  }

  lemma BoundToKeeps(b: Bindings, place: Place, generation: string, other: Place)
    requires Meaningful(b) && other != place
    ensures var (c, _) := BoundTo(b, place, generation);
            && (other in b.current ==> other in c.current && c.current[other] == b.current[other])
            && b.minted <= c.minted
  {}

  /** The same bytes in two worktrees have two ids. */
  lemma WorktreesGetTheirOwnIds(s: RegistryState, b: Bindings, place: Place, other: Place, generation: string)
    requires Refines(s, b) && 0 !in place.worktree && 0 !in other.worktree && place != other
    ensures var (t, first) := Bound(s, place.worktree, generation, place.path);
            var (_, second) := Bound(t, other.worktree, generation, other.path);
            first != second
  {
    hide PathId, Bound, BoundTo, Refines, ResolvedIn;
    var (t, first) := Bound(s, place.worktree, generation, place.path);
    var (c, n) := BoundTo(b, place, generation);
    BindRefines(s, b, place, generation);
    var (u, second) := Bound(t, other.worktree, generation, other.path);
    var (d, m) := BoundTo(c, other, generation);
    BindRefines(t, c, other, generation);
    assert Meaningful(b) by { RefinedIsMeaningful(s, b); }
    BoundTwiceDiffers(b, place, other, generation);
    PathIdInjective(n, m);
  }

  lemma RefinedIsMeaningful(s: RegistryState, b: Bindings)
    requires Refines(s, b)
    ensures Meaningful(b)
  {}

  /** No two places are bound to one number. */
  lemma BoundTwiceDiffers(b: Bindings, place: Place, other: Place, generation: string)
    requires Meaningful(b) && 0 !in place.worktree && 0 !in other.worktree && place != other
    ensures BoundTo(b, place, generation).1 != BoundTo(BoundTo(b, place, generation).0, other, generation).1
  {
    hide BoundTo, Meaningful;
    var (c, n) := BoundTo(b, place, generation);
    BoundToIsMeaningful(b, place, generation);
    BoundToBinds(b, place, generation);
    var (d, m) := BoundTo(c, other, generation);
    BoundToIsMeaningful(c, other, generation);
    BoundToBinds(c, other, generation);
    BoundToKeeps(c, other, generation, place);
    TwoPlaces(d, place, other);
  }

  lemma TwoPlaces(b: Bindings, place: Place, other: Place)
    requires Meaningful(b) && place in b.current && other in b.current && place != other
    ensures b.current[place] != b.current[other]
  {}

  lemma BoundToIsMeaningful(b: Bindings, place: Place, generation: string)
    requires Meaningful(b) && 0 !in place.worktree
    ensures Meaningful(BoundTo(b, place, generation).0)
  {
    NewBindingIsMeaningful(b, place, Mint(generation, place.path));
  }

  // ---------------------------------------------------------------- runs

  datatype Call = Call(place: Place, generation: string)

  function After(s: RegistryState, calls: seq<Call>): RegistryState
    decreases |calls|
  {
    if calls == [] then s
    else After(Bound(s, calls[0].place.worktree, calls[0].generation, calls[0].place.path).0, calls[1..])
  }

  function BindingsAfter(b: Bindings, calls: seq<Call>): Bindings
    decreases |calls|
  {
    if calls == [] then b else BindingsAfter(BoundTo(b, calls[0].place, calls[0].generation).0, calls[1..])
  }

  /** Every run of binds refines the same run on the map, so both answers above hold after
      any number of calls. */
  lemma {:induction false} RunsRefine(s: RegistryState, b: Bindings, calls: seq<Call>)
    requires Refines(s, b) && forall i :: 0 <= i < |calls| ==> 0 !in calls[i].place.worktree
    ensures Refines(After(s, calls), BindingsAfter(b, calls))
    decreases |calls|
  {
    hide Refines, Bound, BoundTo;
    if calls != [] {
      BindRefines(s, b, calls[0].place, calls[0].generation);
      RunsRefine(Bound(s, calls[0].place.worktree, calls[0].generation, calls[0].place.path).0,
                 BoundTo(b, calls[0].place, calls[0].generation).0, calls[1..]);
    }
  }

  /** From the empty registry, every run of binds is the same run on the empty map. */
  lemma RegistryRefinesBindings(calls: seq<Call>)
    requires forall i :: 0 <= i < |calls| ==> 0 !in calls[i].place.worktree
    ensures Refines(After(RegistryState(0, map[], map[], map[]), calls), BindingsAfter(Bindings([], map[]), calls))
  {
    StartRefines();
    RunsRefine(RegistryState(0, map[], map[], map[]), Bindings([], map[]), calls);
  }

  // ---------------------------------------------------------------- why worktree ids have no NUL

  /** Two different worktree ids can share a key exactly when one of them, ended by the
      separator, begins the other; ids without a NUL never do. */
  lemma WorktreesShareKeysExactly(a: WorktreeId, b: WorktreeId)
    requires a != b
    ensures (exists x, y :: BindingKey(a, x) == BindingKey(b, y)) <==> a + [0] <= b || b + [0] <= a
  {
    if x, y :| BindingKey(a, x) == BindingKey(b, y) {
      SharedKey(a, x, b, y);
    }
    if a + [0] <= b {
      assert BindingKey(a, b[|a| + 1..] + [0]) == BindingKey(b, []) by { assert b == a + ([0] + b[|a| + 1..]); }
    } else if b + [0] <= a {
      assert BindingKey(a, []) == BindingKey(b, a[|b| + 1..] + [0]) by { assert a == b + ([0] + a[|b| + 1..]); }
    }
  }

  lemma SharedKey(a: WorktreeId, x: Path, b: WorktreeId, y: Path)
    requires a != b && BindingKey(a, x) == BindingKey(b, y)
    ensures a + [0] <= b || b + [0] <= a
  {
    var key := BindingKey(a, x);
    assert key[..|a| + 1] == a + [0] && key[..|b| + 1] == b + [0];
    assert key[..|a|] == a && key[..|b|] == b && |a| != |b|;
    if |a| < |b| {
      assert a + [0] == b[..|a| + 1];
    } else {
      assert b + [0] == a[..|b| + 1];
    }
  }

  /** Places that share a key share their id: the second bind answers with the first's, which
      stands for the first one's bytes. */
  lemma SharedKeySharesId(s: RegistryState, a: Place, b: Place, generation: string)
    requires BindingKey(a.worktree, a.path) == BindingKey(b.worktree, b.path)
    ensures var (s1, first) := Bound(s, a.worktree, generation, a.path);
            var (s2, second) := Bound(s1, b.worktree, generation, b.path);
            first == second && s2 == s1
  {
    hide BindingKey, PathId;
  }

  /** Such a pair: one file's bind would answer with the id of another's. */
  lemma NulInWorktreeCollides(s: RegistryState, generation: string)
    ensures var (s1, first) := Bound(s, [97], generation, [0, 98]);
            var (s2, second) := Bound(s1, [97, 0], generation, [98]);
            first == second
  {
    assert BindingKey([97], [0, 98]) == [97, 0, 0, 98] == BindingKey([97, 0], [98]);
    SharedKeySharesId(s, Place([97], [0, 98]), Place([97, 0], [98]), generation);
  }
}
