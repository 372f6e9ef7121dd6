/** The stretch of history the checked-out branch still owns
    (crates/refyard-graph/src/head.rs). */
module HeadSegmentWalk {
  import opened Wrappers
  import opened LaneLayout
  import LayoutRuns

  datatype HeadSegment = HeadSegment(token: LaneColor, ids: set<CommitId>)

  function FindRow(rows: seq<GraphRow>, id: CommitId, from: nat): (found: Option<nat>)
    requires from <= |rows|
    ensures found.Some? ==> from <= found.value < |rows| && rows[found.value].id == id
    ensures found.None? ==> forall k :: from <= k < |rows| ==> rows[k].id != id
    decreases |rows| - from
  {
    if from == |rows| then None
    else if rows[from].id == id then Some(from)
    else FindRow(rows, id, from + 1)
  }

  /** The loaded row of a row's first parent. */
  function FirstParent(rows: seq<GraphRow>, i: nat): (next: Option<nat>)
    requires i < |rows|
    ensures next.Some? ==> next.value < |rows|
  {
    if rows[i].parentIds == [] then None else FindRow(rows, rows[i].parentIds[0], 0)
  }

  function Owned(rows: seq<GraphRow>, token: LaneColor, at: Option<nat>): Option<nat>
    requires at.Some? ==> at.value < |rows|
  {
    if at.Some? && rows[at.value].laneColor == token then at else None
  }

  /** The row the walk takes in its `n`th round, if it gets that far. */
  function Position(rows: seq<GraphRow>, token: LaneColor, n: nat): (at: Option<nat>)
    requires rows != []
    ensures at.Some? ==> at.value < |rows| && rows[at.value].laneColor == token
  {
    if n == 0 then Owned(rows, token, Some(0))
    else
      var last := Position(rows, token, n - 1);
      if last.None? then None else Owned(rows, token, FirstParent(rows, last.value))
  }

  /** The walk of the source ends. */
  ghost predicate Ends(rows: seq<GraphRow>, token: LaneColor)
    requires rows != []
  {
    exists n :: Position(rows, token, n).None?
  }

  /** The rows taken in the first `n` rounds. */
  function Visited(rows: seq<GraphRow>, token: LaneColor, n: nat): (visited: seq<nat>)
    requires rows != []
    ensures |visited| <= n
  {
    if n == 0 then []
    else
      var last := Position(rows, token, n - 1);
      Visited(rows, token, n - 1) + if last.None? then [] else [last.value]
  }

  /** The rows of the segment. */
  function Chain(rows: seq<GraphRow>, token: LaneColor): seq<nat>
    requires rows != []
  {
    Visited(rows, token, |rows|)
  }

  // ---------------------------------------------------------------- the walk, as links between rows

  /** Row `j` is row `i`'s first parent: the first loaded row with the first id row `i` lists. */
  ghost predicate Follows(rows: seq<GraphRow>, i: nat, j: nat) {
    && i < |rows| && j < |rows| && |rows[i].parentIds| > 0
    && rows[j].id == rows[i].parentIds[0]
    && forall k :: 0 <= k < j ==> rows[k].id != rows[i].parentIds[0]
  }

  lemma FollowsExactly(rows: seq<GraphRow>, i: nat, j: nat)
    requires i < |rows|
    ensures FirstParent(rows, i) == Some(j) <==> Follows(rows, i, j)
  {
    if rows[i].parentIds != [] { FoundFirst(rows, rows[i].parentIds[0], 0); }
  }

  lemma {:induction false} FoundFirst(rows: seq<GraphRow>, id: CommitId, from: nat)
    requires from <= |rows|
    ensures var found := FindRow(rows, id, from);
            found.Some? ==> forall k :: from <= k < found.value ==> rows[k].id != id
    decreases |rows| - from
  {
    if from < |rows| && rows[from].id != id { FoundFirst(rows, id, from + 1); }
  }

  /** A first-parent chain of loaded rows from the first row, all in one colour. */
  ghost predicate IsOwnedChain(rows: seq<GraphRow>, token: LaneColor, chain: seq<nat>) {
    && (forall k :: 0 <= k < |chain| ==> chain[k] < |rows| && rows[chain[k]].laneColor == token)
    && (chain != [] ==> chain[0] == 0)
    && (forall k :: 0 <= k < |chain| - 1 ==> Follows(rows, chain[k], chain[k + 1]))
  }

  function IdsAt(rows: seq<GraphRow>, chain: seq<nat>): set<CommitId> {
    set k | k in chain && k < |rows| :: rows[k].id
  }

  /** `head_segment_for`. */
  method HeadSegmentFor(rows: seq<GraphRow>) returns (segment: Option<HeadSegment>)
    requires rows != [] ==> Ends(rows, rows[0].laneColor)
    ensures rows == [] ==> segment == None
    ensures rows != [] ==>
              && segment.Some? && segment.value.token == rows[0].laneColor
              && forall id :: id in segment.value.ids <==> exists k :: k in Chain(rows, rows[0].laneColor) && k < |rows| && rows[k].id == id
  {
    hide FirstParent, Ends;
    if |rows| == 0 { return None; }
    var token := rows[0].laneColor;
    var ids: set<CommitId> := {};
    var current: Option<nat> := Some(0);
    ghost var n := 0;
    EndsSoon(rows, token);
    while current.Some?
      invariant current.Some? ==> current.value < |rows|
      invariant n <= |rows| && Position(rows, token, n) == Owned(rows, token, current)
      invariant ids == IdsAt(rows, Visited(rows, token, n))
      decreases |rows| - n, if current.Some? then 1 else 0
    {
      var i := current.value;
      if rows[i].laneColor != token { break; }
      assert IdsAt(rows, Visited(rows, token, n) + [i]) == IdsAt(rows, Visited(rows, token, n)) + {rows[i].id};
      ids := ids + {rows[i].id};
      current := FirstParent(rows, i);
      n := n + 1;
    }
    VisitedStops(rows, token, n, |rows|);
    segment := Some(HeadSegment(token, ids));
  }

  // ---------------------------------------------------------------- where the walk ends

  lemma {:induction false} NoneStays(rows: seq<GraphRow>, token: LaneColor, m: nat, n: nat)
    requires rows != [] && m <= n && Position(rows, token, m).None?
    ensures Position(rows, token, n).None?
    decreases n
  {
    if m < n { NoneStays(rows, token, m, n - 1); }
  }

  lemma {:induction false} VisitedStops(rows: seq<GraphRow>, token: LaneColor, m: nat, n: nat)
    requires rows != [] && m <= n && Position(rows, token, m).None?
    ensures Visited(rows, token, n) == Visited(rows, token, m)
    decreases n
  {
    hide Position;
    if m < n {
      VisitedStops(rows, token, m, n - 1);
      NoneStays(rows, token, m, n - 1);
    }
  }

  lemma {:induction false} VisitedAt(rows: seq<GraphRow>, token: LaneColor, n: nat)
    requires rows != []
    ensures var visited := Visited(rows, token, n);
            && (forall k :: 0 <= k < |visited| ==> Position(rows, token, k) == Some(visited[k]))
            && (|visited| == n || Position(rows, token, |visited|).None?)
    decreases n
  {
    hide Position;
    if n > 0 {
      VisitedAt(rows, token, n - 1);
      var before := Visited(rows, token, n - 1);
      if |before| < n - 1 { NoneStays(rows, token, |before|, n - 1); }
    }
  }

  lemma {:induction false} Repeats(rows: seq<GraphRow>, token: LaneColor, m: nat, n: nat, k: nat)
    requires rows != [] && Position(rows, token, m) == Position(rows, token, n)
    ensures Position(rows, token, m + k) == Position(rows, token, n + k)
    decreases k
  {
    hide FirstParent, Owned;
    if k > 0 { Repeats(rows, token, m, n, k - 1); }
  }

  lemma {:induction false} EndedWalkIsSimple(rows: seq<GraphRow>, token: LaneColor, end: nat, m: nat, n: nat)
    requires rows != [] && Position(rows, token, end).None? && m < n && Position(rows, token, n).Some?
    ensures Position(rows, token, m) != Position(rows, token, n)
    decreases end
  {
    hide Position;
    if Position(rows, token, m) == Position(rows, token, n) {
      if end <= n {
        NoneStays(rows, token, end, n);
      } else {
        Repeats(rows, token, m, n, end - n);
        EndedWalkIsSimple(rows, token, end - (n - m), m, n);
      }
    }
  }

  predicate Distinct(s: seq<nat>) { forall i, j :: 0 <= i < j < |s| ==> s[i] != s[j] }

  lemma {:induction false} PigeonHole(s: seq<nat>, bound: nat)
    requires Distinct(s) && forall i :: 0 <= i < |s| ==> s[i] < bound
    ensures |s| <= bound
    decreases bound
  {
    if s == [] {
    } else if k :| 0 <= k < |s| && s[k] == bound - 1 {
      PigeonHole(s[..k] + s[k + 1..], bound - 1);
    } else {
      assert s[0] < bound;
      PigeonHole(s, bound - 1);
    }
  }

  /** The walk ends exactly on rows whose first-parent chains, in the head's colour, never
      come back to a row. */
  lemma EndsExactly(rows: seq<GraphRow>, token: LaneColor)
    requires rows != []
    ensures Ends(rows, token) <==> forall chain :: IsOwnedChain(rows, token, chain) ==> Distinct(chain)
  {
    hide Position, IsOwnedChain;
    if Ends(rows, token) {
      var end :| Position(rows, token, end).None?;
      forall chain | IsOwnedChain(rows, token, chain) ensures Distinct(chain) {
        OwnedChainIsSimple(rows, token, end, chain);
      }
    }
    if forall chain :: IsOwnedChain(rows, token, chain) ==> Distinct(chain) {
      SimpleChainsEnd(rows, token);
    }
  }

  lemma OwnedChainIsSimple(rows: seq<GraphRow>, token: LaneColor, end: nat, chain: seq<nat>)
    requires rows != [] && Position(rows, token, end).None? && IsOwnedChain(rows, token, chain)
    ensures Distinct(chain)
  {
    hide Position, IsOwnedChain;
    forall i, j | 0 <= i < j < |chain| ensures chain[i] != chain[j] {
      OwnedChainIsTheWalk(rows, token, chain, i);
      OwnedChainIsTheWalk(rows, token, chain, j);
      EndedWalkIsSimple(rows, token, end, i, j);
    }
  }

  lemma SimpleChainsEnd(rows: seq<GraphRow>, token: LaneColor)
    requires rows != [] && forall chain :: IsOwnedChain(rows, token, chain) ==> Distinct(chain)
    ensures Position(rows, token, |rows|).None?
  {
    hide Position, Visited, IsOwnedChain;
    var visited := Visited(rows, token, |rows| + 1);
    VisitedIsOwned(rows, token, |rows| + 1);
    VisitedAt(rows, token, |rows| + 1);
    PigeonHole(visited, |rows|);
    NoneStays(rows, token, |visited|, |rows|);
  }

  /** A walk that ends takes at most one round per row. */
  lemma EndsSoon(rows: seq<GraphRow>, token: LaneColor)
    requires rows != [] && Ends(rows, token)
    ensures Position(rows, token, |rows|).None?
  {
    hide Position, Ends, IsOwnedChain;
    EndsExactly(rows, token);
    SimpleChainsEnd(rows, token);
  }

  /** Git's order, on rows: no row is listed after, or as, one of its own parents. */
  predicate ParentsBelow(rows: seq<GraphRow>) {
    forall i, j :: 0 <= j <= i < |rows| ==> rows[j].id !in rows[i].parentIds
  }

  lemma {:induction false} WalkGoesDown(rows: seq<GraphRow>, token: LaneColor, n: nat)
    requires rows != [] && ParentsBelow(rows)
    ensures Position(rows, token, n).Some? ==> Position(rows, token, n).value >= n
    decreases n
  {
    if n > 0 { WalkGoesDown(rows, token, n - 1); }
  }

  /** On the rows a layout of a history in Git's order produces, the walk ends. */
  lemma LaidOutWalkEnds(style: LaneStyle, input: seq<LaneRef>, commits: seq<GraphCommit>, token: LaneColor)
    requires style.Usable() && SortedSlots(input) && LayoutRuns.ChildBeforeParent(commits) && commits != []
    ensures ParentsBelow(Rows(style, input, commits))
    ensures Ends(Rows(style, input, commits), token)
  {
    hide LayoutRuns.ParallelAndCompact, LayoutRuns.CircleInPlace, Rows, Position;
    LayoutRuns.EveryRowIsParallel(style, input, commits);
    var rows := Rows(style, input, commits);
    WalkGoesDown(rows, token, |rows|);
    assert Position(rows, token, |rows|).None?;
  }

  // ---------------------------------------------------------------- what it collects

  lemma VisitedIsOwned(rows: seq<GraphRow>, token: LaneColor, n: nat)
    requires rows != []
    ensures IsOwnedChain(rows, token, Visited(rows, token, n))
  {
    hide FirstParent, Visited, Follows;
    VisitedAt(rows, token, n);
    var chain := Visited(rows, token, n);
    forall k | 0 <= k < |chain| - 1 ensures Follows(rows, chain[k], chain[k + 1]) {
      assert Position(rows, token, k + 1) == Some(chain[k + 1]);
      FollowsExactly(rows, chain[k], chain[k + 1]);
    }
  }

  lemma ChainIsOwned(rows: seq<GraphRow>, token: LaneColor)
    requires rows != []
    ensures IsOwnedChain(rows, token, Chain(rows, token))
  {
    VisitedIsOwned(rows, token, |rows|);
  }

  lemma {:induction false} OwnedChainIsTheWalk(rows: seq<GraphRow>, token: LaneColor, chain: seq<nat>, k: nat)
    requires rows != [] && IsOwnedChain(rows, token, chain) && k < |chain|
    ensures Position(rows, token, k) == Some(chain[k])
    decreases k
  {
    hide FirstParent, Follows;
    if k > 0 {
      OwnedChainIsTheWalk(rows, token, chain, k - 1);
      assert Follows(rows, chain[k - 1], chain[k - 1 + 1]);
      FollowsExactly(rows, chain[k - 1], chain[k]);
    }
  }

  /** The segment is the longest such chain: it is one, and every other is a prefix of it. */
  lemma ChainIsLongest(rows: seq<GraphRow>, token: LaneColor, other: seq<nat>)
    requires rows != [] && Ends(rows, token) && IsOwnedChain(rows, token, other)
    ensures other <= Chain(rows, token)
  {
    hide FirstParent, Position, Visited, Ends;
    EndsSoon(rows, token);
    VisitedAt(rows, token, |rows|);
    var chain := Chain(rows, token);
    assert Position(rows, token, |chain|).None?;
    if |chain| < |other| { OwnedChainIsTheWalk(rows, token, other, |chain|); }
    forall k | 0 <= k < |other| ensures other[k] == chain[k] {
      OwnedChainIsTheWalk(rows, token, other, k);
    }
  }

  /** It stops exactly where it cannot go on: at a row without parents, at a first parent no
      loaded row is, or at one whose lane has another colour. */
  lemma ChainEnds(rows: seq<GraphRow>, token: LaneColor)
    requires rows != [] && Ends(rows, token) && rows[0].laneColor == token
    ensures var chain := Chain(rows, token);
            && chain != []
            && chain[|chain| - 1] < |rows|
            && var last := rows[chain[|chain| - 1]];
               || last.parentIds == []
               || (forall k :: 0 <= k < |rows| ==> rows[k].id != last.parentIds[0])
               || exists j: nat :: Follows(rows, chain[|chain| - 1], j) && rows[j].laneColor != token
  {
    hide FirstParent, Visited, Ends, Follows;
    EndsSoon(rows, token);
    VisitedAt(rows, token, |rows|);
    var chain := Chain(rows, token);
    assert Position(rows, token, 0) == Some(0);
    var last := chain[|chain| - 1];
    assert Position(rows, token, |chain| - 1) == Some(last);
    NoFirstParent(rows, last);
    var next := FirstParent(rows, last);
    if next.Some? { FollowsExactly(rows, last, next.value); }
  }

  lemma NoFirstParent(rows: seq<GraphRow>, i: nat)
    requires i < |rows|
    ensures FirstParent(rows, i).None? <==>
              rows[i].parentIds == [] || forall k :: 0 <= k < |rows| ==> rows[k].id != rows[i].parentIds[0]
  {}
}
