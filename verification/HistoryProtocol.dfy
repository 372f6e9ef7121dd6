/** The history cache never mixes two walks.

    The store, the requests on their way, the host's cursors and the replies not yet
    delivered, under any interleaving: resets, guarded appends, filter changes, commit
    selections, failures, and replies that arrive late or never. */
module HistoryProtocol {
  import opened Wrappers
  import opened LaneLayout
  import opened LaneStructure
  import opened HistoryStore

  /** One server walk: the commits reachable from the pinned tips, in listing order. Refs
      may be decorated differently page by page, so a walk is topology only. */
  datatype Node = Node(oid: CommitId, parents: seq<CommitId>)
  type Walk = seq<Node>

  function Nodes(commits: seq<CommitSummary>): (nodes: Walk)
    ensures |nodes| == |commits|
    ensures forall i :: 0 <= i < |commits| ==> nodes[i] == Node(commits[i].oid, commits[i].parents)
  {
    if commits == [] then [] else [Node(commits[0].oid, commits[0].parents)] + Nodes(commits[1..])
  }

  function Topology(walk: Walk): (commits: seq<GraphCommit>)
    ensures |commits| == |walk|
    ensures forall i :: 0 <= i < |walk| ==> commits[i] == GraphCommit(walk[i].oid, walk[i].parents, [])
  {
    if walk == [] then [] else [GraphCommit(walk[0].oid, walk[0].parents, [])] + Topology(walk[1..])
  }

  /** Where in which walk a page or a cursor stands. */
  datatype Position = Position(walk: Walk, offset: nat)

  /** A reply on its way back, with the place its page was cut from. */
  datatype Reply = Reply(msg: StoreMsg, at: Position)

  datatype System = System(
    store: StoreState,
    requests: map<nat, Request>,        // by generation, not yet answered
    replies: map<nat, Reply>,           // by generation, not yet delivered
    cursors: map<string, Position>,     // every cursor the host has minted
    walk: Walk)                         // the walk the cache shows

  datatype Action =
    | Refresh
    | Filter(filters: HistoryFilters)
    | More(visibleEnd: nat)
    | Select(oid: CommitId)
    | Fail(generation: nat, problem: string)
    | ServeDetail(generation: nat, detail: string)
    | Serve(generation: nat, page: HistoryPage, walk: Walk)
    | Deliver(generation: nat, decoration: Decoration)

  function Start(): System {
    System(StoreState(0, History([], [], [], None, 0, false), HistoryFilters(None, None), None, None, None),
           map[], map[], map[], [])
  }

  // ---------------------------------------------------------------- steps

  function Issue(s: System, store: StoreState, request: Request): System {
    s.(store := store, requests := s.requests[store.generation := request])
  }

  /** Where the answer to a history request starts: a fresh walk, or the cursor's place. */
  function StartsAt(s: System, request: Request, walk: Walk): Position
    requires request.HistoryRequest?
  {
    if request.cursor.None? then Position(walk, 0)
    else if request.cursor.value in s.cursors then s.cursors[request.cursor.value]
    else Position([], 0)
  }

  /** The page is the stretch of its walk that starts at `at`. */
  predicate CutAt(page: HistoryPage, at: Position) {
    && at.offset + |page.commits| <= |at.walk|
    && Nodes(page.commits) == at.walk[at.offset..at.offset + |page.commits|]
  }

  /** The host pages one walk: a page is the next stretch of the walk its request names,
      and the cursor it mints is new and continues that walk right behind the page. A
      cursor the host does not know is refused, so it never serves a page. */
  predicate Servable(s: System, action: Action)
    requires action.Serve?
  {
    && action.generation in s.requests && s.requests[action.generation].HistoryRequest?
    && (s.requests[action.generation].cursor.Some? ==> s.requests[action.generation].cursor.value in s.cursors)
    && var at := StartsAt(s, s.requests[action.generation], action.walk);
       && CutAt(action.page, at)
       && (action.page.nextCursor.Some? ==> action.page.nextCursor.value !in s.cursors)
  }

  predicate Possible(s: System, action: Action) {
    match action
    case Fail(g, _) => g in s.requests
    case ServeDetail(g, _) => g in s.requests && s.requests[g].DetailRequest?
    case Serve(_, _, _) => Servable(s, action)
    case Deliver(g, decoration) => g in s.replies && decoration.Usable()
    case _ => true
  }

  function Answered(s: System, generation: nat, reply: Reply): System {
    s.(requests := s.requests - {generation}, replies := s.replies[generation := reply])
  }

  function Next(s: System, action: Action): System
    requires Possible(s, action)
  {
    match action
    case Refresh => var (store, request) := Refreshed(s.store, Reset); Issue(s, store, request)
    case Filter(filters) => var (store, request) := Refreshed(s.store.(filters := filters), Reset); Issue(s, store, request)
    case More(visibleEnd) =>
      if !WantsMore(s.store, visibleEnd) then s
      else var (store, request) := Refreshed(s.store, Append); Issue(s, store, request)
    case Select(oid) =>
      Issue(s, s.store.(selectedCommit := Some(oid), generation := s.store.generation + 1), DetailRequest(oid))
    case Fail(g, problem) =>
      var msg := if s.requests[g].HistoryRequest? then HistoryMsg(s.requests[g].mode, Err(problem)) else DetailMsg(Err(problem));
      Answered(s, g, Reply(msg, Position([], 0)))
    case ServeDetail(g, detail) => Answered(s, g, Reply(DetailMsg(Ok(detail)), Position([], 0)))
    case Serve(g, page, walk) =>
      var at := StartsAt(s, s.requests[g], walk);
      var minted := if page.nextCursor.None? then s.cursors
                    else s.cursors[page.nextCursor.value := Position(at.walk, at.offset + |page.commits|)];
      Answered(s, g, Reply(HistoryMsg(s.requests[g].mode, Ok(page)), at)).(cursors := minted)
    case Deliver(g, decoration) =>
      var reply := s.replies[g];
      var shown := g == s.store.generation && reply.msg.HistoryMsg? && reply.msg.page.Ok? && reply.msg.mode == Reset;
      s.(store := Applied(s.store, g, reply.msg, decoration), replies := s.replies - {g},
         walk := if shown then reply.at.walk else s.walk)
  }

  // ---------------------------------------------------------------- what the cache shows

  const PLAIN: LaneStyle := LaneStyle(None, None)

  /** Rows, lanes handed on and width have the structure of one layout of `commits`. */
  ghost predicate Draws(h: History, commits: seq<GraphCommit>) {
    var whole := Layout(LayoutOptions(PLAIN, []), commits);
    SameRows(h.rows, whole.rows) && SameTracks(h.continuation, whole.continuation) && h.laneCount == whole.laneCount
  }

  /** The cursor, if there is one, was minted for exactly this place. */
  predicate Continues(cursor: Option<string>, cursors: map<string, Position>, at: Position) {
    cursor.Some? ==> cursor.value in cursors && cursors[cursor.value] == at
  }

  /** The cache is a prefix of `walk`, its cursor continues that walk right behind the
      prefix, and its picture is that of one layout of the whole prefix. */
  ghost predicate ShowsPrefix(h: History, walk: Walk, cursors: map<string, Position>) {
    && |h.commits| <= |walk| && Nodes(h.commits) == walk[..|h.commits|]
    && Continues(h.cursor, cursors, Position(walk, |h.commits|))
    && Draws(h, Topology(walk[..|h.commits|]))
  }

  /** A page of the latest generation fits the cache: a reset starts a walk, an append
      starts where the cache ends. */
  ghost predicate Fits(s: System, reply: Reply) {
    reply.msg.HistoryMsg? && reply.msg.page.Ok? ==>
      var page := reply.msg.page.value;
      && (if reply.msg.mode == Reset then reply.at.offset == 0
          else reply.at == Position(s.walk, |s.store.history.commits|))
      && CutAt(page, reply.at)
      && Continues(page.nextCursor, s.cursors, Position(reply.at.walk, reply.at.offset + |page.commits|))
  }

  ghost predicate Asks(s: System, request: Request) {
    request.HistoryRequest? ==> request.cursor == (if request.mode == Append then s.store.history.cursor else None)
  }

  ghost predicate InOrder(s: System) {
    && ShowsPrefix(s.store.history, s.walk, s.cursors)
    && (forall g :: g in s.requests ==> g <= s.store.generation && g !in s.replies)
    && (forall g :: g in s.replies ==> g <= s.store.generation)
    && (s.store.generation in s.requests ==> Asks(s, s.requests[s.store.generation]))
    && (forall g :: g in s.requests && s.requests[g].HistoryRequest? && s.requests[g].mode == Append ==> s.requests[g].cursor.Some?)
    && (s.store.generation in s.replies ==> Fits(s, s.replies[s.store.generation]))
  }

  lemma StartsInOrder()
    ensures InOrder(Start())
  {
    assert Topology([]) == [];
  }

  // ---------------------------------------------------------------- laying out a page

  lemma TopologyConcat(a: Walk, b: Walk)
    ensures Topology(a + b) == Topology(a) + Topology(b)
  {}

  lemma SameRowsConcat(a: seq<GraphRow>, b: seq<GraphRow>, c: seq<GraphRow>, d: seq<GraphRow>)
    requires SameRows(a, b) && SameRows(c, d)
    ensures SameRows(a + c, b + d)
  {
    hide SameRow;
  }

  /** A page laid out below the cached lanes extends the picture of the whole prefix. */
  lemma AppendDraws(h: History, commits: seq<GraphCommit>, style: LaneStyle, page: seq<GraphCommit>, shape: seq<GraphCommit>)
    requires style.Usable() && Draws(h, commits) && SameTopologies(page, shape)
    ensures var layout := Layout(LayoutOptions(style, h.continuation), page);
            var whole := Layout(LayoutOptions(PLAIN, []), commits + shape);
            && SameRows(h.rows + layout.rows, whole.rows) && SameTracks(layout.continuation, whole.continuation)
            && Max(h.laneCount, layout.laneCount) == whole.laneCount
  {
    hide Rows, Width, RowsWidth, SameRows, SameTracks;
    var before := Layout(LayoutOptions(PLAIN, []), commits);
    var layout := Layout(LayoutOptions(style, h.continuation), page);
    var rest := Rows(PLAIN, before.continuation, shape);
    RowsConcat(PLAIN, [], commits, shape);
    StructureIgnoresStyle(style, h.continuation, page, PLAIN, before.continuation, shape);
    SameRowsConcat(h.rows, before.rows, layout.rows, rest);
    PageWidth(LayoutOptions(PLAIN, []), before.rows, rest);
    SameWidth(0, h.continuation, before.continuation);
    SameRowsWidth(Width(0, before.continuation), layout.rows, rest);
  }

  lemma ResetDraws(style: LaneStyle, page: seq<GraphCommit>, shape: seq<GraphCommit>)
    requires style.Usable() && SameTopologies(page, shape)
    ensures var layout := Layout(LayoutOptions(style, []), page);
            var whole := Layout(LayoutOptions(PLAIN, []), shape);
            SameRows(layout.rows, whole.rows) && SameTracks(layout.continuation, whole.continuation)
            && layout.laneCount == whole.laneCount
  {
    hide Rows, Width, RowsWidth;
    StructureIgnoresStyle(style, [], page, PLAIN, [], shape);
    SameRowsWidth(Width(0, []), Rows(style, [], page), Rows(PLAIN, [], shape));
  }

  lemma AppendShowsPrefix(h: History, walk: Walk, cursors: map<string, Position>, page: HistoryPage, decoration: Decoration)
    requires decoration.Usable() && ShowsPrefix(h, walk, cursors) && CutAt(page, Position(walk, |h.commits|))
    requires Continues(page.nextCursor, cursors, Position(walk, |h.commits| + |page.commits|))
    ensures ShowsPrefix(Ingested(h, page, Append, decoration), walk, cursors)
  {
    hide Layout, SameTopologies, SameRows, SameTracks, Nodes, Topology;
    var k, n := |h.commits|, |h.commits| + |page.commits|;
    var part := walk[k..n];
    assert walk[..n] == walk[..k] + part;
    TopologyConcat(walk[..k], part);
    SameAsWalk(page, decoration, part);
    AppendDraws(h, Topology(walk[..k]), decoration.style, GraphCommits(page.commits, decoration.fullNames), Topology(part));
    NodesConcat(h.commits, page.commits);
  }

  lemma NodesConcat(a: seq<CommitSummary>, b: seq<CommitSummary>)
    ensures Nodes(a + b) == Nodes(a) + Nodes(b)
  {}

  lemma ResetShowsPrefix(h: History, cursors: map<string, Position>, page: HistoryPage, walk: Walk, decoration: Decoration)
    requires decoration.Usable() && CutAt(page, Position(walk, 0))
    requires Continues(page.nextCursor, cursors, Position(walk, |page.commits|))
    ensures ShowsPrefix(Ingested(h, page, Reset, decoration), walk, cursors)
  {
    hide Layout, SameTopologies, SameRows, SameTracks, Nodes, Topology;
    var part := walk[..|page.commits|];
    assert walk[0..|page.commits|] == part;
    SameAsWalk(page, decoration, part);
    ResetDraws(decoration.style, GraphCommits(page.commits, decoration.fullNames), Topology(part));
  }

  /** An accepted page leaves the cache a prefix of one walk. */
  lemma IngestShowsPrefix(h: History, walk: Walk, cursors: map<string, Position>, page: HistoryPage, at: Position,
                          mode: HistoryFetch, decoration: Decoration)
    requires decoration.Usable() && ShowsPrefix(h, walk, cursors) && CutAt(page, at)
    requires if mode == Reset then at.offset == 0 else at == Position(walk, |h.commits|)
    requires Continues(page.nextCursor, cursors, Position(at.walk, at.offset + |page.commits|))
    ensures ShowsPrefix(Ingested(h, page, mode, decoration), at.walk, cursors)
  {
    hide ShowsPrefix, CutAt, Ingested;
    if mode == Append {
      AppendShowsPrefix(h, walk, cursors, page, decoration);
    } else {
      assert at == Position(at.walk, 0);
      ResetShowsPrefix(h, cursors, page, at.walk, decoration);
    }
  }

  lemma SameAsWalk(page: HistoryPage, decoration: Decoration, part: Walk)
    requires Nodes(page.commits) == part
    ensures SameTopologies(GraphCommits(page.commits, decoration.fullNames), Topology(part))
  {
    forall i | 0 <= i < |part|
      ensures SameTopology(GraphCommits(page.commits, decoration.fullNames)[i], Topology(part)[i])
    {
      assert part[i] == Node(page.commits[i].oid, page.commits[i].parents);
    }
  }

  // ---------------------------------------------------------------- every step, every run

  lemma IssueKeepsOrder(s: System, store: StoreState, request: Request)
    requires InOrder(s) && store.generation == s.store.generation + 1
    requires store.history == s.store.history.(loadingMore := store.history.loadingMore)
    requires Asks(s.(store := store), request)
    requires request.HistoryRequest? && request.mode == Append ==> request.cursor.Some?
    ensures InOrder(Issue(s, store, request))
  {
    hide Nodes, Topology, Layout;
  }

  lemma AnswerKeepsOrder(s: System, g: nat, reply: Reply, cursors: map<string, Position>)
    requires InOrder(s) && g in s.requests
    requires forall c :: c in s.cursors ==> c in cursors && cursors[c] == s.cursors[c]
    requires g == s.store.generation ==> Fits(s.(cursors := cursors), reply)
    ensures InOrder(Answered(s, g, reply).(cursors := cursors))
  {
    hide Draws, Nodes, Topology;
    assert ShowsPrefix(s.store.history, s.walk, cursors);
    var after := Answered(s, g, reply).(cursors := cursors);
    if s.store.generation in after.replies && g != s.store.generation {
      assert Fits(s, s.replies[s.store.generation]);
    }
  }

  lemma ServeFits(s: System, action: Action)
    requires InOrder(s) && action.Serve? && Possible(s, action)
    ensures InOrder(Next(s, action))
  {
    hide ShowsPrefix, CutAt;
    var g, page := action.generation, action.page;
    var at := StartsAt(s, s.requests[g], action.walk);
    var minted := if page.nextCursor.None? then s.cursors
                  else s.cursors[page.nextCursor.value := Position(at.walk, at.offset + |page.commits|)];
    var reply := Reply(HistoryMsg(s.requests[g].mode, Ok(page)), at);
    if g == s.store.generation {
      assert Asks(s, s.requests[g]);
      if s.requests[g].mode == Append { CursorContinues(s, s.requests[g].cursor.value); }
      assert Fits(s.(cursors := minted), reply);
    }
    AnswerKeepsOrder(s, g, reply, minted);
  }

  lemma CursorContinues(s: System, cursor: string)
    requires InOrder(s) && s.store.history.cursor == Some(cursor)
    ensures cursor in s.cursors && s.cursors[cursor] == Position(s.walk, |s.store.history.commits|)
  {}

  lemma DeliverKeepsOrder(s: System, g: nat, decoration: Decoration)
    requires InOrder(s) && Possible(s, Deliver(g, decoration))
    ensures InOrder(Next(s, Deliver(g, decoration)))
  {
    hide CutAt, Continues, Ingested, ShowsPrefix;
    var reply := s.replies[g];
    if g == s.store.generation && reply.msg.HistoryMsg? {
      var h := s.store.history.(loadingMore := false);
      SameCache(s.store.history, h, s.walk, s.cursors);
      if reply.msg.page.Ok? {
        IngestShowsPrefix(h, s.walk, s.cursors, reply.msg.page.value, reply.at, reply.msg.mode, decoration);
      }
    }
  }

  lemma SameCache(h: History, k: History, walk: Walk, cursors: map<string, Position>)
    requires ShowsPrefix(h, walk, cursors) && k == h.(loadingMore := k.loadingMore)
    ensures ShowsPrefix(k, walk, cursors)
  {}

  lemma StepKeepsOrder(s: System, action: Action)
    requires InOrder(s) && Possible(s, action)
    ensures InOrder(Next(s, action))
  {
    hide InOrder, Servable;
    match action
    case Refresh =>
      var (store, request) := Refreshed(s.store, Reset);
      IssueKeepsOrder(s, store, request);
    case Filter(filters) =>
      var (store, request) := Refreshed(s.store.(filters := filters), Reset);
      IssueKeepsOrder(s, store, request);
    case More(visibleEnd) =>
      if WantsMore(s.store, visibleEnd) {
        var (store, request) := Refreshed(s.store, Append);
        IssueKeepsOrder(s, store, request);
      }
    case Select(oid) =>
      IssueKeepsOrder(s, s.store.(selectedCommit := Some(oid), generation := s.store.generation + 1), DetailRequest(oid));
    case Fail(g, problem) =>
      var msg := if s.requests[g].HistoryRequest? then HistoryMsg(s.requests[g].mode, Err(problem)) else DetailMsg(Err(problem));
      AnswerKeepsOrder(s, g, Reply(msg, Position([], 0)), s.cursors);
    case ServeDetail(g, detail) =>
      AnswerKeepsOrder(s, g, Reply(DetailMsg(Ok(detail)), Position([], 0)), s.cursors);
    case Serve(_, _, _) => ServeFits(s, action);
    case Deliver(g, decoration) => DeliverKeepsOrder(s, g, decoration);
  }

  ghost predicate Runs(s: System, actions: seq<Action>)
    decreases |actions|
  {
    actions == [] || (Possible(s, actions[0]) && Runs(Next(s, actions[0]), actions[1..]))
  }

  function After(s: System, actions: seq<Action>): System
    requires Runs(s, actions)
    decreases |actions|
  {
    if actions == [] then s else After(Next(s, actions[0]), actions[1..])
  }

  lemma {:induction false} RunKeepsOrder(s: System, actions: seq<Action>)
    requires InOrder(s) && Runs(s, actions)
    ensures InOrder(After(s, actions))
    decreases |actions|
  {
    hide InOrder, Possible, Next;
    if actions != [] {
      StepKeepsOrder(s, actions[0]);
      RunKeepsOrder(Next(s, actions[0]), actions[1..]);
    }
  }

  /** Whatever the order of requests, failures and late replies, the cache is a prefix of
      one walk, its cursor continues that walk there, and its picture is that prefix's. */
  lemma CacheIsOnePrefix(actions: seq<Action>)
    requires Runs(Start(), actions)
    ensures var s := After(Start(), actions);
            ShowsPrefix(s.store.history, s.walk, s.cursors)
  {
    StartsInOrder();
    RunKeepsOrder(Start(), actions);
  }

  // ---------------------------------------------------------------- what is not promised

  /** The history request, if any, whose reply would still be accepted. */
  predicate HistoryInFlight(s: System) {
    var g := s.store.generation;
    || (g in s.requests && s.requests[g].HistoryRequest?)
    || (g in s.replies && s.replies[g].msg.HistoryMsg?)
  }

  /** Paging stopped: the flag is set, and no reply that could clear it is on its way. */
  predicate Stuck(s: System) { s.store.history.loadingMore && !HistoryInFlight(s) }

  /** Selecting a commit while a page loads drops that page and stops paging. */
  lemma SelectingWhileLoadingSticks(s: System, oid: CommitId)
    requires InOrder(s) && s.store.history.loadingMore
    ensures Stuck(Next(s, Select(oid)))
  {
    hide ShowsPrefix;
  }

  /** And nothing else stops it: a step stalls paging exactly when it selects a commit while
      a page loads. */
  lemma OnlySelectingStalls(s: System, action: Action)
    requires InOrder(s) && !Stuck(s) && Possible(s, action)
    ensures Stuck(Next(s, action)) <==> action.Select? && s.store.history.loadingMore
  {
    hide ShowsPrefix, CutAt, Layout, GraphCommits;
  }

  /** Once stopped, only a refresh or a filter change moves the store on: every other step
      leaves it stopped and its list as it is. */
  lemma StuckUntilReset(s: System, action: Action)
    requires InOrder(s) && Stuck(s) && Possible(s, action)
    ensures Stuck(Next(s, action)) <==> !action.Refresh? && !action.Filter?
    ensures !action.Refresh? && !action.Filter? ==> Next(s, action).store.history == s.store.history
  {
    hide ShowsPrefix, CutAt, Ingested;
  }

  // ---------------------------------------------------------------- what supersedes a reset

  /** The steps that take a new generation. */
  predicate Supersedes(s: System, action: Action) {
    action.Refresh? || action.Filter? || action.Select? || (action.More? && WantsMore(s.store, action.visibleEnd))
  }

  /** No step of the run supersedes what was asked before it. */
  ghost predicate Undisturbed(s: System, actions: seq<Action>)
    requires Runs(s, actions)
    decreases |actions|
  {
    actions == [] || (!Supersedes(s, actions[0]) && Undisturbed(Next(s, actions[0]), actions[1..]))
  }

  lemma StepTakesGeneration(s: System, action: Action)
    requires Possible(s, action)
    ensures Next(s, action).store.generation == s.store.generation + (if Supersedes(s, action) then 1 else 0)
  {
    hide Ingested;
  }

  lemma {:induction false} RunTakesGenerations(s: System, actions: seq<Action>)
    requires Runs(s, actions)
    ensures After(s, actions).store.generation >= s.store.generation
    ensures After(s, actions).store.generation == s.store.generation <==> Undisturbed(s, actions)
    decreases |actions|
  {
    hide Possible, Next, Supersedes;
    if actions != [] {
      StepTakesGeneration(s, actions[0]);
      RunTakesGenerations(Next(s, actions[0]), actions[1..]);
    }
  }

  /** Generation `g` asked for a reset: so says its request, and then its reply. */
  predicate AskedForReset(s: System, g: nat) {
    && g <= s.store.generation
    && (g in s.requests ==> s.requests[g].HistoryRequest? && s.requests[g].mode == Reset)
    && (g in s.replies ==> s.replies[g].msg.HistoryMsg? && s.replies[g].msg.mode == Reset)
  }

  lemma ResetStaysOneStep(s: System, action: Action, g: nat)
    requires Possible(s, action) && AskedForReset(s, g)
    ensures AskedForReset(Next(s, action), g)
  {
    hide Ingested, CutAt;
  }

  lemma {:induction false} ResetStaysOne(s: System, actions: seq<Action>, g: nat)
    requires Runs(s, actions) && AskedForReset(s, g)
    ensures AskedForReset(After(s, actions), g)
    decreases |actions|
  {
    hide Possible, Next, AskedForReset;
    if actions != [] {
      ResetStaysOneStep(s, actions[0], g);
      ResetStaysOne(Next(s, actions[0]), actions[1..], g);
    }
  }

  /** A refresh or filter change takes effect exactly when nothing supersedes it before its
      reply comes: no further refresh or filter change, no selection, no append. If nothing
      does, the page replaces the list; otherwise the reply changes nothing at all. */
  lemma ResetTakesEffectExactly(s: System, reset: Action, actions: seq<Action>, decoration: Decoration)
    requires reset.Refresh? || reset.Filter?
    requires InOrder(s)
    requires var asked := Next(s, reset);
             && Runs(asked, actions)
             && Possible(After(asked, actions), Deliver(s.store.generation + 1, decoration))
    ensures var g, asked := s.store.generation + 1, Next(s, reset);
            var late := After(asked, actions);
            var shown := Next(late, Deliver(g, decoration));
            var reply := late.replies[g];
            && (late.store.generation == g <==> Undisturbed(asked, actions))
            && reply.msg.HistoryMsg? && reply.msg.mode == Reset
            && (Undisturbed(asked, actions) && reply.msg.page.Ok? ==>
                  && shown.walk == reply.at.walk
                  && shown.store.history
                     == Ingested(late.store.history.(loadingMore := false), reply.msg.page.value, Reset, decoration))
            && (!Undisturbed(asked, actions) ==> shown.store == late.store && shown.walk == late.walk)
  {
    hide Ingested, CutAt, Servable, Undisturbed, ShowsPrefix, Fits;
    var g, asked := s.store.generation + 1, Next(s, reset);
    RunTakesGenerations(asked, actions);
    ResetStaysOne(asked, actions, g);
  }

  /** One case: an append issued right behind a filter change goes on with the walk that was
      to be replaced. */
  lemma AppendOvertakesReset(s: System, filters: HistoryFilters, visibleEnd: nat, late: System, decoration: Decoration)
    requires WantsMore(s.store, visibleEnd)
    requires var s1 := Next(s, Filter(filters));
             && Possible(s1, More(visibleEnd))
             && late.store == Next(s1, More(visibleEnd)).store
    requires Possible(late, Deliver(s.store.generation + 1, decoration))
    ensures Next(late, Deliver(s.store.generation + 1, decoration)).store == late.store
    ensures late.store.history == s.store.history.(loadingMore := true)
  {}

  // ---------------------------------------------------------------- both happen

  const SHOWN := [Node("a", ["b"]), Node("b", [])]
  const FIRST_PAGE := HistoryPage([CommitSummary("a", ["b"], [])], Some("next"))
  const DRESS := Decoration(PLAIN, map[])

  lemma Composed(s: System, first: Action, rest: seq<Action>)
    requires Possible(s, first) && Runs(Next(s, first), rest)
    ensures Runs(s, [first] + rest) && After(s, [first] + rest) == After(Next(s, first), rest)
  {
    hide Possible, Next;
    assert ([first] + rest)[1..] == rest;
  }

  /** The first page of a two-commit walk, served to the pending first request. */
  function Serving(): Action { Serve(1, FIRST_PAGE, SHOWN) }

  lemma FirstPageServable(s: System)
    requires 1 in s.requests && s.requests[1].HistoryRequest? && s.requests[1].cursor.None? && s.cursors == map[]
    ensures Possible(s, Serving())
  {
    var commits := FIRST_PAGE.commits;
    assert Nodes(commits)[0] == Node("a", ["b"]);
    assert Nodes(commits) == SHOWN[0..1];
  }

  /** From the start: load a page, scroll, and select a commit before the next one arrives. */
  lemma StallIsReachable(oid: CommitId)
    ensures var actions := [Refresh, Serving(), Deliver(1, DRESS), More(0), Select(oid)];
            Runs(Start(), actions) && Stuck(After(Start(), actions))
  {
    hide Layout, GraphCommits, CutAt, Nodes;
    var s1 := Next(Start(), Refresh);
    FirstPageServable(s1);
    var s2 := Next(s1, Serving());
    var s3 := Next(s2, Deliver(1, DRESS));
    assert WantsMore(s3.store, 0) by { IngestedRows(s2.store.history.(loadingMore := false)); }
    var s4 := Next(s3, More(0));
    var s5 := Next(s4, Select(oid));
    assert Stuck(s5);
    hide Next, Possible, Stuck;
    Composed(s4, Select(oid), []);
    Composed(s3, More(0), [Select(oid)]);
    Composed(s2, Deliver(1, DRESS), [More(0), Select(oid)]);
    Composed(s1, Serving(), [Deliver(1, DRESS), More(0), Select(oid)]);
    Composed(Start(), Refresh, [Serving(), Deliver(1, DRESS), More(0), Select(oid)]);
  }

  lemma IngestedRows(h: History)
    ensures |Ingested(h, FIRST_PAGE, Reset, DRESS).rows| == 1
    ensures Ingested(h, FIRST_PAGE, Reset, DRESS).commits == FIRST_PAGE.commits
    ensures Ingested(h, FIRST_PAGE, Reset, DRESS).cursor == FIRST_PAGE.nextCursor
    ensures !Ingested(h, FIRST_PAGE, Reset, DRESS).loadingMore <==> !h.loadingMore
  {}

  /** From the start: select a commit before the first page arrives, and that page, though
      served, is never shown. */
  lemma LostResetIsReachable(oid: CommitId)
    ensures var actions := [Refresh, Select(oid), Serving(), Deliver(1, DRESS)];
            && Runs(Start(), actions)
            && After(Start(), actions).store.history == Start().store.history
  {
    hide Layout, GraphCommits, CutAt, Nodes, Ingested;
    var s1 := Next(Start(), Refresh);
    var s2 := Next(s1, Select(oid));
    FirstPageServable(s2);
    var s3 := Next(s2, Serving());
    var s4 := Next(s3, Deliver(1, DRESS));
    assert s4.store.history == Start().store.history;
    hide Next, Possible;
    Composed(s3, Deliver(1, DRESS), []);
    Composed(s2, Serving(), [Deliver(1, DRESS)]);
    Composed(s1, Select(oid), [Serving(), Deliver(1, DRESS)]);
    Composed(Start(), Refresh, [Select(oid), Serving(), Deliver(1, DRESS)]);
  }
}
