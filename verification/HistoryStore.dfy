/** The workbench's history cache and the generations its requests carry
    (apps/desktop-gpui/src/store.rs, the history part).

    `RepoStore` is the object the source updates in place. Each method is tied to a
    function on `StoreState`, its abstract value; HistoryProtocol proves what those
    functions keep under any interleaving of requests and late replies. */
module HistoryStore {
  import opened Wrappers
  import opened LaneLayout

  datatype CommitSummary = CommitSummary(oid: CommitId, parents: seq<CommitId>, refNames: seq<string>)
  datatype HistoryPage = HistoryPage(commits: seq<CommitSummary>, nextCursor: Option<string>)
  datatype HistoryFetch = Reset | Append
  datatype HistoryFilters = HistoryFilters(message: Option<string>, author: Option<string>)

  /** A request on its way to the host, tagged with the generation that issued it. */
  datatype Request =
    | HistoryRequest(mode: HistoryFetch, cursor: Option<string>, filters: HistoryFilters)
    | DetailRequest(oid: CommitId)

  /** The host's answer to a request. */
  datatype StoreMsg =
    | HistoryMsg(mode: HistoryFetch, page: Result<HistoryPage, string>)
    | DetailMsg(detail: Result<string, string>)

  datatype History = History(
    commits: seq<CommitSummary>, rows: seq<GraphRow>, continuation: seq<LaneRef>,
    cursor: Option<string>, laneCount: nat, loadingMore: bool)

  datatype StoreState = StoreState(
    generation: nat, history: History, filters: HistoryFilters,
    selectedCommit: Option<CommitId>, commitDetail: Option<string>, lastProblem: Option<string>)

  /** What colours and qualifies a page when it is laid out: the ref colours the status and
      refs reads imply, and the short-to-full ref names, as they are at that moment. */
  datatype Decoration = Decoration(style: LaneStyle, fullNames: map<string, string>)
  {
    predicate Usable() { style.Usable() }
  }

  function FullNames(names: seq<string>, fullNames: map<string, string>): seq<string> {
    if names == [] then []
    else (if names[0] in fullNames then [fullNames[names[0]]] else []) + FullNames(names[1..], fullNames)
  }

  function GraphCommits(commits: seq<CommitSummary>, fullNames: map<string, string>): (graph: seq<GraphCommit>)
    ensures |graph| == |commits|
    ensures forall i :: 0 <= i < |commits| ==>
              graph[i].id == commits[i].oid && graph[i].parentIds == commits[i].parents
              && graph[i].refNames == FullNames(commits[i].refNames, fullNames)
  {
    if commits == [] then []
    else [GraphCommit(commits[0].oid, commits[0].parents, FullNames(commits[0].refNames, fullNames))]
         + GraphCommits(commits[1..], fullNames)
  }

  // ---------------------------------------------------------------- the abstract operations

  function Refreshed(s: StoreState, mode: HistoryFetch): (StoreState, Request) {
    (s.(generation := s.generation + 1,
        history := s.history.(loadingMore := s.history.loadingMore || mode == Append)),
     HistoryRequest(mode, if mode == Append then s.history.cursor else None, s.filters))
  }

  predicate WantsMore(s: StoreState, visibleEnd: nat) {
    && !s.history.loadingMore && s.history.cursor.Some?
    && visibleEnd + 30 >= |s.history.rows| && s.history.rows != []
  }

  function Ingested(h: History, page: HistoryPage, mode: HistoryFetch, decoration: Decoration): History
    requires decoration.Usable()
  {
    var before := if mode == Append then h.continuation else [];
    var layout := Layout(LayoutOptions(decoration.style, before), GraphCommits(page.commits, decoration.fullNames));
    if mode == Append then
      h.(commits := h.commits + page.commits, rows := h.rows + layout.rows,
         laneCount := Max(h.laneCount, layout.laneCount), continuation := layout.continuation, cursor := page.nextCursor)
    else
      h.(commits := page.commits, rows := layout.rows,
         laneCount := layout.laneCount, continuation := layout.continuation, cursor := page.nextCursor)
  }

  /** A message of any generation but the latest is dropped. */
  function Applied(s: StoreState, generation: nat, msg: StoreMsg, decoration: Decoration): StoreState
    requires decoration.Usable()
  {
    if generation != s.generation then s
    else
      match msg
      case HistoryMsg(mode, page) =>
        var h := s.history.(loadingMore := false);
        if page.Ok? then s.(history := Ingested(h, page.value, mode, decoration))
        else s.(history := h, lastProblem := Some(page.error))
      case DetailMsg(detail) =>
        if detail.Ok? then s.(commitDetail := Some(detail.value), lastProblem := None)
        else s.(lastProblem := Some(detail.error))
  }

  lemma RowPerCommit(options: LayoutOptions, commits: seq<GraphCommit>)
    requires options.style.Usable()
    ensures |Layout(options, commits).rows| == |commits|
  {}

  // ---------------------------------------------------------------- the store

  class RepoStore {
    var generation: nat
    var commits: seq<CommitSummary>
    var rows: seq<GraphRow>
    var continuation: seq<LaneRef>
    var cursor: Option<string>
    var laneCount: nat
    var loadingMore: bool
    var filters: HistoryFilters
    var selectedCommit: Option<CommitId>
    var commitDetail: Option<string>
    var lastProblem: Option<string>

    function CurrentHistory(): History
      reads this
    {
      History(commits, rows, continuation, cursor, laneCount, loadingMore)
    }

    function State(): StoreState
      reads this
    {
      StoreState(generation, CurrentHistory(), filters, selectedCommit, commitDetail, lastProblem)
    }

    constructor ()
      ensures State() == StoreState(0, History([], [], [], None, 0, false), HistoryFilters(None, None), None, None, None)
    {
      generation, commits, rows, continuation := 0, [], [], [];
      cursor, laneCount, loadingMore := None, 0, false;
      filters := HistoryFilters(None, None);
      selectedCommit, commitDetail, lastProblem := None, None, None;
    }

    /** `refresh_history`; the request carries the generation the store now has. */
    method RefreshHistory(mode: HistoryFetch) returns (request: Request)
      modifies this
      ensures (State(), request) == Refreshed(old(State()), mode)
      ensures request == HistoryRequest(mode, if mode == Append then old(cursor) else None, old(filters))
      ensures generation == old(generation) + 1 && (loadingMore <==> old(loadingMore) || mode == Append)
      ensures filters == old(filters) && cursor == old(cursor) && commits == old(commits) && rows == old(rows)
      ensures continuation == old(continuation) && laneCount == old(laneCount)
      ensures selectedCommit == old(selectedCommit) && commitDetail == old(commitDetail) && lastProblem == old(lastProblem)
    {
      generation := generation + 1;
      request := HistoryRequest(mode, match mode case Reset => None case Append => cursor, filters);
      if mode == Append { loadingMore := true; }
    }

    /** `apply_filters`. */
    method ApplyFilters(message: Option<string>, author: Option<string>) returns (request: Request)
      modifies this
      ensures (State(), request) == Refreshed(old(State()).(filters := HistoryFilters(message, author)), Reset)
      ensures request == HistoryRequest(Reset, None, HistoryFilters(message, author))
      ensures filters == HistoryFilters(message, author) && generation == old(generation) + 1
    {
      filters := HistoryFilters(message, author);
      request := RefreshHistory(Reset);
    }

    /** `request_more_history_if_needed`: the only caller that appends. */
    method RequestMoreHistoryIfNeeded(visibleEnd: nat) returns (request: Option<Request>)
      modifies this
      ensures request.Some? <==> old(WantsMore(State(), visibleEnd))
      ensures request.Some? <==> !old(loadingMore) && old(cursor).Some? && |old(rows)| > 0 && |old(rows)| - visibleEnd <= 30
      ensures request.Some? ==> request.value == HistoryRequest(Append, old(cursor), old(filters)) && loadingMore
      ensures request.Some? ==> (State(), request.value) == Refreshed(old(State()), Append)
      ensures request.None? ==> State() == old(State())
    {
      if loadingMore || cursor.None? { return None; }
      if visibleEnd + 30 >= |rows| && |rows| > 0 {
        var issued := RefreshHistory(Append);
        return Some(issued);
      }
      return None;
    }

    /** `select_commit`: it shares, and bumps, the history generation. */
    method SelectCommit(oid: CommitId) returns (request: Request)
      modifies this
      ensures request == DetailRequest(oid)
      ensures State() == old(State()).(selectedCommit := Some(oid), generation := old(generation) + 1)
    {
      selectedCommit := Some(oid);
      generation := generation + 1;
      request := DetailRequest(oid);
    }

    /** `ingest_history`. */
    method IngestHistory(page: HistoryPage, mode: HistoryFetch, decoration: Decoration)
      requires decoration.Usable()
      modifies this
      ensures State() == old(State()).(history := Ingested(old(CurrentHistory()), page, mode, decoration))
      ensures cursor == page.nextCursor && loadingMore == old(loadingMore)
      ensures commits == (if mode == Append then old(commits) + page.commits else page.commits)
      ensures |rows| == (if mode == Append then |old(rows)| else 0) + |page.commits|
      ensures mode == Append ==> rows[..|old(rows)|] == old(rows)
    {
      hide Layout, GraphCommits;
      var graph := GraphCommits(page.commits, decoration.fullNames);
      var before: seq<LaneRef> := [];
      if mode == Append {
        before := continuation;
        continuation := [];
      }
      var layout := LayoutGraph(graph, LayoutOptions(decoration.style, before));
      RowPerCommit(LayoutOptions(decoration.style, before), graph);
      match mode {
        case Reset =>
          commits := page.commits;
          rows := layout.rows;
          laneCount := layout.laneCount;
        case Append =>
          commits := commits + page.commits;
          rows := rows + layout.rows;
          laneCount := Max(laneCount, layout.laneCount);
      }
      continuation := layout.continuation;
      cursor := page.nextCursor;
    }

    /** `apply`, for the messages of the history generation. */
    method Apply(replied: nat, msg: StoreMsg, decoration: Decoration)
      requires decoration.Usable()
      modifies this
      ensures State() == Applied(old(State()), replied, msg, decoration)
      ensures replied != old(generation) ==> State() == old(State())
      ensures generation == old(generation) && filters == old(filters) && selectedCommit == old(selectedCommit)
      ensures replied == old(generation) ==>
                match msg
                case HistoryMsg(mode, Ok(page)) =>
                  && CurrentHistory() == Ingested(old(CurrentHistory()).(loadingMore := false), page, mode, decoration)
                  && !loadingMore && lastProblem == old(lastProblem) && commitDetail == old(commitDetail)
                case HistoryMsg(_, Err(problem)) =>
                  && CurrentHistory() == old(CurrentHistory()).(loadingMore := false)
                  && lastProblem == Some(problem) && commitDetail == old(commitDetail)
                case DetailMsg(Ok(detail)) =>
                  CurrentHistory() == old(CurrentHistory()) && lastProblem == None && commitDetail == Some(detail)
                case DetailMsg(Err(problem)) =>
                  CurrentHistory() == old(CurrentHistory()) && lastProblem == Some(problem) && commitDetail == old(commitDetail)
    {
      if replied != generation { return; }
      match msg {
        case HistoryMsg(mode, page) =>
          loadingMore := false;
          match page {
            case Ok(value) => IngestHistory(value, mode, decoration);
            case Err(problem) => lastProblem := Some(problem);
          }
        case DetailMsg(detail) =>
          match detail {
            case Ok(value) =>
              commitDetail := Some(value);
              lastProblem := None;
            case Err(problem) => lastProblem := Some(problem);
          }
      }
    }
  }
}
