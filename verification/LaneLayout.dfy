/** Commit-graph lane layout (crates/refyard-graph/src/layout.rs).

    `RowFor` and `Rows` say what one row and one page look like; `LayoutGraph` and
    `LayoutPages` are the loops of the source, proved to compute exactly that. What the
    layout promises about whole histories is proved about `Rows` in LayoutRuns. */
module LaneLayout {
  import opened Wrappers

  type CommitId = string
  type LaneColor = string

  datatype GraphCommit = GraphCommit(id: CommitId, parentIds: seq<CommitId>, refNames: seq<string>)

  /** A live track: the commit it waits for, its colour and its fixed slot. */
  datatype LaneRef = LaneRef(id: CommitId, color: LaneColor, position: nat)

  datatype GraphRow = GraphRow(
    id: CommitId, parentIds: seq<CommitId>, refNames: seq<string>,
    laneIndex: nat, laneColor: LaneColor,
    inputLanes: seq<LaneRef>, outputLanes: seq<LaneRef>,
    isMerge: bool, isRoot: bool)

  /** How lanes are coloured: the palette and the colour a commit's refs imply. */
  datatype LaneStyle = LaneStyle(palette: Option<seq<LaneColor>>, colorForRef: Option<GraphCommit -> Option<LaneColor>>)
  {
    function Palette(): seq<LaneColor> {
      if palette.Some? then palette.value
      else ["lane-1", "lane-2", "lane-3", "lane-4", "lane-5", "lane-6", "lane-7", "lane-8"]
    }

    /** "At least one" colour: the source takes a remainder by the palette length. */
    predicate Usable() { |Palette()| > 0 }
  }

  datatype LayoutOptions = LayoutOptions(style: LaneStyle, continuation: seq<LaneRef>)

  datatype LayoutResult = LayoutResult(rows: seq<GraphRow>, continuation: seq<LaneRef>, laneCount: nat)
  datatype PagesLayoutResult = PagesLayoutResult(rows: seq<GraphRow>, laneCount: nat)

  // ---------------------------------------------------------------- lanes

  function Slots(lanes: seq<LaneRef>): set<nat> { set lane | lane in lanes :: lane.position }

  function Ids(lanes: seq<LaneRef>): set<CommitId> { set lane | lane in lanes :: lane.id }

  predicate DistinctSlots(lanes: seq<LaneRef>) {
    forall i, j :: 0 <= i < j < |lanes| ==> lanes[i].position != lanes[j].position
  }

  predicate SortedSlots(lanes: seq<LaneRef>) {
    forall i, j :: 0 <= i < j < |lanes| ==> lanes[i].position < lanes[j].position
  }

  /** The first lane, in slot order, that waits for `id`. */
  function Awaited(lanes: seq<LaneRef>, id: CommitId): Option<LaneRef> {
    if lanes == [] then None
    else if lanes[0].id == id then Some(lanes[0])
    else Awaited(lanes[1..], id)
  }

  function Survivors(lanes: seq<LaneRef>, id: CommitId): seq<LaneRef> {
    if lanes == [] then []
    else if lanes[0].id != id then [lanes[0]] + Survivors(lanes[1..], id)
    else Survivors(lanes[1..], id)
  }

  function Above(occupied: set<nat>, from: nat): set<nat> { set q | q in occupied && from <= q }

  function FirstFree(occupied: set<nat>, from: nat): (slot: nat)
    ensures from <= slot && slot !in occupied
    ensures forall q :: from <= q < slot ==> q in occupied
    decreases Above(occupied, from)
  {
    if from !in occupied then from
    else
      assert from in Above(occupied, from) && from !in Above(occupied, from + 1);
      FirstFree(occupied, from + 1)
  }

  /** The `free_slot` search of the source: it ends, at the smallest free slot. */
  method FreeSlot(occupied: set<nat>) returns (position: nat)
    ensures position == FirstFree(occupied, 0)
  {
    position := 0;
    while position in occupied
      invariant forall q :: 0 <= q < position ==> q in occupied
      decreases Above(occupied, position)
    {
      assert position in Above(occupied, position) && position !in Above(occupied, position + 1);
      position := position + 1;
    }
  }

  function ColorAt(palette: seq<LaneColor>, slot: nat): LaneColor
    requires |palette| > 0
  {
    palette[slot % |palette|]
  }

  predicate HasTrack(lanes: seq<LaneRef>, id: CommitId) {
    exists i :: 0 <= i < |lanes| && lanes[i].id == id
  }

  /** Additional parents join a live track or open one in the smallest free slot. */
  function OpenParents(lanes: seq<LaneRef>, occupied: set<nat>, parents: seq<CommitId>, palette: seq<LaneColor>)
    : seq<LaneRef>
    requires |palette| > 0
    decreases |parents|
  {
    if parents == [] then lanes
    else if HasTrack(lanes, parents[0]) then OpenParents(lanes, occupied, parents[1..], palette)
    else
      var slot := FirstFree(occupied, 0);
      OpenParents(lanes + [LaneRef(parents[0], ColorAt(palette, slot), slot)], occupied + {slot}, parents[1..], palette)
  }

  function InsertLane(lane: LaneRef, lanes: seq<LaneRef>): seq<LaneRef> {
    if lanes == [] || lane.position < lanes[0].position then [lane] + lanes
    else [lanes[0]] + InsertLane(lane, lanes[1..])
  }

  /** The stable sort by slot. */
  function SortLanes(lanes: seq<LaneRef>): seq<LaneRef> {
    if lanes == [] then []
    else InsertLane(lanes[|lanes| - 1], SortLanes(lanes[..|lanes| - 1]))
  }

  // ---------------------------------------------------------------- one row

  function IsPrefixOf(prefix: string, text: string): bool { prefix <= text }

  predicate IsBranchTip(commit: GraphCommit) {
    exists i :: 0 <= i < |commit.refNames| &&
      (IsPrefixOf("refs/heads/", commit.refNames[i]) || IsPrefixOf("refs/remotes/", commit.refNames[i]))
  }

  function RefColor(style: LaneStyle, commit: GraphCommit): Option<LaneColor> {
    if style.colorForRef.Some? then style.colorForRef.value(commit) else None
  }

  function RowColor(style: LaneStyle, commit: GraphCommit, awaited: Option<LaneRef>, laneIndex: nat): LaneColor
    requires style.Usable()
  {
    var tip := if IsBranchTip(commit) then RefColor(style, commit) else None;
    if tip.Some? then tip.value
    else if awaited.Some? then awaited.value.color
    else if RefColor(style, commit).Some? then RefColor(style, commit).value
    else ColorAt(style.Palette(), laneIndex)
  }

  function LaneIndexFor(input: seq<LaneRef>, id: CommitId): nat {
    var awaited := Awaited(input, id);
    if awaited.Some? then awaited.value.position else FirstFree(Slots(input), 0)
  }

  /** The survivors, followed by the first parent's lane in the circle's own slot. */
  function Continued(style: LaneStyle, input: seq<LaneRef>, commit: GraphCommit): seq<LaneRef>
    requires style.Usable()
  {
    var slot := LaneIndexFor(input, commit.id);
    var color := RowColor(style, commit, Awaited(input, commit.id), slot);
    Survivors(input, commit.id) + (if commit.parentIds == [] then [] else [LaneRef(commit.parentIds[0], color, slot)])
  }

  function ExtraParents(commit: GraphCommit): seq<CommitId> {
    if commit.parentIds == [] then [] else commit.parentIds[1..]
  }

  function Opened(style: LaneStyle, input: seq<LaneRef>, commit: GraphCommit): seq<LaneRef>
    requires style.Usable()
  {
    OpenParents(Continued(style, input, commit), Slots(input) + {LaneIndexFor(input, commit.id)},
                ExtraParents(commit), style.Palette())
  }

  function RowFor(style: LaneStyle, input: seq<LaneRef>, commit: GraphCommit): GraphRow
    requires style.Usable()
  {
    var slot := LaneIndexFor(input, commit.id);
    GraphRow(commit.id, commit.parentIds, commit.refNames,
             slot, RowColor(style, commit, Awaited(input, commit.id), slot),
             input, SortLanes(Opened(style, input, commit)),
             |commit.parentIds| > 1, commit.parentIds == [])
  }

  // ---------------------------------------------------------------- one page

  function Rows(style: LaneStyle, input: seq<LaneRef>, commits: seq<GraphCommit>): (rows: seq<GraphRow>)
    requires style.Usable()
    ensures |rows| == |commits|
    decreases |commits|
  {
    if commits == [] then []
    else
      var row := RowFor(style, input, commits[0]);
      [row] + Rows(style, row.outputLanes, commits[1..])
  }

  function LastLanes(input: seq<LaneRef>, rows: seq<GraphRow>): seq<LaneRef> {
    if rows == [] then input else rows[|rows| - 1].outputLanes
  }

  function Max(a: nat, b: nat): nat { if a < b then b else a }

  /** One more than the highest slot of `lanes`, or `least` when that is larger. */
  function Width(least: nat, lanes: seq<LaneRef>): (width: nat)
    ensures width >= least
    ensures forall i :: 0 <= i < |lanes| ==> lanes[i].position < width
    ensures width == least || exists i :: 0 <= i < |lanes| && width == lanes[i].position + 1
    decreases |lanes|
  {
    if lanes == [] then least
    else Max(Width(least, lanes[..|lanes| - 1]), lanes[|lanes| - 1].position + 1)
  }

  function RowWidth(least: nat, row: GraphRow): nat {
    Width(Max(least, row.laneIndex + 1), row.outputLanes)
  }

  function RowsWidth(least: nat, rows: seq<GraphRow>): nat {
    if rows == [] then least
    else RowWidth(RowsWidth(least, rows[..|rows| - 1]), rows[|rows| - 1])
  }

  /** What `layout_graph` answers. */
  function Layout(options: LayoutOptions, commits: seq<GraphCommit>): LayoutResult
    requires options.style.Usable()
  {
    var rows := Rows(options.style, options.continuation, commits);
    LayoutResult(rows, LastLanes(options.continuation, rows), RowsWidth(Width(0, options.continuation), rows))
  }

  /** A page laid out after another continues from the lanes the first one ended with. */
  lemma {:induction false} RowsConcat(style: LaneStyle, input: seq<LaneRef>, a: seq<GraphCommit>, b: seq<GraphCommit>)
    requires style.Usable()
    ensures var first := Rows(style, input, a);
            && Rows(style, input, a + b) == first + Rows(style, LastLanes(input, first), b)
            && LastLanes(input, Rows(style, input, a + b))
               == LastLanes(LastLanes(input, first), Rows(style, LastLanes(input, first), b))
    decreases |a|
  {
    hide RowFor, LastLanes;
    if a == [] {
      assert a + b == b;
      NoRowsLast(input);
    } else {
      var row := RowFor(style, input, a[0]);
      assert (a + b)[1..] == a[1..] + b;
      var rest := Rows(style, row.outputLanes, a[1..]);
      RowsConcat(style, row.outputLanes, a[1..], b);
      assert Rows(style, input, a) == [row] + rest;
      assert Rows(style, input, a + b) == [row] + Rows(style, row.outputLanes, a[1..] + b);
      var more := Rows(style, LastLanes(row.outputLanes, rest), b);
      LastOfMore(input, row, rest);
      LastOfMore(input, row, rest + more);
      assert [row] + (rest + more) == ([row] + rest) + more;
    }
  }

  lemma NoRowsLast(input: seq<LaneRef>)
    ensures LastLanes(input, []) == input
  {}

  lemma LastOfMore(input: seq<LaneRef>, row: GraphRow, rest: seq<GraphRow>)
    ensures LastLanes(input, [row] + rest) == LastLanes(row.outputLanes, rest)
  {}

  /** Lays out one commit: the body of the source's loop over a page. */
  method LayoutRow(style: LaneStyle, input: seq<LaneRef>, commit: GraphCommit) returns (row: GraphRow)
    requires style.Usable()
    ensures row == RowFor(style, input, commit)
  {
    var palette := style.Palette();
    var awaited := Awaited(input, commit.id);
    var occupied := Slots(input);
    var laneIndex: nat;
    if awaited.Some? {
      laneIndex := awaited.value.position;
      AwaitedIsALane(input, commit.id);
      assert occupied + {laneIndex} == occupied;
    } else {
      laneIndex := FreeSlot(occupied);
      occupied := occupied + {laneIndex};
    }
    var laneColor := RowColor(style, commit, awaited, laneIndex);
    var output := Survivors(input, commit.id);
    if |commit.parentIds| > 0 {
      output := output + [LaneRef(commit.parentIds[0], laneColor, laneIndex)];
    }
    assert output == Continued(style, input, commit);
    var extra := ExtraParents(commit);
    var i := 0;
    while i < |extra|
      invariant 0 <= i <= |extra|
      invariant OpenParents(output, occupied, extra[i..], palette) == Opened(style, input, commit)
    {
      assert extra[i..][1..] == extra[i + 1..];
      if !HasTrack(output, extra[i]) {
        var slot := FreeSlot(occupied);
        output := output + [LaneRef(extra[i], ColorAt(palette, slot), slot)];
        occupied := occupied + {slot};
      }
      i := i + 1;
    }
    row := GraphRow(commit.id, commit.parentIds, commit.refNames, laneIndex, laneColor,
                    input, SortLanes(output), |commit.parentIds| > 1, |commit.parentIds| == 0);
  }

  lemma {:induction false} AwaitedIsALane(lanes: seq<LaneRef>, id: CommitId)
    ensures Awaited(lanes, id).Some? <==> HasTrack(lanes, id)
    ensures Awaited(lanes, id).Some? ==> Awaited(lanes, id).value in lanes && Awaited(lanes, id).value.id == id
    ensures Awaited(lanes, id).Some? && SortedSlots(lanes) ==>
              forall i :: 0 <= i < |lanes| && lanes[i].id == id ==> Awaited(lanes, id).value.position <= lanes[i].position
    decreases |lanes|
  {
    if lanes != [] && lanes[0].id != id {
      AwaitedIsALane(lanes[1..], id);
      assert forall i :: 0 < i < |lanes| ==> lanes[i] == lanes[1..][i - 1];
    }
  }

  /** `layout_graph`. */
  method LayoutGraph(commits: seq<GraphCommit>, options: LayoutOptions) returns (result: LayoutResult)
    requires options.style.Usable()
    ensures result == Layout(options, commits)
  {
    hide RowFor, Width, RowWidth;
    var previousOut := options.continuation;
    var laneCount := Width(0, previousOut);
    var rows: seq<GraphRow> := [];
    var i := 0;
    while i < |commits|
      invariant 0 <= i <= |commits|
      invariant rows == Rows(options.style, options.continuation, commits[..i])
      invariant previousOut == LastLanes(options.continuation, rows)
      invariant laneCount == RowsWidth(Width(0, options.continuation), rows)
    {
      var row := LayoutRow(options.style, previousOut, commits[i]);
      RowsConcat(options.style, options.continuation, commits[..i], [commits[i]]);
      assert commits[..i + 1] == commits[..i] + [commits[i]];
      assert Rows(options.style, previousOut, [commits[i]]) == [row] + Rows(options.style, row.outputLanes, []);
      assert (rows + [row])[..|rows|] == rows;
      laneCount := RowWidth(laneCount, row);
      rows := rows + [row];
      previousOut := row.outputLanes;
      i := i + 1;
    }
    assert commits[..i] == commits;
    result := LayoutResult(rows, previousOut, laneCount);
  }

  function Flatten<T>(pages: seq<seq<T>>): seq<T> {
    if pages == [] then [] else Flatten(pages[..|pages| - 1]) + pages[|pages| - 1]
  }

  lemma {:induction false} RowsWidthConcat(least: nat, a: seq<GraphRow>, b: seq<GraphRow>)
    ensures RowsWidth(least, a + b) == RowsWidth(RowsWidth(least, a), b)
    decreases |b|
  {
    if b == [] {
      assert a + b == a;
    } else {
      RowsWidthConcat(least, a, b[..|b| - 1]);
      assert (a + b)[..|a + b| - 1] == a + b[..|b| - 1];
    }
  }

  lemma {:induction false} WidthOfMax(a: nat, b: nat, lanes: seq<LaneRef>)
    ensures Width(Max(a, b), lanes) == Max(a, Width(b, lanes))
    decreases |lanes|
  {
    if lanes != [] { WidthOfMax(a, b, lanes[..|lanes| - 1]); }
  }

  lemma {:induction false} RowsWidthOfMax(a: nat, b: nat, rows: seq<GraphRow>)
    ensures RowsWidth(Max(a, b), rows) == Max(a, RowsWidth(b, rows))
    decreases |rows|
  {
    if rows != [] {
      RowsWidthOfMax(a, b, rows[..|rows| - 1]);
      var n := RowsWidth(b, rows[..|rows| - 1]);
      var row := rows[|rows| - 1];
      assert Max(Max(a, n), row.laneIndex + 1) == Max(a, Max(n, row.laneIndex + 1));
      WidthOfMax(a, Max(n, row.laneIndex + 1), row.outputLanes);
    }
  }

  /** The lanes handed on never reach past the width already recorded. */
  lemma {:induction false} HandedOnLanesAreInside(input: seq<LaneRef>, rows: seq<GraphRow>, least: nat)
    requires least >= Width(0, input)
    ensures Max(RowsWidth(least, rows), Width(0, LastLanes(input, rows))) == RowsWidth(least, rows)
  {
    if rows != [] {
      var row := rows[|rows| - 1];
      var before := Max(RowsWidth(least, rows[..|rows| - 1]), row.laneIndex + 1);
      WidthOfMax(before, 0, row.outputLanes);
    }
  }

  /** `layout_pages`: a page boundary is invisible. Rows and lane count are those of one
      layout of the concatenation; only the zero-page call differs, where the source
      reports no lanes even when it was handed a continuation. */
  method LayoutPages(pages: seq<seq<GraphCommit>>, options: LayoutOptions) returns (result: PagesLayoutResult)
    requires options.style.Usable()
    ensures result.rows == Layout(options, Flatten(pages)).rows
    ensures result.laneCount == (if pages == [] then 0 else Layout(options, Flatten(pages)).laneCount)
  {
    hide RowFor, Width, RowWidth;
    var rows: seq<GraphRow> := [];
    var continuation := options.continuation;
    var laneCount := 0;
    var i := 0;
    while i < |pages|
      invariant 0 <= i <= |pages|
      invariant var whole := Layout(options, Flatten(pages[..i]));
                rows == whole.rows && continuation == whole.continuation && (laneCount == if i == 0 then 0 else whole.laneCount)
    {
      ghost var before := Layout(options, Flatten(pages[..i]));
      var pageOptions := options.(continuation := continuation);
      var layout := LayoutGraph(pages[i], pageOptions);
      RowsConcat(options.style, options.continuation, Flatten(pages[..i]), pages[i]);
      PageWidth(options, before.rows, layout.rows);
      assert pages[..i + 1][..i] == pages[..i];
      if i == 0 { assert Flatten(pages[..1]) == pages[0]; assert before.rows == []; assert [] + layout.rows == layout.rows; }
      rows := rows + layout.rows;
      laneCount := Max(laneCount, layout.laneCount);
      continuation := layout.continuation;
      i := i + 1;
    }
    assert pages[..i] == pages;
    result := PagesLayoutResult(rows, laneCount);
  }

  lemma PageWidth(options: LayoutOptions, before: seq<GraphRow>, page: seq<GraphRow>)
    ensures var w := RowsWidth(Width(0, options.continuation), before);
            RowsWidth(Width(0, options.continuation), before + page)
            == Max(w, RowsWidth(Width(0, LastLanes(options.continuation, before)), page))
  {
    var least := Width(0, options.continuation);
    RowsWidthConcat(least, before, page);
    HandedOnLanesAreInside(options.continuation, before, least);
    RowsWidthOfMax(RowsWidth(least, before), Width(0, LastLanes(options.continuation, before)), page);
  }
}
