/** The picture of a laid-out history is continuous from row to row. */
module PictureContinuity {
  import opened Wrappers
  import opened LaneLayout
  import opened LayoutRuns
  import opened GraphGeometry

  ghost predicate LaidOut(row: GraphRow) {
    SortedSlots(row.inputLanes) && ParallelAndCompact(row) && CircleInPlace(row)
  }

  // ---------------------------------------------------------------- claims

  lemma SurvivorsLeaveTheCircleSlot(row: GraphRow, lane: LaneRef)
    requires LaidOut(row) && Survived(row, lane)
    ensures lane.position != row.laneIndex
  {
    if HasTrack(row.inputLanes, row.id) {
      var waiting :| waiting in row.inputLanes && waiting.id == row.id && waiting.position == row.laneIndex;
      if lane.position == row.laneIndex { OneLanePerSlot(row.inputLanes, lane, waiting); }
    } else {
      assert lane.position in Slots(row.inputLanes);
    }
  }

  /** Claims of the first `n` lanes: the output slots of the survivors among them. */
  ghost predicate ClaimedBySurvivors(row: GraphRow, n: nat)
    requires n <= |row.inputLanes|
  {
    forall k: nat :: k in Claims(row, n)
      <==> k < |row.outputLanes| && row.outputLanes[k].id != row.id && row.outputLanes[k] in row.inputLanes[..n]
  }

  /** A surviving lane finds itself, unclaimed, in the output: the fallback that would draw
      a dropped lane straight through is never taken, and neither is the shifted match. */
  lemma SurvivorClaimsItself(row: GraphRow, n: nat)
    requires LaidOut(row) && n < |row.inputLanes| && row.inputLanes[n].id != row.id
    requires ClaimedBySurvivors(row, n)
    ensures OutputSlotOf(row, row.inputLanes[n], Claims(row, n)).Some?
    ensures row.outputLanes[OutputSlotOf(row, row.inputLanes[n], Claims(row, n)).value] == row.inputLanes[n]
  {
    hide Claims;
    var lane, out := row.inputLanes[n], row.outputLanes;
    assert lane in row.inputLanes;
    var k :| 0 <= k < |out| && out[k] == lane;
    assert k !in Claims(row, n) by {
      forall i | 0 <= i < n ensures row.inputLanes[..n][i] != lane {}
    }
    var slot := StableSlot(out, lane, Claims(row, n), 0);
    OneLanePerSlot(out, out[slot.value], lane);
  }

  lemma {:induction false} ClaimsAreSurvivors(row: GraphRow, n: nat)
    requires LaidOut(row) && n <= |row.inputLanes|
    ensures ClaimedBySurvivors(row, n)
    decreases n
  {
    hide ParallelAndCompact, CircleInPlace, OutputSlotOf;
    if n > 0 {
      ClaimsAreSurvivors(row, n - 1);
      var lane := row.inputLanes[n - 1];
      assert row.inputLanes[..n] == row.inputLanes[..n - 1] + [lane];
      if lane.id != row.id {
        SurvivorClaimsItself(row, n - 1);
        var slot := OutputSlotOf(row, lane, Claims(row, n - 1)).value;
        SlotsOfOneLane(row, slot);
      }
    }
  }

  lemma SlotsOfOneLane(row: GraphRow, slot: nat)
    requires LaidOut(row) && slot < |row.outputLanes|
    ensures forall k :: 0 <= k < |row.outputLanes| && row.outputLanes[k] == row.outputLanes[slot] ==> k == slot
  {}

  ghost function AllClaims(row: GraphRow): set<nat> { Claims(row, |row.inputLanes|) }

  lemma ClaimedExactly(row: GraphRow, k: nat)
    requires LaidOut(row) && k < |row.outputLanes|
    ensures k in AllClaims(row) <==> Survived(row, row.outputLanes[k])
  {
    hide ParallelAndCompact, CircleInPlace, Claims;
    ClaimsAreSurvivors(row, |row.inputLanes|);
    assert row.inputLanes[..|row.inputLanes|] == row.inputLanes;
  }

  // ---------------------------------------------------------------- edges owed

  /** The output lanes that get an edge from the circle: the lane the first parent follows,
      and every lane waiting for a further parent. */
  predicate EdgeTarget(row: GraphRow, lane: LaneRef) {
    lane.id in row.parentIds && (lane.id == row.parentIds[0] ==> lane.position == row.laneIndex)
  }

  lemma NewLanesAreTargets(row: GraphRow, lane: LaneRef)
    requires LaidOut(row) && lane in row.outputLanes && !Survived(row, lane)
    ensures EdgeTarget(row, lane)
  {
    if !Followed(row, lane) {
      var first := LaneRef(row.parentIds[0], row.laneColor, row.laneIndex);
      assert Followed(row, first);
      assert lane.id in row.parentIds;
    }
  }

  lemma SurvivorTwin(row: GraphRow, lane: LaneRef, other: LaneRef)
    requires LaidOut(row) && lane in row.outputLanes && Survived(row, lane)
    requires other in row.outputLanes && other.id == lane.id && !Survived(row, other)
    ensures row.parentIds != [] && lane.id == row.parentIds[0]
  {}

  lemma FirstParentTwin(row: GraphRow, lane: LaneRef)
    requires LaidOut(row) && Survived(row, lane) && row.parentIds != [] && lane.id == row.parentIds[0]
    ensures UnclaimedTwin(row.outputLanes, AllClaims(row), lane.id)
  {
    hide Claims;
    var first := LaneRef(row.parentIds[0], row.laneColor, row.laneIndex);
    assert Followed(row, first);
    var k :| 0 <= k < |row.outputLanes| && row.outputLanes[k] == first;
    ClaimedExactly(row, k);
    if Survived(row, first) { SurvivorsLeaveTheCircleSlot(row, first); }
  }

  lemma NoTwinForFurtherParents(row: GraphRow, lane: LaneRef)
    requires LaidOut(row) && lane in row.outputLanes && Survived(row, lane)
    requires row.parentIds != [] && lane.id != row.parentIds[0]
    ensures !UnclaimedTwin(row.outputLanes, AllClaims(row), lane.id)
  {
    hide ParallelAndCompact, CircleInPlace, Claims;
    forall k | 0 <= k < |row.outputLanes| && row.outputLanes[k].id == lane.id ensures k in AllClaims(row) {
      ClaimedExactly(row, k);
      if !Survived(row, row.outputLanes[k]) { SurvivorTwin(row, lane, row.outputLanes[k]); }
    }
  }

  lemma EdgeOwedExactly(row: GraphRow, k: nat)
    requires LaidOut(row) && k < |row.outputLanes|
    ensures EdgeOwed(row, AllClaims(row), k) <==> EdgeTarget(row, row.outputLanes[k])
  {
    hide ParallelAndCompact, CircleInPlace, Claims, UnclaimedTwin;
    var lane := row.outputLanes[k];
    ClaimedExactly(row, k);
    if !Survived(row, lane) {
      NewLanesAreTargets(row, lane);
    } else if lane.id in row.parentIds {
      SurvivorsLeaveTheCircleSlot(row, lane);
      if lane.id == row.parentIds[0] { FirstParentTwin(row, lane); } else { NoTwinForFurtherParents(row, lane); }
    }
  }

  // ---------------------------------------------------------------- the picture of one row

  function Bottom(index: nat, m: Metrics): real { RowTop(index, m) + m.rowHeight }

  function TopOf(lane: LaneRef, index: nat, m: Metrics): (real, real) { (LaneX(lane.position, m), RowTop(index, m)) }

  function BottomOf(lane: LaneRef, index: nat, m: Metrics): (real, real) { (LaneX(lane.position, m), Bottom(index, m)) }

  function CircleAt(row: GraphRow, index: nat, m: Metrics): (real, real) {
    (LaneX(row.laneIndex, m), RowCenterY(index, m))
  }

  lemma LaneXInjective(a: nat, b: nat, m: Metrics)
    requires m.laneWidth > 0.0
    ensures LaneX(a, m) == LaneX(b, m) <==> a == b
  {
    if a != b {
      assert (a as real - b as real) * m.laneWidth != 0.0;
    }
  }

  /** Segment `n` carries input lane `n` down from its slot on the top edge: straight to the
      bottom edge when it survives, into the circle when it waited for this commit; then it
      is a straight line in the circle's own slot, and a merge curve from any other. */
  ghost predicate LaneDrawn(row: GraphRow, index: nat, m: Metrics, n: nat, segment: Segment)
    requires n < |row.inputLanes|
  {
    var lane := row.inputLanes[n];
    && segment.shape.Start() == TopOf(lane, index, m)
    && segment.color == lane.color
    && if lane.id == row.id then
         && segment.shape.End() == CircleAt(row, index, m)
         && (segment.shape.Line? <==> lane.position == row.laneIndex)
         && segment.kind == (if lane.position == row.laneIndex then Lane else Merge)
       else segment.shape.End() == BottomOf(lane, index, m) && segment.shape.Line? && segment.kind == Lane
  }

  lemma InputLaneDrawn(row: GraphRow, index: nat, m: Metrics, n: nat)
    requires LaidOut(row) && n < |row.inputLanes| && m.laneWidth > 0.0
    ensures LaneDrawn(row, index, m, n, TopSegment(row, index, m, n))
  {
    hide LaidOut, OutputSlotOf, LaneX, RowTop, RowCenterY, Claims;
    if row.inputLanes[n].id == row.id {
      LaneXInjective(row.inputLanes[n].position, row.laneIndex, m);
    } else {
      ClaimsAreSurvivors(row, n);
      SurvivorClaimsItself(row, n);
    }
  }

  /** Circle edges: one per target, each from the circle to that lane on the bottom edge,
      straight exactly when it stays in the circle's slot, and a branch curve otherwise. */
  ghost predicate EdgeDrawn(row: GraphRow, index: nat, m: Metrics, k: nat, segment: Segment)
    requires k < |row.outputLanes|
  {
    var lane := row.outputLanes[k];
    && segment.shape.Start() == CircleAt(row, index, m)
    && segment.shape.End() == BottomOf(lane, index, m)
    && segment.color == lane.color
    && (segment.shape.Line? <==> lane.position == row.laneIndex)
    && segment.kind == (if lane.position == row.laneIndex then Lane else Branch)
  }

  lemma CircleEdgeDrawn(row: GraphRow, index: nat, m: Metrics, k: nat)
    requires m.laneWidth > 0.0 && k < |row.outputLanes|
    ensures EdgeDrawn(row, index, m, k, CircleEdge(row, index, m, k))
  {
    LaneXInjective(row.outputLanes[k].position, row.laneIndex, m);
    hide LaneX, RowTop, RowCenterY;
  }

  /** A row's picture, piece by piece: `tops` segments for the lanes entering it, then the
      circle's edges, to the slots listed in `targets`. */
  ghost predicate DrawnAs(row: GraphRow, index: nat, m: Metrics, segments: seq<Segment>, targets: seq<nat>) {
    && |segments| == |row.inputLanes| + |targets|
    && (forall n :: 0 <= n < |row.inputLanes| ==> LaneDrawn(row, index, m, n, segments[n]))
    && (forall i, j :: 0 <= i < j < |targets| ==> targets[i] < targets[j])
    && (forall k: nat :: k in targets <==> k < |row.outputLanes| && EdgeTarget(row, row.outputLanes[k]))
    && (forall j :: 0 <= j < |targets| ==>
          targets[j] < |row.outputLanes| && EdgeDrawn(row, index, m, targets[j], segments[|row.inputLanes| + j]))
  }

  /** The circle sits in its lane's column, half way down its row, in the row's colour; the
      segments of the lanes that waited end in it, and the edges to the parents start in it. */
  ghost predicate CircleDrawn(row: GraphRow, index: nat, m: Metrics, picture: RowPicture, targets: seq<nat>) {
    var (circle, segments) := (picture.circle, picture.segments);
    && circle.cx == m.lanePadding + m.radius + row.laneIndex as real * m.laneWidth
    && circle.cy == index as real * m.rowHeight + m.rowHeight / 2.0
    && 2.0 * circle.cy == RowTop(index, m) + Bottom(index, m)
    && circle.color == row.laneColor
    && |segments| == |row.inputLanes| + |targets|
    && (forall n :: 0 <= n < |row.inputLanes| && row.inputLanes[n].id == row.id ==>
          segments[n].shape.End() == (circle.cx, circle.cy))
    && (forall j :: |row.inputLanes| <= j < |segments| ==> segments[j].shape.Start() == (circle.cx, circle.cy))
  }

  ghost function Targets(row: GraphRow): seq<nat> { EdgeSlots(row, AllClaims(row), |row.outputLanes|) }

  lemma PictureDrawnAs(row: GraphRow, index: nat, m: Metrics)
    requires LaidOut(row) && m.laneWidth > 0.0
    ensures DrawnAs(row, index, m, Picture(row, index, m).segments, Targets(row))
    ensures CircleDrawn(row, index, m, Picture(row, index, m), Targets(row))
  {
    SegmentsDrawnAs(row, index, m);
    CircleIsDrawn(row, index, m, Picture(row, index, m), Targets(row));
  }

  lemma CircleIsDrawn(row: GraphRow, index: nat, m: Metrics, picture: RowPicture, targets: seq<nat>)
    requires DrawnAs(row, index, m, picture.segments, targets)
    requires picture.circle == Picture(row, index, m).circle
    ensures CircleDrawn(row, index, m, picture, targets)
  {
    hide EdgeTarget, TopSegments, CircleEdges, Claims, EdgeSlots;
    forall j | |row.inputLanes| <= j < |picture.segments|
      ensures picture.segments[j].shape.Start() == CircleAt(row, index, m)
    {
      assert EdgeDrawn(row, index, m, targets[j - |row.inputLanes|], picture.segments[j]);
    }
    assert forall n :: 0 <= n < |row.inputLanes| ==> LaneDrawn(row, index, m, n, picture.segments[n]);
  }

  lemma SegmentsDrawnAs(row: GraphRow, index: nat, m: Metrics)
    requires LaidOut(row) && m.laneWidth > 0.0
    ensures DrawnAs(row, index, m, Picture(row, index, m).segments, Targets(row))
  {
    hide ParallelAndCompact, CircleInPlace, EdgeOwed, TopSegment, CircleEdge, LaneDrawn, EdgeDrawn, Claims, EdgeSlots, EdgeTarget;
    var segments, targets := Picture(row, index, m).segments, Targets(row);
    forall n | 0 <= n < |row.inputLanes| ensures LaneDrawn(row, index, m, n, segments[n]) {
      InputLaneDrawn(row, index, m, n);
    }
    forall k: nat | k < |row.outputLanes| ensures k in targets <==> EdgeTarget(row, row.outputLanes[k]) {
      EdgeOwedExactly(row, k);
    }
    forall j | 0 <= j < |targets| ensures EdgeDrawn(row, index, m, targets[j], segments[|row.inputLanes| + j]) {
      CircleEdgeDrawn(row, index, m, targets[j]);
    }
  }

  /** Nothing but input lane `n`'s own segment starts where that lane enters the row. */
  lemma OneSegmentPerInputLane(row: GraphRow, index: nat, m: Metrics, segments: seq<Segment>, targets: seq<nat>, n: nat, j: nat)
    requires LaidOut(row) && m.laneWidth > 0.0 && m.rowHeight > 0.0
    requires DrawnAs(row, index, m, segments, targets)
    requires n < |row.inputLanes| && j < |segments|
    ensures segments[j].shape.Start() == TopOf(row.inputLanes[n], index, m) <==> j == n
  {
    hide ParallelAndCompact, CircleInPlace, LaneX;
    if j < |row.inputLanes| {
      LaneXInjective(row.inputLanes[n].position, row.inputLanes[j].position, m);
      assert LaneDrawn(row, index, m, j, segments[j]);
    } else {
      assert EdgeDrawn(row, index, m, targets[j - |row.inputLanes|], segments[j]);
    }
  }

  /** Every output lane is reached on the bottom edge, so the next row's lanes all have a
      line coming down to them... */
  lemma EveryOutputLaneReached(row: GraphRow, index: nat, m: Metrics, segments: seq<Segment>, targets: seq<nat>, k: nat)
    requires LaidOut(row) && DrawnAs(row, index, m, segments, targets) && k < |row.outputLanes|
    ensures exists j :: 0 <= j < |segments| && segments[j].shape.End() == BottomOf(row.outputLanes[k], index, m)
  {
    hide LaneX, CircleInPlace;
    var lane := row.outputLanes[k];
    if Survived(row, lane) {
      var n :| 0 <= n < |row.inputLanes| && row.inputLanes[n] == lane;
      assert LaneDrawn(row, index, m, n, segments[n]);
    } else {
      NewLanesAreTargets(row, lane);
      var j :| 0 <= j < |targets| && targets[j] == k;
      assert EdgeDrawn(row, index, m, k, segments[|row.inputLanes| + j]);
    }
  }

  /** ... and nothing ends on the bottom edge anywhere else. */
  lemma SegmentsEndOnLanes(row: GraphRow, index: nat, m: Metrics, segments: seq<Segment>, targets: seq<nat>, j: nat)
    requires LaidOut(row) && DrawnAs(row, index, m, segments, targets) && j < |segments|
    ensures || (j < |row.inputLanes| && segments[j].shape.End() == CircleAt(row, index, m))
            || exists k :: 0 <= k < |row.outputLanes| && segments[j].shape.End() == BottomOf(row.outputLanes[k], index, m)
  {
    hide LaneX, CircleInPlace;
    if j < |row.inputLanes| {
      assert LaneDrawn(row, index, m, j, segments[j]);
      if row.inputLanes[j].id != row.id {
        assert row.inputLanes[j] in row.outputLanes;
      }
    } else {
      assert EdgeDrawn(row, index, m, targets[j - |row.inputLanes|], segments[j]);
    }
  }

  /** Edge `j` leaves the circle for a lane that waits for `parent`. */
  ghost predicate EdgeTo(row: GraphRow, targets: seq<nat>, parent: CommitId, j: int) {
    0 <= j < |targets| && targets[j] < |row.outputLanes| && row.outputLanes[targets[j]].id == parent
  }

  /** Every parent gets an edge from the circle to a lane waiting for it. */
  lemma EveryParentGetsAnEdge(row: GraphRow, index: nat, m: Metrics, segments: seq<Segment>, targets: seq<nat>, parent: CommitId)
    requires LaidOut(row) && DrawnAs(row, index, m, segments, targets) && parent in row.parentIds
    ensures exists j :: EdgeTo(row, targets, parent, j)
  {
    hide LaneX, CircleInPlace, LaneDrawn, EdgeDrawn;
    var k: nat;
    if parent == row.parentIds[0] {
      assert Followed(row, LaneRef(parent, row.laneColor, row.laneIndex));
      k :| k < |row.outputLanes| && row.outputLanes[k].id == parent && row.outputLanes[k].position == row.laneIndex;
    } else {
      k :| k < |row.outputLanes| && row.outputLanes[k].id == parent;
    }
    assert EdgeTarget(row, row.outputLanes[k]);
    var j :| 0 <= j < |targets| && targets[j] == k;
    assert EdgeTo(row, targets, parent, j);
  }

  /** The first parent gets exactly one edge, and it is straight. */
  lemma FirstParentEdgeIsStraight(row: GraphRow, index: nat, m: Metrics, segments: seq<Segment>, targets: seq<nat>, i: nat, j: nat)
    requires LaidOut(row) && DrawnAs(row, index, m, segments, targets) && row.parentIds != []
    requires EdgeTo(row, targets, row.parentIds[0], i) && EdgeTo(row, targets, row.parentIds[0], j)
    ensures i == j && segments[|row.inputLanes| + j].shape.Line?
  {
    hide LaneX, CircleInPlace, LaneDrawn;
    assert targets[i] in targets && targets[j] in targets;
    assert EdgeDrawn(row, index, m, targets[j], segments[|row.inputLanes| + j]);
    OneLanePerSlot(row.outputLanes, row.outputLanes[targets[i]], row.outputLanes[targets[j]]);
    SlotsOfOneLane(row, targets[i]);
  }

  /** A further parent gets one edge per lane waiting for it: one when at most one lane was
      already waiting, and more than one otherwise. */
  lemma FurtherParentEdges(row: GraphRow, index: nat, m: Metrics, segments: seq<Segment>, targets: seq<nat>, parent: CommitId)
    requires LaidOut(row) && DrawnAs(row, index, m, segments, targets)
    requires parent in row.parentIds && parent != row.parentIds[0]
    ensures (forall i, j :: EdgeTo(row, targets, parent, i) && EdgeTo(row, targets, parent, j) ==> i == j)
            <==> (forall a, b :: AlreadyWaiting(row, parent, a) && AlreadyWaiting(row, parent, b) ==> a == b)
  {
    hide LaneX, CircleInPlace, LaneDrawn, EdgeDrawn;
    if a, b :| AlreadyWaiting(row, parent, a) && AlreadyWaiting(row, parent, b) && a != b {
      var i := EdgeToWaiting(row, index, m, segments, targets, parent, a);
      var j := EdgeToWaiting(row, index, m, segments, targets, parent, b);
    } else {
      forall i, j | EdgeTo(row, targets, parent, i) && EdgeTo(row, targets, parent, j) ensures i == j {
        OneLaneFor(row, parent, row.outputLanes[targets[i]], row.outputLanes[targets[j]]);
        SlotsOfOneLane(row, targets[i]);
      }
    }
  }

  const OCTOPUS := [GraphCommit("a", ["p"], []), GraphCommit("b", ["p"], []), GraphCommit("m", ["x", "p"], [])]

  /** It does happen: two tips with parent p, then a merge with p as a further parent. Both
      of p's lanes get an edge from the merge. */
  lemma TwoEdgesToOneParent(style: LaneStyle, m: Metrics)
    requires style.Usable() && m.laneWidth > 0.0
    ensures var row := Rows(style, [], OCTOPUS)[2];
            && LaidOut(row) && DrawnAs(row, 2, m, Picture(row, 2, m).segments, Targets(row))
            && exists i, j :: EdgeTo(row, Targets(row), "p", i) && EdgeTo(row, Targets(row), "p", j) && i != j
  {
    hide Picture, Targets, DrawnAs, RowFor, ParallelAndCompact, CircleInPlace;
    var rows := Rows(style, [], OCTOPUS);
    EveryRowIsParallel(style, [], OCTOPUS);
    var row := rows[2];
    PictureDrawnAs(row, 2, m);
    var first := LaneRef("p", rows[0].laneColor, rows[0].laneIndex);
    var second := LaneRef("p", rows[1].laneColor, rows[1].laneIndex);
    TwoLanesWait(style);
    FurtherParentEdges(row, 2, m, Picture(row, 2, m).segments, Targets(row), "p");
    assert AlreadyWaiting(row, "p", first) && AlreadyWaiting(row, "p", second);
  }

  lemma TwoLanesWait(style: LaneStyle)
    requires style.Usable()
    ensures var rows := Rows(style, [], OCTOPUS);
            var first, second := LaneRef("p", rows[0].laneColor, rows[0].laneIndex), LaneRef("p", rows[1].laneColor, rows[1].laneIndex);
            && first != second && first in rows[2].inputLanes && second in rows[2].inputLanes
  {
    hide RowFor, Rows, ParallelAndCompact, CircleInPlace;
    EveryRowIsParallel(style, [], OCTOPUS);
    RowsChain(style, [], OCTOPUS, 0);
    RowsChain(style, [], OCTOPUS, 1);
    RowsChain(style, [], OCTOPUS, 2);
    var rows := Rows(style, [], OCTOPUS);
    TwoTipsOfOneParent(rows[0], rows[1]);
  }

  lemma TwoTipsOfOneParent(a: GraphRow, b: GraphRow)
    requires a.inputLanes == [] && a.parentIds == ["p"] && b.id == "b" && b.parentIds == ["p"]
    requires ParallelAndCompact(a) && ParallelAndCompact(b) && CircleInPlace(b) && b.inputLanes == a.outputLanes
    ensures var first, second := LaneRef("p", a.laneColor, a.laneIndex), LaneRef("p", b.laneColor, b.laneIndex);
            first != second && first in b.outputLanes && second in b.outputLanes
  {
    hide ParallelAndCompact;
    var first, second := LaneRef("p", a.laneColor, a.laneIndex), LaneRef("p", b.laneColor, b.laneIndex);
    assert Followed(a, first) && Followed(b, second);
    assert first in a.outputLanes && second in b.outputLanes by { FollowedLeaves(a, first); FollowedLeaves(b, second); }
    SurvivesRow(b, first);
    OnlyWaitsForP(a);
    assert first.position in Slots(b.inputLanes);
  }

  lemma FollowedLeaves(row: GraphRow, lane: LaneRef)
    requires ParallelAndCompact(row) && Followed(row, lane)
    ensures lane in row.outputLanes
  {}

  lemma OnlyWaitsForP(row: GraphRow)
    requires ParallelAndCompact(row) && row.inputLanes == [] && row.parentIds == ["p"]
    ensures !HasTrack(row.outputLanes, "b")
  {
    forall lane | lane in row.outputLanes ensures lane.id == "p" {
      assert Survived(row, lane) || Followed(row, lane) || OpenedIn(row, lane);
    }
  }

  predicate AlreadyWaiting(row: GraphRow, parent: CommitId, lane: LaneRef) {
    Survived(row, lane) && lane.id == parent
  }

  lemma EdgeToWaiting(
    row: GraphRow, index: nat, m: Metrics, segments: seq<Segment>, targets: seq<nat>, parent: CommitId, lane: LaneRef)
    returns (j: nat)
    requires LaidOut(row) && DrawnAs(row, index, m, segments, targets)
    requires parent in row.parentIds && parent != row.parentIds[0] && AlreadyWaiting(row, parent, lane)
    ensures EdgeTo(row, targets, parent, j) && row.outputLanes[targets[j]] == lane
  {
    hide LaneX, CircleInPlace, LaneDrawn, EdgeDrawn;
    assert lane in row.outputLanes;
    var k :| 0 <= k < |row.outputLanes| && row.outputLanes[k] == lane;
    assert EdgeTarget(row, row.outputLanes[k]);
    j :| 0 <= j < |targets| && targets[j] == k;
  }

  lemma OneLaneFor(row: GraphRow, parent: CommitId, a: LaneRef, b: LaneRef)
    requires LaidOut(row) && row.parentIds != [] && parent != row.parentIds[0]
    requires a in row.outputLanes && b in row.outputLanes && a.id == parent == b.id
    requires forall x, y :: AlreadyWaiting(row, parent, x) && AlreadyWaiting(row, parent, y) ==> x == y
    ensures a == b
  {
    if Survived(row, a) && Survived(row, b) {
      assert AlreadyWaiting(row, parent, a) && AlreadyWaiting(row, parent, b);
    } else {
      assert OpenedIn(row, a) || OpenedIn(row, b);
    }
  }

  /** The gutter is exactly wide enough: every lane's circle keeps the padding from both
      edges, and the last one keeps no more than that. */
  lemma GutterHoldsEveryLane(laneCount: nat, m: Metrics, slot: nat)
    requires slot < laneCount && m.laneWidth > 0.0
    ensures m.lanePadding <= LaneX(slot, m) - m.radius
    ensures LaneX(slot, m) + m.radius + m.lanePadding <= GutterWidth(laneCount, m)
    ensures LaneX(slot, m) + m.radius + m.lanePadding == GutterWidth(laneCount, m) <==> slot == laneCount - 1
  {
    assert slot as real * m.laneWidth >= 0.0;
    LaneXInjective(slot, laneCount - 1, m);
    assert (laneCount - 1 - slot) as real * m.laneWidth >= 0.0;
    assert (laneCount - 1) as real * m.laneWidth == slot as real * m.laneWidth + (laneCount - 1 - slot) as real * m.laneWidth;
  }

  // ---------------------------------------------------------------- the whole history

  lemma NextTop(i: nat, m: Metrics)
    ensures RowTop(i + 1, m) == Bottom(i, m)
  {
    assert (i + 1) as real * m.rowHeight == i as real * m.rowHeight + m.rowHeight;
  }

  /** Each row is laid out, its top edge is the bottom edge of the row above, and the lanes
      on both sides of that edge are the same: no line is broken between rows. */
  lemma HistoryIsContinuous(style: LaneStyle, input: seq<LaneRef>, commits: seq<GraphCommit>, m: Metrics, i: nat)
    requires style.Usable() && SortedSlots(input) && i < |commits| && m.laneWidth > 0.0 && m.rowHeight > 0.0
    ensures var rows := Rows(style, input, commits);
            && LaidOut(rows[i])
            && DrawnAs(rows[i], i, m, Picture(rows[i], i, m).segments, Targets(rows[i]))
            && CircleDrawn(rows[i], i, m, Picture(rows[i], i, m), Targets(rows[i]))
            && (i + 1 < |commits| ==> forall k: nat :: k < |rows[i].outputLanes| ==>
                  k < |rows[i + 1].inputLanes|
                  && TopOf(rows[i + 1].inputLanes[k], i + 1, m) == BottomOf(rows[i].outputLanes[k], i, m))
            && (i + 1 < |commits| ==> |rows[i + 1].inputLanes| == |rows[i].outputLanes|)
  {
    hide ParallelAndCompact, CircleInPlace, Rows, DrawnAs, CircleDrawn, Picture, Targets, LaneX, RowTop, Bottom;
    EveryRowIsParallel(style, input, commits);
    var rows := Rows(style, input, commits);
    PictureDrawnAs(rows[i], i, m);
    if i + 1 < |commits| {
      RowsChain(style, input, commits, i + 1);
      NextTop(i, m);
    }
  }
}
