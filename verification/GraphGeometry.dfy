/** The segments one row draws (crates/refyard-graph/src/geometry.rs).

    Pixel coordinates are reals. `Claims`, `TopSegment` and `EdgeSlots` describe the two
    loops of `row_geometry`; what they draw for a laid-out row is PictureContinuity. */
module GraphGeometry {
  import opened Wrappers
  import opened LaneLayout

  datatype Metrics = Metrics(rowHeight: real, laneWidth: real, lanePadding: real, radius: real, lineWidth: real)

  function LaneX(index: nat, m: Metrics): real { m.lanePadding + m.radius + index as real * m.laneWidth }

  function RowTop(index: nat, m: Metrics): real { index as real * m.rowHeight }

  function RowCenterY(index: nat, m: Metrics): real { index as real * m.rowHeight + m.rowHeight / 2.0 }

  function GutterWidth(laneCount: nat, m: Metrics): real {
    LaneX(if laneCount == 0 then 0 else laneCount - 1, m) + m.radius + m.lanePadding
  }

  datatype SegmentShape =
    | Line(x0: real, y0: real, x1: real, y1: real)
    | Curve(x0: real, y0: real, x1: real, y1: real)
  {
    function Start(): (real, real) { (x0, y0) }
    function End(): (real, real) { (x1, y1) }
  }

  /** Straight when the x positions match, the midline curve otherwise. */
  function EdgeShape(x0: real, y0: real, x1: real, y1: real): SegmentShape {
    if x0 == x1 then Line(x0, y0, x1, y1) else Curve(x0, y0, x1, y1)
  }

  datatype SegmentKind = Lane | Merge | Branch
  datatype Segment = Segment(shape: SegmentShape, color: LaneColor, kind: SegmentKind)
  datatype Circle = Circle(cx: real, cy: real, color: LaneColor)
  datatype RowPicture = RowPicture(circle: Circle, segments: seq<Segment>)

  // ---------------------------------------------------------------- which output slot a lane claims

  function StableSlot(out: seq<LaneRef>, lane: LaneRef, claimed: set<nat>, from: nat): (slot: Option<nat>)
    requires from <= |out|
    ensures slot.Some? ==> from <= slot.value < |out| && slot.value !in claimed
                           && out[slot.value].id == lane.id && out[slot.value].position == lane.position
    ensures slot.None? ==> forall k :: from <= k < |out| && k !in claimed ==>
                             !(out[k].id == lane.id && out[k].position == lane.position)
    decreases |out| - from
  {
    if from == |out| then None
    else if out[from].id == lane.id && out[from].position == lane.position && from !in claimed then Some(from)
    else StableSlot(out, lane, claimed, from + 1)
  }

  function ShiftedSlot(out: seq<LaneRef>, lane: LaneRef, claimed: set<nat>, from: nat): (slot: Option<nat>)
    requires from <= |out|
    ensures slot.Some? ==> from <= slot.value < |out| && slot.value !in claimed && out[slot.value].id == lane.id
    ensures slot.None? ==> forall k :: from <= k < |out| && k !in claimed ==> out[k].id != lane.id
    decreases |out| - from
  {
    if from == |out| then None
    else if out[from].id == lane.id && from !in claimed then Some(from)
    else ShiftedSlot(out, lane, claimed, from + 1)
  }

  /** First the same id on the same slot, then the same id on any unclaimed slot. */
  function OutputSlotOf(row: GraphRow, lane: LaneRef, claimed: set<nat>): (slot: Option<nat>)
    ensures slot.Some? ==> slot.value < |row.outputLanes|
  {
    var stable := StableSlot(row.outputLanes, lane, claimed, 0);
    if stable.Some? then stable else ShiftedSlot(row.outputLanes, lane, claimed, 0)
  }

  /** The output slots the first `n` input lanes claim. */
  function Claims(row: GraphRow, n: nat): set<nat>
    requires n <= |row.inputLanes|
  {
    if n == 0 then {}
    else
      var before := Claims(row, n - 1);
      var lane := row.inputLanes[n - 1];
      var slot := OutputSlotOf(row, lane, before);
      if lane.id == row.id || slot.None? then before else before + {slot.value}
  }

  function TopSegment(row: GraphRow, index: nat, m: Metrics, n: nat): Segment
    requires n < |row.inputLanes|
  {
    var lane := row.inputLanes[n];
    var x, top, cx := LaneX(lane.position, m), RowTop(index, m), LaneX(row.laneIndex, m);
    var bottom := top + m.rowHeight;
    if lane.id == row.id then
      Segment(EdgeShape(x, top, cx, RowCenterY(index, m)), lane.color, if x == cx then Lane else Merge)
    else
      var slot := OutputSlotOf(row, lane, Claims(row, n));
      if slot.None? then Segment(EdgeShape(x, top, x, bottom), lane.color, Lane)
      else
        var xOut := LaneX(row.outputLanes[slot.value].position, m);
        Segment(EdgeShape(x, top, xOut, bottom), lane.color, if xOut == x then Lane else Merge)
  }

  function TopSegments(row: GraphRow, index: nat, m: Metrics, n: nat): (segments: seq<Segment>)
    requires n <= |row.inputLanes|
    ensures |segments| == n && forall i :: 0 <= i < n ==> segments[i] == TopSegment(row, index, m, i)
  {
    if n == 0 then [] else TopSegments(row, index, m, n - 1) + [TopSegment(row, index, m, n - 1)]
  }

  // ---------------------------------------------------------------- edges leaving the circle

  predicate UnclaimedTwin(out: seq<LaneRef>, claimed: set<nat>, id: CommitId) {
    exists k :: 0 <= k < |out| && out[k].id == id && k !in claimed
  }

  predicate EdgeOwed(row: GraphRow, claimed: set<nat>, slot: nat)
    requires slot < |row.outputLanes|
  {
    var id := row.outputLanes[slot].id;
    !(slot in claimed && (id !in row.parentIds || UnclaimedTwin(row.outputLanes, claimed, id)))
  }

  /** The output slots, in order, that get an edge from the circle. */
  function EdgeSlots(row: GraphRow, claimed: set<nat>, n: nat): (slots: seq<nat>)
    requires n <= |row.outputLanes|
    ensures forall slot: nat :: slot in slots <==> slot < n && EdgeOwed(row, claimed, slot)
    ensures forall i :: 0 <= i < |slots| ==> slots[i] < n
    ensures forall i, j :: 0 <= i < j < |slots| ==> slots[i] < slots[j]
  {
    if n == 0 then []
    else if EdgeOwed(row, claimed, n - 1) then EdgeSlots(row, claimed, n - 1) + [n - 1]
    else EdgeSlots(row, claimed, n - 1)
  }

  function CircleEdge(row: GraphRow, index: nat, m: Metrics, slot: nat): Segment
    requires slot < |row.outputLanes|
  {
    var lane := row.outputLanes[slot];
    var x, cx := LaneX(lane.position, m), LaneX(row.laneIndex, m);
    Segment(EdgeShape(cx, RowCenterY(index, m), x, RowTop(index, m) + m.rowHeight), lane.color,
            if x == cx then Lane else Branch)
  }

  function CircleEdges(row: GraphRow, index: nat, m: Metrics, slots: seq<nat>): (segments: seq<Segment>)
    requires forall i :: 0 <= i < |slots| ==> slots[i] < |row.outputLanes|
    ensures |segments| == |slots|
    ensures forall i :: 0 <= i < |slots| ==> segments[i] == CircleEdge(row, index, m, slots[i])
  {
    if slots == [] then []
    else
      CircleEdges(row, index, m, slots[..|slots| - 1]) + [CircleEdge(row, index, m, slots[|slots| - 1])]
  }

  function Picture(row: GraphRow, index: nat, m: Metrics): RowPicture {
    var claimed := Claims(row, |row.inputLanes|);
    RowPicture(Circle(LaneX(row.laneIndex, m), RowCenterY(index, m), row.laneColor),
               TopSegments(row, index, m, |row.inputLanes|)
               + CircleEdges(row, index, m, EdgeSlots(row, claimed, |row.outputLanes|)))
  }

  /** The loop over the lanes entering the row. */
  method DrawTops(row: GraphRow, index: nat, m: Metrics) returns (segments: seq<Segment>, claimed: set<nat>)
    ensures segments == TopSegments(row, index, m, |row.inputLanes|)
    ensures claimed == Claims(row, |row.inputLanes|)
  {
    hide StableSlot, ShiftedSlot, OutputSlotOf, RowCenterY;
    var cx, cy, top := LaneX(row.laneIndex, m), RowCenterY(index, m), RowTop(index, m);
    var bottom := top + m.rowHeight;
    segments, claimed := [], {};
    var n := 0;
    while n < |row.inputLanes|
      invariant 0 <= n <= |row.inputLanes|
      invariant claimed == Claims(row, n)
      invariant segments == TopSegments(row, index, m, n)
    {
      var lane := row.inputLanes[n];
      var x := LaneX(lane.position, m);
      if lane.id == row.id {
        segments := segments + [Segment(EdgeShape(x, top, cx, cy), lane.color, if x == cx then Lane else Merge)];
      } else {
        var slot := OutputSlotOf(row, lane, claimed);
        if slot.None? {
          segments := segments + [Segment(EdgeShape(x, top, x, bottom), lane.color, Lane)];
        } else {
          claimed := claimed + {slot.value};
          var xOut := LaneX(row.outputLanes[slot.value].position, m);
          segments := segments + [Segment(EdgeShape(x, top, xOut, bottom), lane.color, if xOut == x then Lane else Merge)];
        }
      }
      n := n + 1;
    }
  }

  lemma CircleEdgesSnoc(row: GraphRow, index: nat, m: Metrics, slots: seq<nat>, slot: nat)
    requires forall i :: 0 <= i < |slots| ==> slots[i] < |row.outputLanes|
    requires slot < |row.outputLanes|
    ensures CircleEdges(row, index, m, slots + [slot]) == CircleEdges(row, index, m, slots) + [CircleEdge(row, index, m, slot)]
  {
    hide CircleEdge;
    assert (slots + [slot])[..|slots|] == slots;
  }

  /** The loop over the lanes leaving the row. */
  method DrawEdges(row: GraphRow, index: nat, m: Metrics, claimed: set<nat>) returns (segments: seq<Segment>)
    ensures segments == CircleEdges(row, index, m, EdgeSlots(row, claimed, |row.outputLanes|))
  {
    hide EdgeOwed, CircleEdges, LaneX, RowCenterY, RowTop, EdgeShape;
    var cx, cy, bottom := LaneX(row.laneIndex, m), RowCenterY(index, m), RowTop(index, m) + m.rowHeight;
    segments := [];
    var slot := 0;
    while slot < |row.outputLanes|
      invariant 0 <= slot <= |row.outputLanes|
      invariant segments == CircleEdges(row, index, m, EdgeSlots(row, claimed, slot))
    {
      var lane := row.outputLanes[slot];
      if EdgeOwed(row, claimed, slot) {
        var x := LaneX(lane.position, m);
        CircleEdgesSnoc(row, index, m, EdgeSlots(row, claimed, slot), slot);
        segments := segments + [Segment(EdgeShape(cx, cy, x, bottom), lane.color, if x == cx then Lane else Branch)];
      }
      slot := slot + 1;
    }
  }

  /** `row_geometry`. */
  method RowGeometry(row: GraphRow, index: nat, m: Metrics) returns (picture: RowPicture)
    ensures picture == Picture(row, index, m)
  {
    var tops, claimed := DrawTops(row, index, m);
    var edges := DrawEdges(row, index, m, claimed);
    picture := RowPicture(Circle(LaneX(row.laneIndex, m), RowCenterY(index, m), row.laneColor), tops + edges);
  }
}
