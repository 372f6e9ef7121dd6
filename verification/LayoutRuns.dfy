/** What lane layout promises: of one row, and of whole histories of any length. */
module LayoutRuns {
  import opened Wrappers
  import opened LaneLayout

  // ---------------------------------------------------------------- slots

  lemma {:induction false} InitialSegmentSize(occupied: set<nat>, n: nat)
    requires forall q: nat :: q < n ==> q in occupied
    ensures n <= |occupied|
    decreases n
  {
    if n > 0 {
      InitialSegmentSize(occupied - {n - 1}, n - 1);
    }
  }

  /** The free-slot search never goes past the number of occupied slots. */
  lemma FirstFreeBound(occupied: set<nat>)
    ensures FirstFree(occupied, 0) <= |occupied|
  {
    InitialSegmentSize(occupied, FirstFree(occupied, 0));
  }

  lemma {:induction false} SlotsSize(lanes: seq<LaneRef>)
    ensures |Slots(lanes)| <= |lanes|
    decreases |lanes|
  {
    if lanes != [] {
      SlotsSize(lanes[1..]);
      assert lanes == [lanes[0]] + lanes[1..];
      assert Slots(lanes) == {lanes[0].position} + Slots(lanes[1..]);
    }
  }

  lemma {:induction false} SurvivorFacts(lanes: seq<LaneRef>, id: CommitId)
    ensures forall lane :: lane in Survivors(lanes, id) <==> lane in lanes && lane.id != id
    ensures |Survivors(lanes, id)| <= |lanes|
    decreases |lanes|
  {
    if lanes != [] {
      SurvivorFacts(lanes[1..], id);
      assert lanes == [lanes[0]] + lanes[1..];
    }
  }

  lemma {:induction false} SurvivorsSorted(lanes: seq<LaneRef>, id: CommitId)
    requires SortedSlots(lanes)
    ensures SortedSlots(Survivors(lanes, id))
    decreases |lanes|
  {
    if lanes != [] {
      SurvivorsSorted(lanes[1..], id);
      SurvivorFacts(lanes[1..], id);
      SortedCons(lanes[0], Survivors(lanes[1..], id));
    }
  }

  lemma SortedCons(lane: LaneRef, lanes: seq<LaneRef>)
    ensures SortedSlots(lanes) && (forall l :: l in lanes ==> lane.position < l.position) ==> SortedSlots([lane] + lanes)
  {}

  lemma {:induction false} InsertFacts(lane: LaneRef, lanes: seq<LaneRef>)
    ensures |InsertLane(lane, lanes)| == |lanes| + 1
    ensures forall l :: l in InsertLane(lane, lanes) <==> l == lane || l in lanes
    ensures SortedSlots(lanes) && lane.position !in Slots(lanes) ==> SortedSlots(InsertLane(lane, lanes))
    decreases |lanes|
  {
    if lanes != [] && lane.position >= lanes[0].position {
      InsertFacts(lane, lanes[1..]);
      assert lanes[0] in lanes;
      SortedCons(lanes[0], InsertLane(lane, lanes[1..]));
    }
  }

  lemma {:induction false} SortFacts(lanes: seq<LaneRef>)
    ensures |SortLanes(lanes)| == |lanes|
    ensures forall lane :: lane in SortLanes(lanes) <==> lane in lanes
    ensures DistinctSlots(lanes) ==> SortedSlots(SortLanes(lanes))
    decreases |lanes|
  {
    if lanes != [] {
      var init, last := lanes[..|lanes| - 1], lanes[|lanes| - 1];
      SortFacts(init);
      InsertFacts(last, SortLanes(init));
      assert lanes == init + [last];
      if DistinctSlots(lanes) {
        assert DistinctSlots(init);
        assert last.position !in Slots(SortLanes(init));
      }
    }
  }

  lemma OneLanePerSlot(lanes: seq<LaneRef>, a: LaneRef, b: LaneRef)
    requires SortedSlots(lanes) && a in lanes && b in lanes && a.position == b.position
    ensures a == b
  {
    var i :| 0 <= i < |lanes| && lanes[i] == a;
    var j :| 0 <= j < |lanes| && lanes[j] == b;
  }

  // How opening tracks for further parents extends a list of lanes. Each part is proved
  // on its own along the recursion of `OpenParents`.

  predicate Prefixed(lanes: seq<LaneRef>, all: seq<LaneRef>) {
    |lanes| <= |all| && all[..|lanes|] == lanes
  }

  lemma {:induction false} OpenedKeepsPrefix(lanes: seq<LaneRef>, occupied: set<nat>, parents: seq<CommitId>, palette: seq<LaneColor>)
    requires |palette| > 0
    ensures Prefixed(lanes, OpenParents(lanes, occupied, parents, palette))
    decreases |parents|
  {
    if parents != [] {
      if HasTrack(lanes, parents[0]) {
        OpenedKeepsPrefix(lanes, occupied, parents[1..], palette);
      } else {
        var slot := FirstFree(occupied, 0);
        var more := lanes + [LaneRef(parents[0], ColorAt(palette, slot), slot)];
        OpenedKeepsPrefix(more, occupied + {slot}, parents[1..], palette);
        var all := OpenParents(more, occupied + {slot}, parents[1..], palette);
        assert all[..|lanes|] == all[..|more|][..|lanes|];
      }
    }
  }

  /** New slots are free ones, all different, and within reach of the occupied count. */
  predicate FreshSlots(lanes: seq<LaneRef>, occupied: set<nat>, all: seq<LaneRef>) {
    && DistinctSlots(all)
    && (forall i :: |lanes| <= i < |all| ==>
          all[i].position !in occupied && all[i].position <= |occupied| + (i - |lanes|))
  }

  lemma OneMoreSlot(lanes: seq<LaneRef>, lane: LaneRef, occupied: set<nat>)
    requires DistinctSlots(lanes) && Slots(lanes) <= occupied && lane.position !in occupied
    ensures DistinctSlots(lanes + [lane]) && Slots(lanes + [lane]) <= occupied + {lane.position}
  {
    assert forall i :: 0 <= i < |lanes| ==> lanes[i].position in Slots(lanes);
  }

  lemma {:induction false} OpenedSlots(lanes: seq<LaneRef>, occupied: set<nat>, parents: seq<CommitId>, palette: seq<LaneColor>)
    requires |palette| > 0 && DistinctSlots(lanes) && Slots(lanes) <= occupied
    ensures FreshSlots(lanes, occupied, OpenParents(lanes, occupied, parents, palette))
    ensures |OpenParents(lanes, occupied, parents, palette)| <= |lanes| + |parents|
    decreases |parents|
  {
    hide Slots, DistinctSlots, HasTrack, ColorAt;
    if parents != [] {
      if HasTrack(lanes, parents[0]) {
        OpenedSlots(lanes, occupied, parents[1..], palette);
      } else {
        var slot := FirstFree(occupied, 0);
        var more := lanes + [LaneRef(parents[0], ColorAt(palette, slot), slot)];
        OneMoreSlot(lanes, LaneRef(parents[0], ColorAt(palette, slot), slot), occupied);
        FirstFreeBound(occupied);
        OpenedSlots(more, occupied + {slot}, parents[1..], palette);
        OpenedKeepsPrefix(more, occupied + {slot}, parents[1..], palette);
        var all := OpenParents(more, occupied + {slot}, parents[1..], palette);
        assert all[|lanes|] == all[..|more|][|lanes|];
        assert |occupied + {slot}| == |occupied| + 1;
      }
    }
  }

  /** A new track waits for one of the parents, and for none that already had a track. */
  predicate FreshIds(lanes: seq<LaneRef>, parents: seq<CommitId>, all: seq<LaneRef>) {
    && (forall i :: |lanes| <= i < |all| ==> all[i].id in parents)
    && (forall i, j :: |lanes| <= i < |all| && 0 <= j < i ==> all[j].id != all[i].id)
    && (forall p :: p in parents ==> HasTrack(all, p))
  }

  lemma {:induction false} OpenedIds(lanes: seq<LaneRef>, occupied: set<nat>, parents: seq<CommitId>, palette: seq<LaneColor>)
    requires |palette| > 0
    ensures FreshIds(lanes, parents, OpenParents(lanes, occupied, parents, palette))
    decreases |parents|
  {
    hide OpenParents, FreshIds, FirstFree, ColorAt, HasTrack, Prefixed;
    if parents == [] {
      NothingOpened(lanes, occupied, palette);
    } else if HasTrack(lanes, parents[0]) {
      OpenStep(lanes, occupied, parents, palette);
      OpenedIds(lanes, occupied, parents[1..], palette);
      OpenedKeepsPrefix(lanes, occupied, parents[1..], palette);
      JoinedIds(lanes, parents, OpenParents(lanes, occupied, parents[1..], palette));
    } else {
      var slot := FirstFree(occupied, 0);
      var lane := LaneRef(parents[0], ColorAt(palette, slot), slot);
      OpenStep(lanes, occupied, parents, palette);
      OpenedIds(lanes + [lane], occupied + {slot}, parents[1..], palette);
      OpenedKeepsPrefix(lanes + [lane], occupied + {slot}, parents[1..], palette);
      NewIds(lanes, lane, parents, OpenParents(lanes + [lane], occupied + {slot}, parents[1..], palette));
    }
  }

  lemma NothingOpened(lanes: seq<LaneRef>, occupied: set<nat>, palette: seq<LaneColor>)
    requires |palette| > 0
    ensures OpenParents(lanes, occupied, [], palette) == lanes && FreshIds(lanes, [], lanes)
  {}

  lemma OpenStep(lanes: seq<LaneRef>, occupied: set<nat>, parents: seq<CommitId>, palette: seq<LaneColor>)
    requires |palette| > 0 && parents != []
    ensures var slot := FirstFree(occupied, 0);
            OpenParents(lanes, occupied, parents, palette)
            == if HasTrack(lanes, parents[0]) then OpenParents(lanes, occupied, parents[1..], palette)
               else OpenParents(lanes + [LaneRef(parents[0], ColorAt(palette, slot), slot)], occupied + {slot}, parents[1..], palette)
  {
    hide HasTrack, ColorAt;
  }

  lemma JoinedIds(lanes: seq<LaneRef>, parents: seq<CommitId>, all: seq<LaneRef>)
    requires parents != [] && HasTrack(lanes, parents[0]) && Prefixed(lanes, all) && FreshIds(lanes, parents[1..], all)
    ensures FreshIds(lanes, parents, all)
  {
    var k :| 0 <= k < |lanes| && lanes[k].id == parents[0];
    assert all[k] == all[..|lanes|][k];
    assert HasTrack(all, parents[0]);
    assert forall p :: p in parents <==> p == parents[0] || p in parents[1..];
  }

  lemma NewIds(lanes: seq<LaneRef>, lane: LaneRef, parents: seq<CommitId>, all: seq<LaneRef>)
    requires parents != [] && !HasTrack(lanes, parents[0]) && lane.id == parents[0]
    requires Prefixed(lanes + [lane], all) && FreshIds(lanes + [lane], parents[1..], all)
    ensures FreshIds(lanes, parents, all)
  {
    var more := lanes + [lane];
    assert forall i :: 0 <= i < |more| ==> all[i] == all[..|more|][i] == more[i];
    assert all[|lanes|].id == parents[0];
    assert HasTrack(all, parents[0]);
    assert forall p :: p in parents <==> p == parents[0] || p in parents[1..];
    assert forall j :: 0 <= j < |lanes| ==> lanes[j].id != parents[0];
  }

  /** No free slot is skipped: below a new slot everything is occupied or opened. */
  predicate NoGaps(lanes: seq<LaneRef>, occupied: set<nat>, all: seq<LaneRef>) {
    forall i, q: nat :: |lanes| <= i < |all| && q < all[i].position ==> q in occupied || q in Slots(all)
  }

  lemma {:induction false} OpenedNoGaps(lanes: seq<LaneRef>, occupied: set<nat>, parents: seq<CommitId>, palette: seq<LaneColor>)
    requires |palette| > 0
    ensures NoGaps(lanes, occupied, OpenParents(lanes, occupied, parents, palette))
    decreases |parents|
  {
    if parents != [] {
      if HasTrack(lanes, parents[0]) {
        OpenedNoGaps(lanes, occupied, parents[1..], palette);
      } else {
        var slot := FirstFree(occupied, 0);
        var more := lanes + [LaneRef(parents[0], ColorAt(palette, slot), slot)];
        OpenedNoGaps(more, occupied + {slot}, parents[1..], palette);
        OpenedKeepsPrefix(more, occupied + {slot}, parents[1..], palette);
        var all := OpenParents(more, occupied + {slot}, parents[1..], palette);
        assert all[|lanes|] == all[..|more|][|lanes|] && all[|lanes|] in all;
      }
    }
  }

  // ---------------------------------------------------------------- one row

  lemma ContinuedSlots(style: LaneStyle, input: seq<LaneRef>, commit: GraphCommit)
    requires style.Usable() && SortedSlots(input)
    ensures DistinctSlots(Continued(style, input, commit))
    ensures Slots(Continued(style, input, commit)) <= Slots(input) + {LaneIndexFor(input, commit.id)}
  {
    hide RowColor;
    var kept := Survivors(input, commit.id);
    SurvivorFacts(input, commit.id);
    SurvivorsSorted(input, commit.id);
    CircleSlotIsNoSurvivor(input, commit.id);
    var lanes := Continued(style, input, commit);
    forall i, j | 0 <= i < j < |lanes| ensures lanes[i].position != lanes[j].position {
      assert kept[i] in kept;
    }
  }

  /** The unsorted output of a row. */
  lemma OpenedShape(style: LaneStyle, input: seq<LaneRef>, commit: GraphCommit)
    requires style.Usable() && SortedSlots(input)
    ensures var lanes, all := Continued(style, input, commit), Opened(style, input, commit);
            var occupied := Slots(input) + {LaneIndexFor(input, commit.id)};
            && Prefixed(lanes, all) && FreshSlots(lanes, occupied, all) && NoGaps(lanes, occupied, all)
            && FreshIds(lanes, ExtraParents(commit), all) && |all| <= |lanes| + |ExtraParents(commit)|
  {
    hide RowColor, OpenParents, FreshSlots, FreshIds, NoGaps, Prefixed, Continued, LaneIndexFor;
    var lanes := Continued(style, input, commit);
    var occupied := Slots(input) + {LaneIndexFor(input, commit.id)};
    ContinuedSlots(style, input, commit);
    OpenedKeepsPrefix(lanes, occupied, ExtraParents(commit), style.Palette());
    OpenedSlots(lanes, occupied, ExtraParents(commit), style.Palette());
    OpenedIds(lanes, occupied, ExtraParents(commit), style.Palette());
    OpenedNoGaps(lanes, occupied, ExtraParents(commit), style.Palette());
  }

  lemma CircleSlotIsNoSurvivor(input: seq<LaneRef>, id: CommitId)
    requires SortedSlots(input)
    ensures forall lane :: lane in Survivors(input, id) ==> lane.position != LaneIndexFor(input, id)
  {
    SurvivorFacts(input, id);
    AwaitedIsALane(input, id);
    forall lane | lane in Survivors(input, id) ensures lane.position != LaneIndexFor(input, id) {
      assert lane.position in Slots(input);
      if Awaited(input, id).Some? {
        var i :| 0 <= i < |input| && input[i] == lane;
        var j :| 0 <= j < |input| && input[j] == Awaited(input, id).value;
      }
    }
  }

  /** The three origins of an output lane. */
  predicate Survived(row: GraphRow, lane: LaneRef) { lane in row.inputLanes && lane.id != row.id }

  predicate Followed(row: GraphRow, lane: LaneRef) {
    row.parentIds != [] && lane == LaneRef(row.parentIds[0], row.laneColor, row.laneIndex)
  }

  ghost predicate OpenedIn(row: GraphRow, lane: LaneRef) {
    && row.parentIds != [] && lane.id in row.parentIds[1..]
    && lane.position !in Slots(row.inputLanes) && lane.position != row.laneIndex
    && (forall other :: other in row.outputLanes && other.id == lane.id ==> other == lane)
    && (forall q: nat :: q < lane.position ==>
          q in Slots(row.inputLanes) || q == row.laneIndex || q in Slots(row.outputLanes))
  }

  /** Surviving lanes keep id, colour and slot; the first parent follows the circle's slot;
      any other lane leaving the row was opened for a parent without a track, in a slot no
      track entering the row held, and no free slot was skipped. */
  ghost predicate ParallelAndCompact(row: GraphRow) {
    && SortedSlots(row.outputLanes)
    && (forall lane :: lane in row.inputLanes && lane.id != row.id ==> lane in row.outputLanes)
    && (forall lane :: Followed(row, lane) ==> lane in row.outputLanes)
    && (forall lane :: lane in row.outputLanes ==> Survived(row, lane) || Followed(row, lane) || OpenedIn(row, lane))
    && (forall p :: p in row.parentIds ==> HasTrack(row.outputLanes, p))
  }

  /** The circle sits in the leftmost waiting slot, or else in the smallest free one. */
  ghost predicate CircleInPlace(row: GraphRow) {
    if HasTrack(row.inputLanes, row.id) then
      && (exists lane :: lane in row.inputLanes && lane.id == row.id && lane.position == row.laneIndex)
      && (forall lane :: lane in row.inputLanes && lane.id == row.id ==> row.laneIndex <= lane.position)
    else
      && row.laneIndex !in Slots(row.inputLanes)
      && (forall q: nat :: q < row.laneIndex ==> q in Slots(row.inputLanes))
  }

  lemma ContinuedLane(style: LaneStyle, input: seq<LaneRef>, commit: GraphCommit, lane: LaneRef)
    requires style.Usable() && SortedSlots(input)
    ensures var row := RowFor(style, input, commit);
            lane in Continued(style, input, commit) <==> Survived(row, lane) || Followed(row, lane)
  {
    hide RowColor, LaneIndexFor, Opened, SortLanes;
    SurvivorFacts(input, commit.id);
  }

  lemma OutputOrigins(style: LaneStyle, input: seq<LaneRef>, commit: GraphCommit, lane: LaneRef)
    requires style.Usable() && SortedSlots(input)
    ensures var row := RowFor(style, input, commit);
            && (Survived(row, lane) || Followed(row, lane) ==> lane in row.outputLanes)
            && (lane in row.outputLanes ==> Survived(row, lane) || Followed(row, lane) || OpenedIn(row, lane))
  {
    hide RowColor, FreshIds, FreshSlots, NoGaps, LaneIndexFor, Continued, Opened, Survived, Followed, OpenedIn, SortedSlots;
    var row := RowFor(style, input, commit);
    var lanes, all := Continued(style, input, commit), Opened(style, input, commit);
    OpenedShape(style, input, commit);
    SortFacts(all);
    ContinuedLane(style, input, commit, lane);
    if lane in lanes {
      var i :| 0 <= i < |lanes| && lanes[i] == lane;
      assert all[i] == all[..|lanes|][i];
    } else if lane in row.outputLanes {
      var i :| 0 <= i < |all| && all[i] == lane;
      assert forall k :: 0 <= k < |lanes| ==> all[k] == all[..|lanes|][k] == lanes[k];
      NewLane(style, input, commit, i);
    }
  }

  lemma NewLane(style: LaneStyle, input: seq<LaneRef>, commit: GraphCommit, i: nat)
    requires style.Usable() && SortedSlots(input)
    requires |Continued(style, input, commit)| <= i < |Opened(style, input, commit)|
    ensures OpenedIn(RowFor(style, input, commit), Opened(style, input, commit)[i])
  {
    hide RowColor, OpenParents, Continued, LaneIndexFor, Opened, SortedSlots, Prefixed;
    var lanes, all := Continued(style, input, commit), Opened(style, input, commit);
    var row := RowFor(style, input, commit);
    OpenedShape(style, input, commit);
    SortFacts(all);
    NewTrackIsAlone(lanes, ExtraParents(commit), all, row.outputLanes, i);
    NoSlotSkipped(lanes, Slots(input) + {row.laneIndex}, all, row.outputLanes, i);
  }

  lemma NewTrackIsAlone(lanes: seq<LaneRef>, parents: seq<CommitId>, all: seq<LaneRef>, out: seq<LaneRef>, i: nat)
    requires FreshIds(lanes, parents, all) && |lanes| <= i < |all|
    requires forall lane :: lane in out <==> lane in all
    ensures forall other :: other in out && other.id == all[i].id ==> other == all[i]
  {
    forall other | other in out && other.id == all[i].id ensures other == all[i] {
      var j :| 0 <= j < |all| && all[j] == other;
    }
  }

  lemma NoSlotSkipped(lanes: seq<LaneRef>, occupied: set<nat>, all: seq<LaneRef>, out: seq<LaneRef>, i: nat)
    requires NoGaps(lanes, occupied, all) && |lanes| <= i < |all|
    requires forall lane :: lane in out <==> lane in all
    ensures forall q: nat :: q < all[i].position ==> q in occupied || q in Slots(out)
  {
    assert Slots(all) == Slots(out);
  }

  /** Tracks stay parallel and compact, for every row laid out below sorted lanes. */
  lemma TracksStayParallel(style: LaneStyle, input: seq<LaneRef>, commit: GraphCommit)
    requires style.Usable() && SortedSlots(input)
    ensures ParallelAndCompact(RowFor(style, input, commit))
    ensures CircleInPlace(RowFor(style, input, commit))
  {
    hide RowColor, OpenParents, FreshSlots, NoGaps, Continued, OpenedIn;
    var row := RowFor(style, input, commit);
    OpenedShape(style, input, commit);
    SortFacts(Opened(style, input, commit));
    forall lane ensures Survived(row, lane) || Followed(row, lane) ==> lane in row.outputLanes
    ensures lane in row.outputLanes ==> Survived(row, lane) || Followed(row, lane) || OpenedIn(row, lane)
    {
      OutputOrigins(style, input, commit, lane);
    }
    ParentsTracked(style, input, commit);
    CircleFound(style, input, commit);
  }

  lemma SurvivesRow(row: GraphRow, lane: LaneRef)
    requires ParallelAndCompact(row) && lane in row.inputLanes && lane.id != row.id
    ensures lane in row.outputLanes
  {}

  lemma NoneWaitsForItself(row: GraphRow)
    requires ParallelAndCompact(row) && row.id !in row.parentIds
    ensures !HasTrack(row.outputLanes, row.id)
  {
    forall i | 0 <= i < |row.outputLanes| ensures row.outputLanes[i].id != row.id {
      assert row.outputLanes[i] in row.outputLanes;
    }
  }

  lemma ParentsTracked(style: LaneStyle, input: seq<LaneRef>, commit: GraphCommit)
    requires style.Usable() && SortedSlots(input)
    ensures forall p :: p in commit.parentIds ==> HasTrack(RowFor(style, input, commit).outputLanes, p)
    ensures SortedSlots(RowFor(style, input, commit).outputLanes)
  {
    hide RowColor, OpenParents, NoGaps, LaneIndexFor, Continued, Opened, SortLanes, HasTrack;
    var all := Opened(style, input, commit);
    OpenedShape(style, input, commit);
    SortFacts(all);
    forall p | p in commit.parentIds ensures HasTrack(SortLanes(all), p) {
      if p == commit.parentIds[0] {
        FirstParentContinued(style, input, commit);
      } else {
        assert p in ExtraParents(commit);
      }
      TrackKept(all, SortLanes(all), p);
    }
  }

  lemma FirstParentContinued(style: LaneStyle, input: seq<LaneRef>, commit: GraphCommit)
    requires style.Usable() && commit.parentIds != []
    requires Prefixed(Continued(style, input, commit), Opened(style, input, commit))
    ensures HasTrack(Opened(style, input, commit), commit.parentIds[0])
  {
    hide RowColor, LaneIndexFor, Survivors, Opened;
    var lanes, all := Continued(style, input, commit), Opened(style, input, commit);
    assert all[|lanes| - 1] == all[..|lanes|][|lanes| - 1];
  }

  lemma TrackKept(a: seq<LaneRef>, b: seq<LaneRef>, id: CommitId)
    requires HasTrack(a, id) && forall lane :: lane in a ==> lane in b
    ensures HasTrack(b, id)
  {
    var i :| 0 <= i < |a| && a[i].id == id;
    assert a[i] in b;
  }

  lemma CircleFound(style: LaneStyle, input: seq<LaneRef>, commit: GraphCommit)
    requires style.Usable() && SortedSlots(input)
    ensures CircleInPlace(RowFor(style, input, commit))
  {
    hide RowColor, Opened, SortLanes;
    AwaitedIsALane(input, commit.id);
  }

  // ---------------------------------------------------------------- whole runs

  /** Every row of a page starts from the lanes the row above ended with, and each one is
      laid out by `RowFor`. */
  lemma {:induction false} RowsChain(style: LaneStyle, input: seq<LaneRef>, commits: seq<GraphCommit>, k: nat)
    requires style.Usable() && k < |commits|
    ensures var rows := Rows(style, input, commits);
            && rows[k] == RowFor(style, LastLanes(input, rows[..k]), commits[k])
            && rows[..k] == Rows(style, input, commits[..k])
            && rows[k].inputLanes == (if k == 0 then input else rows[k - 1].outputLanes)
  {
    hide RowFor;
    var rest := commits[k..];
    assert commits == commits[..k] + rest;
    RowsConcat(style, input, commits[..k], rest);
    var before := Rows(style, input, commits[..k]);
    RowInput(style, LastLanes(input, before), rest[0]);
  }

  lemma RowInput(style: LaneStyle, input: seq<LaneRef>, commit: GraphCommit)
    requires style.Usable()
    ensures RowFor(style, input, commit).inputLanes == input
    ensures RowFor(style, input, commit).id == commit.id
    ensures RowFor(style, input, commit).parentIds == commit.parentIds
    ensures RowFor(style, input, commit).refNames == commit.refNames
    ensures RowFor(style, input, commit).isMerge <==> |commit.parentIds| >= 2
    ensures RowFor(style, input, commit).isRoot <==> |commit.parentIds| == 0
  {
    hide Opened, RowColor, LaneIndexFor;
  }

  /** The invariant of a whole run, over any number of commits. */
  lemma {:induction false} EveryRowIsParallel(style: LaneStyle, input: seq<LaneRef>, commits: seq<GraphCommit>)
    requires style.Usable() && SortedSlots(input)
    ensures var rows := Rows(style, input, commits);
            && (forall k :: 0 <= k < |rows| ==>
                  && SortedSlots(rows[k].inputLanes) && ParallelAndCompact(rows[k]) && CircleInPlace(rows[k])
                  && rows[k].id == commits[k].id && rows[k].parentIds == commits[k].parentIds)
            && SortedSlots(LastLanes(input, rows))
    decreases |commits|
  {
    hide RowFor, ParallelAndCompact, CircleInPlace, SortedSlots, LastLanes;
    if commits == [] {
      NoRowsLast(input);
    } else {
      var row := RowFor(style, input, commits[0]);
      TracksStayParallel(style, input, commits[0]);
      RowInput(style, input, commits[0]);
      assert SortedSlots(row.outputLanes) by { ParentsTracked(style, input, commits[0]); }
      EveryRowIsParallel(style, row.outputLanes, commits[1..]);
      LastOfMore(input, row, Rows(style, row.outputLanes, commits[1..]));
    }
  }

  /** Each row is its commit's: id, parents and ref names, a merge with two parents or more, a
      root with none. */
  lemma EveryRowIsItsCommits(style: LaneStyle, input: seq<LaneRef>, commits: seq<GraphCommit>, k: nat)
    requires style.Usable() && k < |commits|
    ensures var row := Rows(style, input, commits)[k];
            && row.id == commits[k].id && row.parentIds == commits[k].parentIds && row.refNames == commits[k].refNames
            && (row.isMerge <==> |commits[k].parentIds| >= 2) && (row.isRoot <==> |commits[k].parentIds| == 0)
  {
    hide Rows, RowFor;
    RowsChain(style, input, commits, k);
    RowInput(style, LastLanes(input, Rows(style, input, commits)[..k]), commits[k]);
  }

  // ---------------------------------------------------------------- pending parents

  function ParentsOf(commits: seq<GraphCommit>): set<CommitId> {
    set c, p | c in commits && p in c.parentIds :: p
  }

  function CommitIds(commits: seq<GraphCommit>): set<CommitId> { set c | c in commits :: c.id }

  /** Git's order: no commit is listed after, or as, one of its own parents. */
  ghost predicate ChildBeforeParent(commits: seq<GraphCommit>) {
    forall i, j :: 0 <= i <= j < |commits| ==> commits[i].id !in commits[j].parentIds
  }

  lemma RowPending(style: LaneStyle, input: seq<LaneRef>, commit: GraphCommit)
    requires style.Usable() && SortedSlots(input)
    ensures Ids(RowFor(style, input, commit).outputLanes)
            == (Ids(input) - {commit.id}) + (set p | p in commit.parentIds)
  {
    hide RowColor, Opened, SortLanes, LaneIndexFor;
    var row := RowFor(style, input, commit);
    TracksStayParallel(style, input, commit);
    var out := row.outputLanes;
    forall id ensures id in Ids(out) <==> id in (Ids(input) - {commit.id}) + (set p | p in commit.parentIds) {
      if id in Ids(out) {
        var lane :| lane in out && lane.id == id;
        assert Survived(row, lane) || Followed(row, lane) || OpenedIn(row, lane);
      }
      assert id in commit.parentIds ==> HasTrack(out, id);
      assert forall lane :: lane in input && lane.id != commit.id ==> lane in out;
    }
  }

  lemma RunStep(style: LaneStyle, input: seq<LaneRef>, commits: seq<GraphCommit>, n: nat)
    requires style.Usable() && SortedSlots(input) && n < |commits|
    ensures var lanes := LastLanes(input, Rows(style, input, commits[..n]));
            && SortedSlots(lanes)
            && Rows(style, input, commits[..n + 1]) == Rows(style, input, commits[..n]) + [RowFor(style, lanes, commits[n])]
  {
    hide RowFor, Rows, LastLanes, SortedSlots, ParallelAndCompact, CircleInPlace;
    EveryRowIsParallel(style, input, commits[..n]);
    RowsChain(style, input, commits[..n + 1], n);
    assert commits[..n + 1][..n] == commits[..n];
    var rows := Rows(style, input, commits[..n + 1]);
    assert rows == rows[..n] + [rows[n]];
  }

  lemma SetsSnoc(commits: seq<GraphCommit>, n: nat)
    requires n < |commits|
    ensures CommitIds(commits[..n + 1]) == CommitIds(commits[..n]) + {commits[n].id}
    ensures ParentsOf(commits[..n + 1]) == ParentsOf(commits[..n]) + (set p | p in commits[n].parentIds)
  {
    assert commits[..n + 1] == commits[..n] + [commits[n]];
  }

  ghost predicate PendingAsPromised(style: LaneStyle, input: seq<LaneRef>, commits: seq<GraphCommit>, k: nat)
    requires style.Usable() && k <= |commits|
  {
    Ids(LastLanes(input, Rows(style, input, commits[..k])))
    == (Ids(input) + ParentsOf(commits[..k])) - CommitIds(commits[..k])
  }

  lemma PendingStep(style: LaneStyle, input: seq<LaneRef>, commits: seq<GraphCommit>, n: nat)
    requires style.Usable() && SortedSlots(input) && n < |commits|
    requires PendingAsPromised(style, input, commits, n)
    ensures PendingAsPromised(style, input, commits, n + 1)
            <==> forall i :: 0 <= i <= n ==> commits[i].id !in commits[n].parentIds
  {
    hide Rows, RowFor, SortedSlots, Ids, ParentsOf;
    RunStep(style, input, commits, n);
    SetsSnoc(commits, n);
    var rows := Rows(style, input, commits[..n]);
    var lanes := LastLanes(input, rows);
    RowPending(style, lanes, commits[n]);
    var parents := set p | p in commits[n].parentIds;
    var seen := CommitIds(commits[..n]);
    var known := Ids(input) + ParentsOf(commits[..n]);
    var row := RowFor(style, lanes, commits[n]);
    assert LastLanes(input, rows + [row]) == row.outputLanes;
    assert Ids(row.outputLanes) == ((known - seen) - {commits[n].id}) + parents;
    assert PendingAsPromised(style, input, commits, n + 1)
           <==> Ids(row.outputLanes) == (known + parents) - (seen + {commits[n].id}) by {
      assert Ids(input) + ParentsOf(commits[..n + 1]) == known + parents;
    }
    ParentsMissed(known, seen, commits[n].id, parents);
    EarlierIds(commits, n);
  }

  lemma ParentsMissed(known: set<CommitId>, seen: set<CommitId>, id: CommitId, parents: set<CommitId>)
    ensures ((known - seen) - {id}) + parents == (known + parents) - (seen + {id})
            <==> parents !! seen + {id}
  {
    var left, right := ((known - seen) - {id}) + parents, (known + parents) - (seen + {id});
    if left == right {
      forall p | p in parents ensures p !in seen + {id} { assert p in right; }
    }
  }

  lemma EarlierIds(commits: seq<GraphCommit>, n: nat)
    requires n < |commits|
    ensures (set p | p in commits[n].parentIds) !! CommitIds(commits[..n]) + {commits[n].id}
            <==> forall i :: 0 <= i <= n ==> commits[i].id !in commits[n].parentIds
  {
    var parents, seen := (set p | p in commits[n].parentIds), CommitIds(commits[..n]) + {commits[n].id};
    forall i | 0 <= i <= n ensures commits[i].id in seen {
      if i < n { assert commits[..n][i] in commits[..n]; }
    }
  }

  /** No line is ever cut. After every prefix of a history in Git's order the live lanes wait
      for exactly the ids handed in and the parents seen, less the commits laid out; and
      Git's order (no commit listed after, or as, one of its own parents) is exactly what
      that takes. */
  lemma {:induction false} PendingExactlyUnderGitOrder(
    style: LaneStyle, input: seq<LaneRef>, commits: seq<GraphCommit>, n: nat)
    requires style.Usable() && SortedSlots(input) && n <= |commits|
    ensures ChildBeforeParent(commits[..n]) <==> forall k :: 0 <= k <= n ==> PendingAsPromised(style, input, commits, k)
    decreases n
  {
    hide Rows, SortedSlots, PendingAsPromised;
    if n == 0 {
      assert PendingAsPromised(style, input, commits, 0) by { NothingPendingYet(style, input, commits); }
    } else {
      PendingExactlyUnderGitOrder(style, input, commits, n - 1);
      assert ChildBeforeParent(commits[..n])
             <==> ChildBeforeParent(commits[..n - 1]) && forall i :: 0 <= i <= n - 1 ==> commits[i].id !in commits[n - 1].parentIds
      by { GitOrderSnoc(commits, n - 1); }
      if forall k :: 0 <= k <= n - 1 ==> PendingAsPromised(style, input, commits, k) {
        PendingStep(style, input, commits, n - 1);
      }
    }
  }

  lemma GitOrderSnoc(commits: seq<GraphCommit>, n: nat)
    requires n < |commits|
    ensures ChildBeforeParent(commits[..n + 1])
            <==> ChildBeforeParent(commits[..n]) && forall i :: 0 <= i <= n ==> commits[i].id !in commits[n].parentIds
  {
    var more := commits[..n + 1];
    assert forall i :: 0 <= i <= n ==> more[i] == commits[i];
    assert forall i :: 0 <= i < n ==> more[i] == commits[..n][i];
  }

  lemma NothingPendingYet(style: LaneStyle, input: seq<LaneRef>, commits: seq<GraphCommit>)
    requires style.Usable()
    ensures PendingAsPromised(style, input, commits, 0)
  {
    assert commits[..0] == [];
  }

  /** The graph closes exactly when every awaited commit was loaded. */
  lemma ClosedExactlyWhenAllLoaded(options: LayoutOptions, commits: seq<GraphCommit>)
    requires options.style.Usable() && SortedSlots(options.continuation) && ChildBeforeParent(commits)
    ensures Layout(options, commits).continuation == []
            <==> Ids(options.continuation) + ParentsOf(commits) <= CommitIds(commits)
  {
    hide Rows, SortedSlots;
    assert commits[..|commits|] == commits;
    PendingExactlyUnderGitOrder(options.style, options.continuation, commits, |commits|);
    assert PendingAsPromised(options.style, options.continuation, commits, |commits|);
    var lanes := Layout(options, commits).continuation;
    var awaited := Ids(options.continuation) + ParentsOf(commits);
    assert Ids(lanes) == awaited - CommitIds(commits);
    assert forall id :: id in awaited && id !in CommitIds(commits) ==> id in Ids(lanes);
    if lanes != [] { assert lanes[0].id in Ids(lanes); }
  }

  // ---------------------------------------------------------------- lane count

  function RowNeed(row: GraphRow): nat { |row.inputLanes| + Max(1, |row.parentIds|) }

  function MaxNeed(least: nat, rows: seq<GraphRow>): nat {
    if rows == [] then least else Max(MaxNeed(least, rows[..|rows| - 1]), RowNeed(rows[|rows| - 1]))
  }

  lemma RowNeedsFewSlots(style: LaneStyle, input: seq<LaneRef>, commit: GraphCommit)
    requires style.Usable() && SortedSlots(input)
    ensures var row := RowFor(style, input, commit);
            && (row.laneIndex in Slots(input) || row.laneIndex < RowNeed(row))
            && (forall lane :: lane in row.outputLanes ==>
                  lane.position in Slots(input) || lane.position < RowNeed(row))
  {
    hide RowColor, OpenParents, FreshIds, NoGaps, Continued;
    var row := RowFor(style, input, commit);
    var lanes, all := Continued(style, input, commit), Opened(style, input, commit);
    AwaitedIsALane(input, commit.id);
    SlotsSize(input);
    FirstFreeBound(Slots(input));
    OpenedShape(style, input, commit);
    ContinuedSlots(style, input, commit);
    SortFacts(all);
    var occupied := Slots(input) + {row.laneIndex};
    assert |occupied| <= |input| + 1;
    forall lane | lane in row.outputLanes ensures lane.position in Slots(input) || lane.position < RowNeed(row) {
      var i :| 0 <= i < |all| && all[i] == lane;
      if i < |lanes| {
        assert all[i] == all[..|lanes|][i] && lanes[i].position in Slots(lanes);
      } else {
        assert all[i].position <= |occupied| + (i - |lanes|);
        assert i - |lanes| < |commit.parentIds| - 1;
      }
    }
  }

  /** The width stays within what the rows need: the width handed in, or one slot per track
      entering a row and per parent opened there. */
  lemma {:induction false} LaneCountBound(
    style: LaneStyle, input: seq<LaneRef>, commits: seq<GraphCommit>, least: nat, n: nat)
    requires style.Usable() && SortedSlots(input) && Width(0, input) <= least && n <= |commits|
    ensures var rows := Rows(style, input, commits[..n]);
            && RowsWidth(least, rows) <= MaxNeed(least, rows)
            && Width(0, LastLanes(input, rows)) <= RowsWidth(least, rows)
    decreases n
  {
    hide Rows, RowFor, SortedSlots, Width, RowWidth, RowsWidth, MaxNeed;
    if n > 0 {
      LaneCountBound(style, input, commits, least, n - 1);
      RunStep(style, input, commits, n - 1);
      var rows := Rows(style, input, commits[..n - 1]);
      LaneCountStep(style, LastLanes(input, rows), commits[n - 1], input, rows, least);
    } else {
      NoRows(style, input, commits[..0], least);
    }
  }

  lemma NoRows(style: LaneStyle, input: seq<LaneRef>, commits: seq<GraphCommit>, least: nat)
    requires style.Usable() && commits == []
    ensures Rows(style, input, commits) == [] && RowsWidth(least, []) == least == MaxNeed(least, [])
    ensures LastLanes(input, []) == input
  {}

  lemma LaneCountStep(
    style: LaneStyle, lanes: seq<LaneRef>, commit: GraphCommit, input: seq<LaneRef>, rows: seq<GraphRow>, least: nat)
    requires style.Usable() && SortedSlots(lanes) && Width(0, lanes) <= RowsWidth(least, rows) <= MaxNeed(least, rows)
    ensures var more := rows + [RowFor(style, lanes, commit)];
            && RowsWidth(least, more) <= MaxNeed(least, more)
            && Width(0, LastLanes(input, more)) <= RowsWidth(least, more)
  {
    hide RowFor, SortedSlots, Width, RowWidth, RowNeed, Slots;
    var row := RowFor(style, lanes, commit);
    assert (rows + [row])[..|rows|] == rows;
    RowNeedsFewSlots(style, lanes, commit);
    RowInput(style, lanes, commit);
    RowStaysInside(row, lanes, RowsWidth(least, rows));
  }

  lemma RowStaysInside(row: GraphRow, lanes: seq<LaneRef>, before: nat)
    requires Width(0, lanes) <= before
    requires row.laneIndex in Slots(lanes) || row.laneIndex < RowNeed(row)
    requires forall lane :: lane in row.outputLanes ==> lane.position in Slots(lanes) || lane.position < RowNeed(row)
    ensures RowWidth(before, row) <= Max(before, RowNeed(row))
    ensures Width(0, row.outputLanes) <= RowWidth(before, row)
  {
    WidthOfMax(Max(before, row.laneIndex + 1), 0, row.outputLanes);
    assert forall slot :: slot in Slots(lanes) ==> slot < Width(0, lanes);
  }

  predicate Reaches(row: GraphRow, slot: nat) {
    slot == row.laneIndex || exists i :: 0 <= i < |row.outputLanes| && row.outputLanes[i].position == slot
  }

  predicate Fits(row: GraphRow, width: nat) {
    row.laneIndex < width && forall i :: 0 <= i < |row.outputLanes| ==> row.outputLanes[i].position < width
  }

  lemma RowWidthFacts(least: nat, row: GraphRow)
    ensures RowWidth(least, row) >= least && Fits(row, RowWidth(least, row))
    ensures RowWidth(least, row) == least || Reaches(row, RowWidth(least, row) - 1)
  {}

  lemma {:induction false} RowsWidthFacts(least: nat, rows: seq<GraphRow>)
    ensures RowsWidth(least, rows) >= least
    ensures forall k :: 0 <= k < |rows| ==> Fits(rows[k], RowsWidth(least, rows))
    ensures RowsWidth(least, rows) == least || exists k :: 0 <= k < |rows| && Reaches(rows[k], RowsWidth(least, rows) - 1)
    decreases |rows|
  {
    hide RowWidth, Reaches;
    if rows != [] {
      RowsWidthFacts(least, rows[..|rows| - 1]);
      RowWidthFacts(RowsWidth(least, rows[..|rows| - 1]), rows[|rows| - 1]);
    }
  }

  /** The lane count is exact: every lane handed in, every circle and every lane leaving a row
      has its slot below it, and one of them is in the last slot. */
  lemma LaneCountIsExact(options: LayoutOptions, commits: seq<GraphCommit>)
    requires options.style.Usable()
    ensures var (layout, input) := (Layout(options, commits), options.continuation);
            && (forall i :: 0 <= i < |input| ==> input[i].position < layout.laneCount)
            && (forall k :: 0 <= k < |layout.rows| ==> Fits(layout.rows[k], layout.laneCount))
            && (layout.laneCount > 0 ==>
                  || (exists i :: 0 <= i < |input| && input[i].position == layout.laneCount - 1)
                  || (exists k :: 0 <= k < |layout.rows| && Reaches(layout.rows[k], layout.laneCount - 1)))
  {
    hide Rows, Reaches, Fits, RowsWidth;
    RowsWidthFacts(Width(0, options.continuation), Rows(options.style, options.continuation, commits));
  }
}
