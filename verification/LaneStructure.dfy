/** What lane layout decides without looking at colours.

    Two layouts of the same topology agree on every circle, every slot and every awaited
    id, whatever palette, colour callback and ref names each was given. */
module LaneStructure {
  import opened Wrappers
  import opened LaneLayout

  predicate SameTracks(a: seq<LaneRef>, b: seq<LaneRef>) {
    |a| == |b| && forall i :: 0 <= i < |a| ==> a[i].id == b[i].id && a[i].position == b[i].position
  }

  predicate SameTopology(a: GraphCommit, b: GraphCommit) { a.id == b.id && a.parentIds == b.parentIds }

  predicate SameTopologies(a: seq<GraphCommit>, b: seq<GraphCommit>) {
    |a| == |b| && forall i :: 0 <= i < |a| ==> SameTopology(a[i], b[i])
  }

  /** Equality of rows up to colours and ref names. */
  predicate SameRow(a: GraphRow, b: GraphRow) {
    && a.id == b.id && a.parentIds == b.parentIds && a.laneIndex == b.laneIndex
    && a.isMerge == b.isMerge && a.isRoot == b.isRoot
    && SameTracks(a.inputLanes, b.inputLanes) && SameTracks(a.outputLanes, b.outputLanes)
  }

  predicate SameRows(a: seq<GraphRow>, b: seq<GraphRow>) {
    |a| == |b| && forall i :: 0 <= i < |a| ==> SameRow(a[i], b[i])
  }

  lemma SameSlots(a: seq<LaneRef>, b: seq<LaneRef>)
    requires SameTracks(a, b)
    ensures Slots(a) == Slots(b)
    ensures forall id :: HasTrack(a, id) <==> HasTrack(b, id)
  {
    forall slot ensures slot in Slots(a) <==> slot in Slots(b) {
      if slot in Slots(a) {
        var i :| 0 <= i < |a| && a[i].position == slot;
        assert b[i] in b;
      }
      if slot in Slots(b) {
        var i :| 0 <= i < |b| && b[i].position == slot;
        assert a[i] in a;
      }
    }
    forall id ensures HasTrack(a, id) <==> HasTrack(b, id) {
      assert forall i :: 0 <= i < |a| ==> (a[i].id == id <==> b[i].id == id);
    }
  }

  lemma {:induction false} SameAwaited(a: seq<LaneRef>, b: seq<LaneRef>, id: CommitId)
    requires SameTracks(a, b)
    ensures Awaited(a, id).Some? <==> Awaited(b, id).Some?
    ensures Awaited(a, id).Some? ==> Awaited(a, id).value.position == Awaited(b, id).value.position
    ensures SameTracks(Survivors(a, id), Survivors(b, id))
    decreases |a|
  {
    if a != [] {
      assert SameTracks(a[1..], b[1..]);
      SameAwaited(a[1..], b[1..], id);
    }
  }

  lemma {:induction false} SameOpened(
    a: seq<LaneRef>, b: seq<LaneRef>, occupied: set<nat>, parents: seq<CommitId>, p: seq<LaneColor>, q: seq<LaneColor>)
    requires |p| > 0 && |q| > 0 && SameTracks(a, b)
    ensures SameTracks(OpenParents(a, occupied, parents, p), OpenParents(b, occupied, parents, q))
    decreases |parents|
  {
    if parents != [] {
      SameSlots(a, b);
      if HasTrack(a, parents[0]) {
        SameOpened(a, b, occupied, parents[1..], p, q);
      } else {
        var slot := FirstFree(occupied, 0);
        SameOpened(a + [LaneRef(parents[0], ColorAt(p, slot), slot)], b + [LaneRef(parents[0], ColorAt(q, slot), slot)],
                   occupied + {slot}, parents[1..], p, q);
      }
    }
  }

  lemma {:induction false} SameInsert(x: LaneRef, a: seq<LaneRef>, y: LaneRef, b: seq<LaneRef>)
    requires x.id == y.id && x.position == y.position && SameTracks(a, b)
    ensures SameTracks(InsertLane(x, a), InsertLane(y, b))
    decreases |a|
  {
    if a != [] && x.position >= a[0].position {
      assert SameTracks(a[1..], b[1..]);
      SameInsert(x, a[1..], y, b[1..]);
    }
  }

  lemma {:induction false} SameSort(a: seq<LaneRef>, b: seq<LaneRef>)
    requires SameTracks(a, b)
    ensures SameTracks(SortLanes(a), SortLanes(b))
    decreases |a|
  {
    if a != [] {
      SameSort(a[..|a| - 1], b[..|b| - 1]);
      SameInsert(a[|a| - 1], SortLanes(a[..|a| - 1]), b[|b| - 1], SortLanes(b[..|b| - 1]));
    }
  }

  lemma SameRowFor(p: LaneStyle, a: seq<LaneRef>, c: GraphCommit, q: LaneStyle, b: seq<LaneRef>, d: GraphCommit)
    requires p.Usable() && q.Usable() && SameTracks(a, b) && SameTopology(c, d)
    ensures SameRow(RowFor(p, a, c), RowFor(q, b, d))
  {
    hide RowColor, OpenParents;
    SameSlots(a, b);
    SameAwaited(a, b, c.id);
    var occupied := Slots(a) + {LaneIndexFor(a, c.id)};
    SameOpened(Continued(p, a, c), Continued(q, b, d), occupied, ExtraParents(c), p.Palette(), q.Palette());
    SameSort(Opened(p, a, c), Opened(q, b, d));
  }

  /** Slots and ids do not depend on palette, colour callback or ref names. */
  lemma {:induction false} StructureIgnoresStyle(
    p: LaneStyle, a: seq<LaneRef>, c: seq<GraphCommit>, q: LaneStyle, b: seq<LaneRef>, d: seq<GraphCommit>)
    requires p.Usable() && q.Usable() && SameTracks(a, b) && SameTopologies(c, d)
    ensures SameRows(Rows(p, a, c), Rows(q, b, d))
    ensures SameTracks(LastLanes(a, Rows(p, a, c)), LastLanes(b, Rows(q, b, d)))
    decreases |c|
  {
    hide RowFor;
    if c != [] {
      SameRowFor(p, a, c[0], q, b, d[0]);
      StructureIgnoresStyle(p, RowFor(p, a, c[0]).outputLanes, c[1..], q, RowFor(q, b, d[0]).outputLanes, d[1..]);
    }
  }

  lemma {:induction false} SameWidth(least: nat, a: seq<LaneRef>, b: seq<LaneRef>)
    requires SameTracks(a, b)
    ensures Width(least, a) == Width(least, b)
    decreases |a|
  {
    if a != [] { SameWidth(least, a[..|a| - 1], b[..|b| - 1]); }
  }

  lemma {:induction false} SameRowsWidth(least: nat, a: seq<GraphRow>, b: seq<GraphRow>)
    requires SameRows(a, b)
    ensures RowsWidth(least, a) == RowsWidth(least, b)
    decreases |a|
  {
    if a != [] {
      SameRowsWidth(least, a[..|a| - 1], b[..|b| - 1]);
      var n := Max(RowsWidth(least, a[..|a| - 1]), a[|a| - 1].laneIndex + 1);
      SameWidth(n, a[|a| - 1].outputLanes, b[|b| - 1].outputLanes);
    }
  }
}
