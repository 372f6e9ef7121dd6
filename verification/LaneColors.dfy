/** What colours a line (crates/refyard-graph/src/layout.rs): only a branch tip recolours a
    lane, and without ref colours a lane has its slot's colour for as long as it lives. */
module LaneColors {
  import opened Wrappers
  import opened LaneLayout
  import opened LayoutRuns

  /** A full ref name of a local or remote branch. */
  ghost predicate NamesBranch(name: string) {
    (exists rest: string :: name == "refs/heads/" + rest) || (exists rest: string :: name == "refs/remotes/" + rest)
  }

  ghost predicate IsTip(commit: GraphCommit) {
    exists i :: 0 <= i < |commit.refNames| && NamesBranch(commit.refNames[i])
  }

  /** What the colour callback, if there is one, answers for a commit. */
  function Answer(colorForRef: Option<GraphCommit -> Option<LaneColor>>, commit: GraphCommit): Option<LaneColor> {
    match colorForRef case Some(f) => f(commit) case None => None
  }

  lemma PrefixIsStart(prefix: string, name: string)
    ensures IsPrefixOf(prefix, name) <==> exists rest: string :: name == prefix + rest
  {
    if IsPrefixOf(prefix, name) { assert name == prefix + name[|prefix|..]; }
  }

  lemma TipIsBranchTip(commit: GraphCommit)
    ensures IsTip(commit) <==> IsBranchTip(commit)
  {
    hide IsPrefixOf;
    forall i | 0 <= i < |commit.refNames|
      ensures NamesBranch(commit.refNames[i])
              <==> IsPrefixOf("refs/heads/", commit.refNames[i]) || IsPrefixOf("refs/remotes/", commit.refNames[i])
    {
      PrefixIsStart("refs/heads/", commit.refNames[i]);
      PrefixIsStart("refs/remotes/", commit.refNames[i]);
    }
  }

  /** Only a branch tip recolours a lane: a commit with a branch among its refs takes the
      colour its refs have; any other, a tagged one say, goes on in the colour of the leftmost
      lane that waited for it. Where no lane waited, a ref colour wins over the slot's. */
  lemma OnlyTipsRecolour(style: LaneStyle, input: seq<LaneRef>, commit: GraphCommit)
    requires style.Usable() && SortedSlots(input)
    ensures var row, answer := RowFor(style, input, commit), Answer(style.colorForRef, commit);
            var waited := exists lane :: lane in input && lane.id == commit.id;
            && (IsTip(commit) && answer.Some? ==> row.laneColor == answer.value)
            && (!(IsTip(commit) && answer.Some?) && waited ==> LaneRef(commit.id, row.laneColor, row.laneIndex) in input)
            && (!waited && answer.Some? ==> row.laneColor == answer.value)
            && (!waited && answer.None? ==> row.laneColor == style.Palette()[row.laneIndex % |style.Palette()|])
  {
    hide Opened, SortLanes, IsBranchTip, IsTip, Survivors;
    AwaitedIsALane(input, commit.id);
    TipIsBranchTip(commit);
    assert (exists lane :: lane in input && lane.id == commit.id) <==> HasTrack(input, commit.id) by {
      if lane :| lane in input && lane.id == commit.id {
        var i :| 0 <= i < |input| && input[i] == lane;
      }
    }
  }

  /** The palette in use: the one given, or the eight tokens lane-1 to lane-8. */
  lemma PaletteInUse(style: LaneStyle, slot: nat)
    ensures style.palette.Some? ==> style.Palette() == style.palette.value
    ensures style.palette.None? ==>
              style.Palette()[slot % |style.Palette()|] == "lane-" + [(49 + slot % 8) as char]
  {
    if style.palette.None? {
      var n := slot % 8;
      assert |style.Palette()| == 8;
      assert n == 0 || n == 1 || n == 2 || n == 3 || n == 4 || n == 5 || n == 6 || n == 7;
    }
  }

  lemma {:induction false} OpenedColours(lanes: seq<LaneRef>, occupied: set<nat>, parents: seq<CommitId>, palette: seq<LaneColor>)
    requires |palette| > 0
    ensures var all := OpenParents(lanes, occupied, parents, palette);
            forall lane :: lane in all ==> lane in lanes || lane.color == palette[lane.position % |palette|]
    decreases |parents|
  {
    if parents != [] {
      if HasTrack(lanes, parents[0]) {
        OpenedColours(lanes, occupied, parents[1..], palette);
      } else {
        var slot := FirstFree(occupied, 0);
        OpenedColours(lanes + [LaneRef(parents[0], ColorAt(palette, slot), slot)], occupied + {slot}, parents[1..], palette);
      }
    }
  }

  /** A lane leaving a row keeps its colour, follows the circle's, or takes its slot's. */
  lemma OutputColours(style: LaneStyle, input: seq<LaneRef>, commit: GraphCommit, lane: LaneRef)
    requires style.Usable() && SortedSlots(input) && lane in RowFor(style, input, commit).outputLanes
    ensures var row := RowFor(style, input, commit);
            Survived(row, lane) || Followed(row, lane) || lane.color == style.Palette()[lane.position % |style.Palette()|]
  {
    hide RowColor, OpenParents, LaneIndexFor, Continued, Survived, Followed, SortLanes;
    SortFacts(Opened(style, input, commit));
    OpenedColours(Continued(style, input, commit), Slots(input) + {LaneIndexFor(input, commit.id)},
                  ExtraParents(commit), style.Palette());
    ContinuedLane(style, input, commit, lane);
  }

  // ---------------------------------------------------------------- runs without ref colours

  predicate SlotColoured(palette: seq<LaneColor>, lanes: seq<LaneRef>)
    requires |palette| > 0
  {
    forall lane :: lane in lanes ==> lane.color == palette[lane.position % |palette|]
  }

  ghost predicate RowSlotColoured(palette: seq<LaneColor>, row: GraphRow)
    requires |palette| > 0
  {
    && SlotColoured(palette, row.inputLanes) && SlotColoured(palette, row.outputLanes)
    && row.laneColor == palette[row.laneIndex % |palette|]
  }

  /** A commit none of whose refs has a colour leaves every lane in its slot's colour. */
  lemma UncolouredRow(style: LaneStyle, input: seq<LaneRef>, commit: GraphCommit)
    requires style.Usable() && SortedSlots(input) && SlotColoured(style.Palette(), input)
    requires Answer(style.colorForRef, commit).None?
    ensures RowSlotColoured(style.Palette(), RowFor(style, input, commit))
  {
    hide RowColor, Opened, LaneIndexFor, SortLanes, Answer, IsTip;
    var row := RowFor(style, input, commit);
    OnlyTipsRecolour(style, input, commit);
    forall lane | lane in row.outputLanes ensures lane.color == style.Palette()[lane.position % |style.Palette()|] {
      OutputColours(style, input, commit, lane);
    }
  }

  /** Over any history without ref colours a slot has one colour: the palette's, at the
      slot's remainder. Page boundaries do not change that. */
  lemma {:induction false} UncolouredRun(style: LaneStyle, input: seq<LaneRef>, commits: seq<GraphCommit>)
    requires style.Usable() && SortedSlots(input) && SlotColoured(style.Palette(), input)
    requires forall i :: 0 <= i < |commits| ==> Answer(style.colorForRef, commits[i]).None?
    ensures var rows := Rows(style, input, commits);
            && (forall k :: 0 <= k < |rows| ==> RowSlotColoured(style.Palette(), rows[k]))
            && SlotColoured(style.Palette(), LastLanes(input, rows))
    decreases |commits|
  {
    hide RowFor, Answer, SortedSlots, SlotColoured;
    if commits != [] {
      var row := RowFor(style, input, commits[0]);
      UncolouredRow(style, input, commits[0]);
      ParentsTracked(style, input, commits[0]);
      UncolouredRun(style, row.outputLanes, commits[1..]);
      var rest := Rows(style, row.outputLanes, commits[1..]);
      assert LastLanes(input, [row] + rest) == LastLanes(row.outputLanes, rest);
    }
  }

  // ---------------------------------------------------------------- along a line

  /** A lane lives until its commit comes: below the row that left it, it enters every row,
      in its own slot and colour, up to and including that commit's. */
  lemma {:induction false} LaneLives(style: LaneStyle, input: seq<LaneRef>, commits: seq<GraphCommit>, i: nat, j: nat, lane: LaneRef)
    requires style.Usable() && SortedSlots(input) && i < j < |commits|
    requires lane in Rows(style, input, commits)[i].outputLanes
    requires forall k :: i < k < j ==> commits[k].id != lane.id
    ensures lane in Rows(style, input, commits)[j].inputLanes
    decreases j
  {
    hide Rows, RowFor, CircleInPlace, ParallelAndCompact, SortedSlots;
    RowsChain(style, input, commits, j);
    if i + 1 < j {
      LaneLives(style, input, commits, i, j - 1, lane);
      EveryRowIsParallel(style, input, commits);
      SurvivesRow(Rows(style, input, commits)[j - 1], lane);
    }
  }

  /** From a commit to its first parent, however far below: the parent's circle is in the
      same slot or further left, and in the same slot it has the same colour, unless the
      parent is a branch tip whose refs have a colour: then it has that one. */
  lemma TrunkKeepsItsColour(style: LaneStyle, input: seq<LaneRef>, commits: seq<GraphCommit>, i: nat, j: nat)
    requires style.Usable() && SortedSlots(input) && i < j < |commits|
    requires commits[i].parentIds != [] && commits[i].parentIds[0] == commits[j].id
    requires forall k :: i < k < j ==> commits[k].id != commits[j].id
    ensures var rows, answer := Rows(style, input, commits), Answer(style.colorForRef, commits[j]);
            && rows[j].laneIndex <= rows[i].laneIndex
            && (if IsTip(commits[j]) && answer.Some? then rows[j].laneColor == answer.value
                else rows[j].laneIndex == rows[i].laneIndex ==> rows[j].laneColor == rows[i].laneColor)
  {
    hide Rows, RowFor, IsTip, Answer, SortedSlots;
    var rows := Rows(style, input, commits);
    EveryRowIsParallel(style, input, commits);
    var lane := LaneRef(commits[j].id, rows[i].laneColor, rows[i].laneIndex);
    assert Followed(rows[i], lane);
    LaneLives(style, input, commits, i, j, lane);
    RowsChain(style, input, commits, j);
    var above := LastLanes(input, rows[..j]);
    assert SortedSlots(above) && rows[j].inputLanes == above by { RowInput(style, above, commits[j]); }
    OnlyTipsRecolour(style, above, commits[j]);
    CirclesAgree(rows[j], lane);
    if rows[j].laneIndex == rows[i].laneIndex && !(IsTip(commits[j]) && Answer(style.colorForRef, commits[j]).Some?) {
      OneLanePerSlot(above, lane, LaneRef(commits[j].id, rows[j].laneColor, rows[j].laneIndex));
    }
  }

  lemma CirclesAgree(row: GraphRow, lane: LaneRef)
    requires CircleInPlace(row) && lane in row.inputLanes && lane.id == row.id
    ensures HasTrack(row.inputLanes, row.id) && row.laneIndex <= lane.position
  {
    var k :| 0 <= k < |row.inputLanes| && row.inputLanes[k] == lane;
  }
}
