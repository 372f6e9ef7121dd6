/** What an accepted page puts in the list: the commits it came with, each under the full
    names of its refs (apps/desktop-gpui/src/store.rs, `ingest_history`). */
module IngestedRows {
  import opened Wrappers
  import opened LaneLayout
  import opened LayoutRuns
  import opened HistoryStore

  /** `full` lists, in order, the full names of exactly the known ones among `names` from
      index `from` on, which stand at the indices `at`. */
  predicate TranslatesFrom(full: seq<string>, names: seq<string>, fullNames: map<string, string>, at: seq<nat>, from: nat) {
    && |at| == |full|
    && (forall j, k :: 0 <= j < k < |at| ==> at[j] < at[k])
    && (forall j :: 0 <= j < |at| ==> from <= at[j] < |names| && names[at[j]] in fullNames && full[j] == fullNames[names[at[j]]])
    && (forall i: nat :: from <= i < |names| && names[i] in fullNames ==> i in at)
  }

  predicate Translates(full: seq<string>, names: seq<string>, fullNames: map<string, string>, at: seq<nat>) {
    TranslatesFrom(full, names, fullNames, at, 0)
  }

  lemma OneMoreKnown(full: seq<string>, names: seq<string>, fullNames: map<string, string>, at: seq<nat>, from: nat)
    requires from < |names| && names[from] in fullNames && TranslatesFrom(full, names, fullNames, at, from + 1)
    ensures TranslatesFrom([fullNames[names[from]]] + full, names, fullNames, [from] + at, from)
  {}

  lemma {:induction false} FullNamesTranslate(names: seq<string>, fullNames: map<string, string>, from: nat) returns (at: seq<nat>)
    requires from <= |names|
    ensures TranslatesFrom(FullNames(names[from..], fullNames), names, fullNames, at, from)
    decreases |names| - from
  {
    if from == |names| { return []; }
    at := FullNamesTranslate(names, fullNames, from + 1);
    var rest := FullNames(names[from + 1..], fullNames);
    assert names[from..][1..] == names[from + 1..];
    if names[from] in fullNames {
      OneMoreKnown(rest, names, fullNames, at, from);
      at := [from] + at;
    } else {
      assert FullNames(names[from..], fullNames) == rest;
    }
  }

  /** A branch that is known keeps its place among a commit's names, so a branch tip stays one. */
  lemma KnownNameIsKept(full: seq<string>, names: seq<string>, fullNames: map<string, string>, at: seq<nat>, i: nat)
    requires Translates(full, names, fullNames, at) && i < |names| && names[i] in fullNames
    ensures fullNames[names[i]] in full
  {
    var j :| 0 <= j < |at| && at[j] == i;
    assert full[j] == fullNames[names[i]];
  }

  lemma LaidOutRow(decoration: Decoration, input: seq<LaneRef>, commits: seq<CommitSummary>, i: nat)
    requires decoration.Usable() && i < |commits|
    ensures var row := Rows(decoration.style, input, GraphCommits(commits, decoration.fullNames))[i];
            && row.id == commits[i].oid && row.parentIds == commits[i].parents
            && row.refNames == FullNames(commits[i].refNames, decoration.fullNames)
  {
    hide Rows, GraphCommits, FullNames;
    EveryRowIsItsCommits(decoration.style, input, GraphCommits(commits, decoration.fullNames), i);
  }

  /** After a reply of the latest generation with a page, the list ends with one row per
      commit of the page: its id, its parents, and the full names of the refs it is known
      by. An append leaves the rows above as they were; a reset leaves no others. */
  lemma AcceptedPageIsListed(s: StoreState, mode: HistoryFetch, page: HistoryPage, decoration: Decoration, i: nat)
    returns (at: seq<nat>)
    requires decoration.Usable() && i < |page.commits|
    ensures var before := if mode == Append then s.history.rows else [];
            var after := Applied(s, s.generation, HistoryMsg(mode, Ok(page)), decoration).history.rows;
            && |after| == |before| + |page.commits| && after[..|before|] == before
            && var row := after[|before| + i];
               && row.id == page.commits[i].oid && row.parentIds == page.commits[i].parents
               && Translates(row.refNames, page.commits[i].refNames, decoration.fullNames, at)
  {
    hide Rows, GraphCommits, FullNames, TranslatesFrom, RowsWidth;
    at := FullNamesTranslate(page.commits[i].refNames, decoration.fullNames, 0);
    assert page.commits[i].refNames[0..] == page.commits[i].refNames;
    LaidOutRow(decoration, if mode == Append then s.history.continuation else [], page.commits, i);
  }
}
