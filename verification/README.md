# Refyard, modelled and proved

Dafny models of four cores of the Refyard workbench, and proofs of what they promise. Verify with
`dafny verify dfyconfig.toml`.

**Commit graph.** `LaneLayout` is the lane layout: a fold over commits that keeps live lanes in fixed
slots and hands the last lanes to the next page. `LayoutRuns` proves what it promises of one row and of
whole histories, `LaneStructure` that slots and ids ignore colours, `LaneColors` what recolours a line,
`GraphGeometry` and `PictureContinuity` that the drawn picture is unbroken from row to row,
`HeadSegmentWalk` that the head segment is the longest owned chain, `CompressedMetrics` that a squeezed
column fits. `HistoryStore` is the client object that caches pages, `IngestedRows` what a
page puts in its list; `HistoryProtocol` is the whole system
of store, requests, host cursors and late replies as a state machine.

**Snapshots and the write guard.** `SnapshotStore` and `SnapshotRuns` are the bounded store, its cursors
and their life over every run. `IndexFingerprint` is a unique-parsing proof, on the sort in `TextOrder`;
`Preconditions` is the decision that lets a write run, and `WriteGuard` what a write that passes is known
to act on, over every run of the store.

**Registries and the event ring.** `EventRing`, `PathRegistry` and `RepositoryRegistry` are classes over
several maps or queues, each tied to a specification and shown to keep it over every run. `Numerals` has
the base-36 ids they share.

**Arithmetic and codecs.** `CivilClock` and `ClockText` (timestamps), `Base64`, `Framing` and
`DisplayPath`, each against an independent definition: the Gregorian calendar written out month by month,
the decoder of section 4 of RFC 4648, the grammar of section 4 of RFC 3629.

The pattern throughout: a method or class with the source's loops and fields is proved to compute a
function of its inputs and old state, and the properties are lemmas about that function. Where the source
does not meet a property on all inputs, a lemma says exactly when it does; where the failing case is a run
or a history, another lemma exhibits one:

- A merge parent other than the first gets one edge exactly when at most one lane was already waiting for
  it (`FurtherParentEdges`); two tips and a merge draw two (`TwoEdgesToOneParent`).
- `layout_pages` of no pages reports no lanes even when handed a continuation (`LayoutPages`).
- Paging stalls exactly when a commit is selected while a page loads, and goes on exactly at a refresh or
  filter change (`OnlySelectingStalls`, `StuckUntilReset`; reached in `StallIsReachable`). A refresh or
  filter change takes effect exactly when no refresh, filter change, selection or append comes before its
  reply (`ResetTakesEffectExactly`; lost in `LostResetIsReachable`). The cache stays a prefix of one walk
  all the same.
- A gap notice carries the high watermark, so a reader cut off after one item loses events exactly when
  `replay` took the branch that announces a gap in front of held events (`CutOffReplay`;
  `CutOffLosesAnEvent`).
- Two fingerprints that differ only in "unborn" against a HEAD spelled `(unborn)`, or in an absent against
  an empty original path, are equal, and no others are (`FingerprintIsCanonical`, `UnbornIsAmbiguous`).
- A single lane is never squeezed, and a base spacing below the floor is raised by squeezing
  (`FitsOrAtFloor`, `SqueezeOnlyShrinks`, `SpacingNeverShrinks`).
- Formatted instants of four-character years sort as text exactly but for two different negative years
  (`FormatOrder`).
- The head-segment walk ends exactly on rows whose first-parent chain never comes back to a row
  (`EndsExactly`).

Two more lemmas say what the callers' side of a bargain is worth: a cursor can come back to life exactly
when it was minted for a record with an id this store has yet to give out (`CursorsGoBackExactly`), which
no caller does; and two worktree ids can share path ids exactly when one, ended by a NUL, begins the other
(`WorktreesShareKeysExactly`), which ids without a NUL never do.

## Model

| member | source | states |
|---|---|---|
| LaneLayout.FreeSlot | crates/refyard-graph/src/layout.rs:161-168 | the free-slot search ends, at the smallest slot no live lane holds |
| LaneLayout.LayoutRow | crates/refyard-graph/src/layout.rs:154-238 | the loop body, with its in-place occupied set and lane list, computes `RowFor`: its lanes are TracksStayParallel, its colours OnlyTipsRecolour and OutputColours, its other fields EveryRowIsItsCommits |
| LaneLayout.LayoutGraph | crates/refyard-graph/src/layout.rs:135-246 | the loop over a page computes rows, last lanes and width of the recursive layout |
| LaneLayout.RowsConcat | crates/refyard-graph/src/layout.rs:248-253 | laying out a list in two parts, the second from the lanes the first ended with, gives the rows and last lanes of laying it out whole |
| LaneLayout.LayoutPages | crates/refyard-graph/src/layout.rs:248-273 | page boundaries are invisible: rows and lane count of any pages are those of one layout of the concatenation; no pages report no lanes |
| LaneLayout.HandedOnLanesAreInside | crates/refyard-graph/src/layout.rs:148-152 | the lanes handed to the next page never reach past the width already recorded, which is why pages may take the maximum |
| LaneLayout.AwaitedIsALane | crates/refyard-graph/src/layout.rs:156-159 | the awaited lane exists exactly when some lane waits for the commit, and is the leftmost one |
| LayoutRuns.FirstFreeBound | crates/refyard-graph/src/layout.rs:161-168 | a new slot never exceeds the number of occupied ones |
| LayoutRuns.SortFacts | crates/refyard-graph/src/layout.rs:220 | sorting by slot keeps exactly the lanes and, slots being distinct, orders them strictly |
| LayoutRuns.OpenedSlots | crates/refyard-graph/src/layout.rs:205-219 | lanes opened for further parents take distinct free slots within the occupied count |
| LayoutRuns.OpenedIds | crates/refyard-graph/src/layout.rs:205-219 | a parent with a live track joins it; every other gets exactly one new track; all parents end with a track |
| LayoutRuns.OpenedNoGaps | crates/refyard-graph/src/layout.rs:211-212 | no free slot is skipped when tracks are opened |
| LayoutRuns.TracksStayParallel | crates/refyard-graph/src/layout.rs:169-238 | one row: survivors keep id, colour and slot, the first parent follows the circle's slot, anything else was opened compactly, slots stay strictly increasing, and the circle sits in the leftmost waiting slot or else the smallest free one |
| LayoutRuns.EveryRowIsParallel | crates/refyard-graph/src/layout.rs:154-240 | the above holds of every row of every history, and of the lanes handed on |
| LayoutRuns.RowsChain | crates/refyard-graph/src/layout.rs:155-240 | each row starts from the lanes the row above ended with, and any prefix of rows is the layout of that prefix |
| LayoutRuns.EveryRowIsItsCommits | crates/refyard-graph/src/layout.rs:226-236 | every row has its commit's id, parents and ref names, is a merge exactly with two parents or more and a root exactly with none |
| LayoutRuns.NoneWaitsForItself | crates/refyard-graph/src/layout.rs:193-197 | no lane leaving a row waits for that row's own commit |
| LayoutRuns.PendingExactlyUnderGitOrder | crates/refyard-graph/src/layout.rs:130-134 | no line is ever cut: after every prefix the awaited ids are those handed in plus all parents seen less the commits laid out, if and only if no commit is listed after, or as, its own parent |
| LayoutRuns.ClosedExactlyWhenAllLoaded | crates/refyard-graph/src/layout.rs:130-134 | in Git's order the final continuation is empty exactly when every awaited commit was loaded |
| LayoutRuns.LaneCountBound | crates/refyard-graph/src/layout.rs:149-153 | the width never exceeds the initial one or, over the rows, entering lanes plus max(1, parents) |
| LayoutRuns.LaneCountIsExact | crates/refyard-graph/src/layout.rs:149-225 | the lane count is one more than the highest slot of any lane handed in, any circle and any lane leaving a row |
| LaneColors.OnlyTipsRecolour | crates/refyard-graph/src/layout.rs:173-191 | a commit with a ref named refs/heads/ or refs/remotes/ and anything takes the colour its refs have; any other, a tagged one too, goes on in the leftmost waiting lane's colour; where none waits, a ref colour or the palette entry at the slot's remainder |
| LaneColors.PaletteInUse | crates/refyard-graph/src/layout.rs:123-128 | the palette given, or the tokens lane-1 to lane-8 by remainder |
| LaneColors.OutputColours | crates/refyard-graph/src/layout.rs:193-219 | a lane leaving a row keeps its colour, follows the circle's, or has the palette entry at its slot's remainder |
| LaneColors.UncolouredRun | crates/refyard-graph/src/layout.rs:173-219 | over a whole history without ref colours every circle and lane has its slot's palette colour, across pages |
| LaneColors.LaneLives | crates/refyard-graph/src/layout.rs:130-134 | a lane enters every row below, in its slot and colour, until its commit comes |
| LaneColors.TrunkKeepsItsColour | crates/refyard-graph/src/layout.rs:173-204 | a first parent, however far below, sits in its child's slot or further left, and in the same slot has the same colour, unless it is a tip whose refs have a colour: then it has that |
| LaneStructure.StructureIgnoresStyle | crates/refyard-graph/src/layout.rs:176-219 | slots, ids and circles of a whole layout do not depend on palette, colour callback or ref names |
| LaneStructure.SameRowsWidth | crates/refyard-graph/src/layout.rs:222-225 | nor does the lane count |
| GraphGeometry.DrawTops | crates/refyard-graph/src/geometry.rs:265-292 | the first drawing loop yields one segment per entering lane and the set of claimed output slots |
| GraphGeometry.DrawEdges | crates/refyard-graph/src/geometry.rs:294-309 | the second loop yields the circle's edges to exactly the slots still owed one |
| GraphGeometry.RowGeometry | crates/refyard-graph/src/geometry.rs:230-312 | circle and both loops together give `Picture`, whose meaning is PictureDrawnAs |
| PictureContinuity.SurvivorClaimsItself | crates/refyard-graph/src/geometry.rs:241-262 | a surviving lane always finds itself unclaimed in the output, so the dropped-lane and shifted-slot fallbacks are never taken on laid-out rows |
| PictureContinuity.ClaimsAreSurvivors | crates/refyard-graph/src/geometry.rs:285 | the claimed slots are exactly those of the survivors |
| PictureContinuity.EdgeOwedExactly | crates/refyard-graph/src/geometry.rs:295-306 | a slot gets an edge exactly when it is the lane the first parent follows or waits for a further parent |
| PictureContinuity.PictureDrawnAs | crates/refyard-graph/src/geometry.rs:230-312 | the circle sits in its lane's column half way down the row, in the row's colour, every waiting lane ends in it and every edge starts in it; each entering lane is one segment, straight down if it survives, into the circle if it waited (a line in the same slot, else a merge curve); one edge per target, straight in the circle's slot and a branch curve elsewhere |
| PictureContinuity.OneSegmentPerInputLane | crates/refyard-graph/src/geometry.rs:265-292 | nothing but a lane's own segment starts where it enters |
| PictureContinuity.EveryOutputLaneReached | crates/refyard-graph/src/geometry.rs:200-211 | every output lane has a line coming down to it |
| PictureContinuity.SegmentsEndOnLanes | crates/refyard-graph/src/geometry.rs:200-211 | every segment ends in the circle or on an output lane, nowhere else |
| PictureContinuity.EveryParentGetsAnEdge | crates/refyard-graph/src/geometry.rs:294-309 | every parent gets an edge from the circle to a lane waiting for it |
| PictureContinuity.FirstParentEdgeIsStraight | crates/refyard-graph/src/geometry.rs:297-306 | the first parent gets exactly one edge, and it is straight |
| PictureContinuity.FurtherParentEdges | crates/refyard-graph/src/geometry.rs:294-309 | a further parent gets exactly one edge if and only if at most one lane was already waiting for it |
| PictureContinuity.TwoEdgesToOneParent | crates/refyard-graph/src/geometry.rs:294-309 | two tips of one parent and a merge with it as further parent draw two edges to that parent |
| PictureContinuity.HistoryIsContinuous | crates/refyard-graph/src/geometry.rs:230-312 | in a history of any length every row and its circle are so drawn, and its bottom endpoints are the next row's top endpoints |
| PictureContinuity.GutterHoldsEveryLane | crates/refyard-graph/src/geometry.rs:73-76 | every lane's circle keeps the padding from both edges of the gutter, and only the last exactly |
| HeadSegmentWalk.HeadSegmentFor | crates/refyard-graph/src/head.rs:31-45 | on rows on which the walk ends, the segment has the first row's colour and exactly the ids of the rows of `Chain`; no rows, no segment |
| HeadSegmentWalk.EndsExactly | crates/refyard-graph/src/head.rs:35-43 | the walk ends if and only if no first-parent chain in the head's colour comes back to a row |
| HeadSegmentWalk.FollowsExactly | crates/refyard-graph/src/head.rs:41-42 | the next row is the first loaded one whose id is the first id the row lists as a parent |
| HeadSegmentWalk.EndsSoon | crates/refyard-graph/src/head.rs:35-43 | and then within one round per row |
| HeadSegmentWalk.ChainIsOwned | crates/refyard-graph/src/head.rs:26-30 | each row of it after the first has the id its predecessor lists first, is the first loaded row with that id, and has the head's colour |
| HeadSegmentWalk.ChainIsLongest | crates/refyard-graph/src/head.rs:26-30 | every other such chain is a prefix of it |
| HeadSegmentWalk.ChainEnds | crates/refyard-graph/src/head.rs:26-30 | it stops only at a row without parents, at a first parent no loaded row is, or where the colour changes |
| HeadSegmentWalk.LaidOutWalkEnds | crates/refyard-graph/src/head.rs:26-30 | on the rows laid out from a history in Git's order, none listed after its own parents, the walk ends |
| CompressedMetrics.FitsOrAtFloor | crates/refyard-graph/src/geometry.rs:90-126 | every lane fits or the spacing is at its floor, exactly when there is more than one lane, the column was wide enough, or the base already was the floor |
| CompressedMetrics.SqueezeOnlyShrinks | crates/refyard-graph/src/geometry.rs:84-126 | squeezing keeps the row height, never goes below a floor, and enlarges a component exactly when its base was below the floor |
| CompressedMetrics.ShareTaken | crates/refyard-graph/src/geometry.rs:106-108 | the share is the column over the natural width, at least what brings the spacing to six pixels, at most one; a graph is squeezed exactly when the column is below its natural width |
| CompressedMetrics.SqueezedComponents | crates/refyard-graph/src/geometry.rs:109-125 | padding, circles and strokes are their base times that share, not below 6, 2.5 and 1.25; the spacing likewise, less what still overflows, not below 6 |
| CompressedMetrics.SqueezedSpacing | crates/refyard-graph/src/geometry.rs:106-125 | the squeezed spacing is the scaled one or the room left per lane, whichever is less, but at least the floor |
| CompressedMetrics.SpacingNeverShrinks | crates/refyard-graph/src/geometry.rs:102-126 | spacing is monotone in the column width if and only if the base spacing is not below the floor |
| HistoryStore.RepoStore.constructor | apps/desktop-gpui/src/store.rs:582-600 | the store starts at generation 0 with an empty history and no cursor |
| HistoryStore.RepoStore.RefreshHistory | apps/desktop-gpui/src/store.rs:582-622 | bumps the generation, asks from the start or from the cursor with the current filters, sets the loading flag only for an append, and changes nothing else |
| HistoryStore.RepoStore.ApplyFilters | apps/desktop-gpui/src/store.rs:625-628 | sets the filters and issues a reset carrying them |
| HistoryStore.RepoStore.RequestMoreHistoryIfNeeded | apps/desktop-gpui/src/store.rs:632-639 | appends, from the cursor and with the filters, exactly when nothing loads, a cursor exists and at most 30 rows are left below; otherwise changes nothing |
| HistoryStore.RepoStore.SelectCommit | apps/desktop-gpui/src/store.rs:816-821 | bumps the shared history generation and touches nothing of the list |
| HistoryStore.RepoStore.IngestHistory | apps/desktop-gpui/src/store.rs:364-434 | a reset replaces the cache; an append lays the page out below the cached lanes and extends it |
| HistoryStore.RepoStore.Apply | apps/desktop-gpui/src/store.rs:304-359 | only the latest generation's reply changes anything: a page is ingested and clears the flag, a failed page clears the flag and records the problem, a detail or its problem leaves the list alone |
| IngestedRows.AcceptedPageIsListed | apps/desktop-gpui/src/store.rs:393-432 | after an accepted page the list ends with one row per commit of it, with its id, its parents and, in order, the full names of exactly those of its refs that are known; an append leaves the rows above |
| IngestedRows.FullNamesTranslate | apps/desktop-gpui/src/store.rs:399-403 | short names are replaced by the full names known for them, in order, and unknown ones left out |
| HistoryProtocol.StepKeepsOrder | apps/desktop-gpui/src/store.rs:355-434 | every step of the system keeps: requests and replies are of past generations, the pending one fits the cache, the cache shows one prefix |
| HistoryProtocol.IngestShowsPrefix | apps/desktop-gpui/src/store.rs:364-434 | an accepted page leaves commits, cursor, rows, continuation and width those of one longer prefix of the same walk, or of the new walk's start |
| HistoryProtocol.AppendDraws | apps/desktop-gpui/src/store.rs:402-432 | appended rows, continuation and width have the structure of one layout over the whole prefix |
| HistoryProtocol.RunKeepsOrder | apps/desktop-gpui/src/store.rs:355-434 | the invariant holds after any run |
| HistoryProtocol.CacheIsOnePrefix | apps/desktop-gpui/src/store.rs:361-364 | from the start, under any interleaving of resets, appends, filters, selections, failures and late replies, the cache is a prefix of one single walk, its cursor continues that walk there, and its picture is that prefix's |
| HistoryProtocol.SelectingWhileLoadingSticks | apps/desktop-gpui/src/store.rs:816-821 | selecting while a page loads leaves the flag set with no reply under way that clears it |
| HistoryProtocol.OnlySelectingStalls | apps/desktop-gpui/src/store.rs:582-639 | a step of a running system stalls paging if and only if it selects a commit while a page loads |
| HistoryProtocol.StallIsReachable | apps/desktop-gpui/src/store.rs:632-639 | such a stall is reached from the start in five steps |
| HistoryProtocol.StuckUntilReset | apps/desktop-gpui/src/store.rs:632-639 | from there every step but a refresh or filter change leaves paging stopped and the list unchanged, and those two restart it |
| HistoryProtocol.ResetTakesEffectExactly | apps/desktop-gpui/src/store.rs:355-357 | after a refresh or filter change and any run, its reply replaces the list if and only if no refresh, filter change, selection or effective append came in between; otherwise it changes nothing |
| HistoryProtocol.RunTakesGenerations | apps/desktop-gpui/src/store.rs:582-587 | the generation stands still over a run if and only if no step of it supersedes |
| HistoryProtocol.LostResetIsReachable | apps/desktop-gpui/src/store.rs:816-821 | from the start, a selection before the first page arrives loses that page |
| HistoryProtocol.AppendOvertakesReset | apps/desktop-gpui/src/store.rs:625-639 | the case of an append right behind a filter change: the reset's reply changes nothing |
| Numerals.Base36Loop | crates/refyard-host/src/paths.rs:242-254 | the digit loop and reversal produce the positional numeral |
| Numerals.NumeralRoundTrip | crates/refyard-host/src/paths.rs:242-254 | reading a numeral back gives the number |
| Numerals.NumeralInjective | crates/refyard-host/src/paths.rs:240-254 | different counters give different text |
| Numerals.Base36OfWord | crates/refyard-host/src/paths.rs:242-254 | a 64-bit counter has at most thirteen digits |
| TextOrder.SortIsCanonical | crates/refyard-host/src/snapshots.rs:121 | two listings sort to the same rows exactly when they are equal as multisets |
| IndexFingerprint.RowInjective | crates/refyard-host/src/snapshots.rs:110-119 | a row is parsed uniquely, up to an absent original key reading as an empty one |
| IndexFingerprint.JoinedInjective | crates/refyard-host/src/snapshots.rs:122 | newline-joined rows are parsed uniquely, including none and one |
| IndexFingerprint.FingerprintIsCanonical | crates/refyard-host/src/snapshots.rs:101-123 | two fingerprints are equal exactly when head text and multiset of normalised entries are, for separator-free fields |
| IndexFingerprint.FingerprintStandsForTheIndex | crates/refyard-host/src/snapshots.rs:101-123 | for what Git reports, exactly when HEAD and the multiset of entries are equal |
| IndexFingerprint.FingerprintSpelled | crates/refyard-host/src/snapshots.rs:107-123 | the fingerprint's spelling: HEAD or the marker, a newline, and an entry's fields with their separators |
| IndexFingerprint.UnbornIsAmbiguous | crates/refyard-host/src/snapshots.rs:122 | a HEAD spelled like the unborn marker is indistinguishable from unborn |
| Preconditions.PreviewsPassExactly | crates/refyard-core/src/preconditions.rs:145-172 | the preview scan passes exactly when every preview is readable and unchanged |
| Preconditions.PassesExactly | crates/refyard-core/src/preconditions.rs:81-175 | a write passes exactly when no fact refuses |
| Preconditions.FirstFactDecides | crates/refyard-core/src/preconditions.rs:81-175 | a refused write is answered by the first refusing fact: a gathered refusal with its own code and retryability, then block, operation, HEAD, index, preview, each with its code and never retryable |
| Preconditions.OnlyGatheredRefusalsRetry | crates/refyard-core/src/preconditions.rs:81-175 | no refusal decided here is retryable unless the host gathered it so |
| Preconditions.WritesRunOnWhatWasSeen | crates/refyard-host/src/service.rs:443-475 | a write passes exactly when its snapshot is known, of this worktree and carries an index key, the fresh read is on record, HEAD and index entries are those it was planned on, nothing blocks it and every preview holds |
| WriteGuard.WritesActOnWhatTheirSnapshotSaw | crates/refyard-host/src/service.rs:424-475 | after any run of the snapshot store, a write naming a minted snapshot passes exactly when it and the fresh read are on record, its mint was a status read of this worktree, and HEAD and index entries are those that read saw |
| WriteGuard.UnknownSnapshotAuthorisesNothing | crates/refyard-host/src/service.rs:439-450 | a snapshot id no mint of the run answered with never passes |
| Preconditions.WhatRunsDuring | crates/refyard-core/src/preconditions.rs:177-213 | an unfinished operation lets pass exactly staging and its own continue and abort, when they would pass without it; nothing passes during one with no way through |
| SnapshotStore.Store.constructor | crates/refyard-host/src/snapshots.rs:197-203 | the store starts empty and in agreement |
| SnapshotStore.Store.Mint | crates/refyard-host/src/snapshots.rs:206-229 | answers the request as asked, the time and a never-used id, evicts, and holds at most the maximum; order and map agree |
| SnapshotStore.Store.Evict | crates/refyard-host/src/snapshots.rs:284-308 | keeps exactly the newest of the unexpired, in order, in both structures |
| SnapshotRuns.GetAnswersOnlyTheMinted | crates/refyard-host/src/snapshots.rs:206-234 | under any clock `get` answers only what a mint of this run asked for, field by field, under the id of that mint's number |
| SnapshotRuns.GetAnswersAsAsked | crates/refyard-host/src/snapshots.rs:206-234 | what the n-th mint asked for is what `get` answers under its id, while it answers |
| SnapshotRuns.GetAnswersExactly | crates/refyard-host/src/snapshots.rs:231-234 | under a clock that does not go back `get` answers exactly the newest `max_entries` not expired at the last mint, each as its mint asked, and these are a suffix of the mint order |
| SnapshotStore.Store.MintCursor | crates/refyard-host/src/snapshots.rs:237-253 | adds one cursor with the snapshot's kind and place under a new id |
| SnapshotStore.Store.ResolveCursor | crates/refyard-host/src/snapshots.rs:255-272 | the four answers by shape, knowledge and retention |
| SnapshotStore.Store.CursorRepository | crates/refyard-host/src/snapshots.rs:276-282 | answers the place a known cursor belongs to, whether or not its snapshot is still there |
| SnapshotStore.SnapshotIdInjective | crates/refyard-host/src/snapshots.rs:209-211 | snapshot ids are `snap_` and a base-36 number, and never reused |
| SnapshotStore.CursorIdInjective | crates/refyard-host/src/snapshots.rs:239-240 | cursor ids are `cur_` and a base-36 number, and never reused |
| SnapshotStore.KeptFacts | crates/refyard-host/src/snapshots.rs:284-308 | what eviction keeps is live, duplicate-free and within the maximum |
| SnapshotRuns.MintRetains | crates/refyard-host/src/snapshots.rs:284-308 | under a clock that does not go back, what a mint retains is a suffix of everything minted, within the maximum |
| SnapshotRuns.MintKeepsItsOwn | crates/refyard-host/src/snapshots.rs:206-229 | a mint retains the snapshot it makes unless a limit is zero |
| SnapshotRuns.StepStaysConsistent | crates/refyard-host/src/snapshots.rs:206-253 | under any clock every operation keeps order and map in agreement, within the maximum after a mint, and cursors keyed by the counter |
| SnapshotRuns.StoreStaysConsistent | crates/refyard-host/src/snapshots.rs:206-253 | and so does every run from the empty store |
| SnapshotRuns.RunsRemember | crates/refyard-host/src/snapshots.rs:206-229 | over every run each retained record is the one its mint answered with |
| SnapshotRuns.RunsStaySound | crates/refyard-host/src/snapshots.rs:284-308 | over every run under a clock that does not go back, retained are exactly the newest unexpired, a suffix of the mint order |
| SnapshotRuns.OwnCursorShape | crates/refyard-host/src/snapshots.rs:311-320 | every cursor of a 64-bit counter has the accepted shape |
| SnapshotStore.CursorShapeExactly | crates/refyard-host/src/snapshots.rs:311-320 | the shape check takes exactly `cur_` and one to 96 ASCII letters, digits, underscores and hyphens |
| SnapshotRuns.OwnCursorsResolve | crates/refyard-host/src/snapshots.rs:255-272 | own cursors are never malformed, and unknown exactly when not yet minted |
| SnapshotRuns.NewCursorResolves | crates/refyard-host/src/snapshots.rs:237-272 | a new cursor resolves to exactly its snapshot, skip, limit and kind, or is expired when that snapshot is not retained |
| SnapshotRuns.CursorKeepsItsPlace | crates/refyard-host/src/snapshots.rs:237-282 | over any run a cursor belongs to the repository and worktree of the snapshot it was minted for |
| SnapshotRuns.CursorsOnlyAge | crates/refyard-host/src/snapshots.rs:255-272 | under any clock a step takes a cursor for a minted snapshot from resolved to expired and never back, and never changes what it resolves to |
| SnapshotRuns.CursorsOnlyAgeOverRuns | crates/refyard-host/src/snapshots.rs:255-272 | and so does every run |
| SnapshotRuns.OwnCursorsOnlyAge | crates/refyard-host/src/snapshots.rs:237-272 | every cursor minted for a snapshot the store answered with has that life, and resolves only to what it was minted with |
| SnapshotRuns.CursorsGoBackExactly | crates/refyard-host/src/snapshots.rs:237-272 | some run takes a cursor back if and only if it names an id the counter has yet to give out and neither limit is zero |
| SnapshotRuns.ForeignCursorGoesBack | crates/refyard-host/src/snapshots.rs:237-253 | a cursor for the first snapshot of another store does go back |
| EventRing.EventSink.constructor | crates/refyard-host/src/events.rs:105-115 | the ring starts empty at watermark 0 |
| EventRing.EventSink.Publish | crates/refyard-host/src/events.rs:122-151 | appends the next sequence; the ring stays the newest run of the history, byte count exact, both bounds met |
| EventRing.EventSink.DropOldest | crates/refyard-host/src/events.rs:135-143 | the eviction loop ends with both bounds met, keeping the trimmed suffix |
| EventRing.EventSink.HighWatermark | crates/refyard-host/src/events.rs:154-156 | the number of events ever published |
| EventRing.EventSink.Size | crates/refyard-host/src/events.rs:211-214 | the count and the exact sum of retained sizes |
| EventRing.EventSink.HeldRange | crates/refyard-host/src/events.rs:217-222 | the held range is unbroken and ends at the watermark |
| EventRing.EventSink.Replay | crates/refyard-host/src/events.rs:164-201 | answers `Replayed`, whose meaning is ReplaySplits; nothing without a cursor |
| EventRing.TrimKeepsNewest | crates/refyard-host/src/events.rs:135-143 | what stays is a suffix within both bounds |
| EventRing.TrimKeepsTheMost | crates/refyard-host/src/events.rs:135-143 | and the longest such suffix |
| EventRing.ReplaySplits | crates/refyard-host/src/events.rs:158-201 | replay accounts for every sequence in (since, watermark] exactly once, delivered or inside the announced gap, and for no other |
| EventRing.ReplayShape | crates/refyard-host/src/events.rs:164-201 | a replay is at most one gap notice, then consecutive events just as published |
| EventRing.CursorReachesWatermark | crates/refyard-http/src/events.rs:56-60 | a reader that took a whole replay stands at the watermark |
| EventRing.ResumingMissesNothing | crates/refyard-http/src/events.rs:53-60 | resuming any number of times between any publishes, a reader has every sequence once, delivered or announced |
| EventRing.ReaderFromTheStart | crates/refyard-http/src/events.rs:53-60 | and so has every reader of a new ring |
| EventRing.CutOffReplay | crates/refyard-host/src/events.rs:182-191 | a reader cut off after part of a replay loses nothing by resuming, if and only if it was not cut off after the first item of a replay whose oldest held event lies beyond since + 1 |
| EventRing.CutOffLosesAnEvent | crates/refyard-host/src/events.rs:169-191 | with room for one event and two published, such a reader is never given the second |
| PathRegistry.Registry.Bind | crates/refyard-host/src/paths.rs:162-184 | the three maps and the counter change as `Bound`, which BindRefines relates to one map |
| PathRegistry.Registry.Resolve | crates/refyard-host/src/paths.rs:188-198 | answers only under the minting build |
| PathRegistry.Registry.ResolveIn | crates/refyard-host/src/paths.rs:206-219 | answers only through the worktree's own binding |
| PathRegistry.BindingKeyInjective | crates/refyard-host/src/paths.rs:232-238 | the key tells worktree and bytes apart, for worktree ids without a NUL |
| PathRegistry.PathIdInjective | crates/refyard-host/src/paths.rs:176-177 | ids are `path_` and a base-36 number, and never reused |
| PathRegistry.BindRefines | crates/refyard-host/src/paths.rs:162-184 | binding in the registry is binding in a map from worktree and bytes to build and id |
| PathRegistry.BindIsStable | crates/refyard-host/src/paths.rs:162-184 | asking again gives the same id and changes nothing |
| PathRegistry.BindAnswersAndKeeps | crates/refyard-host/src/paths.rs:162-219 | the id given answers the bytes it was asked for, and every other place's id goes on answering |
| PathRegistry.WorktreesGetTheirOwnIds | crates/refyard-host/src/paths.rs:136-142 | the same bytes in two worktrees have two ids |
| PathRegistry.ResolvesExactly | crates/refyard-host/src/paths.rs:186-198 | `resolve` answers bytes exactly when the id was minted for them under that build |
| PathRegistry.ResolvesInExactly | crates/refyard-host/src/paths.rs:200-219 | `resolve_in` answers bytes exactly when the id is their current binding in that worktree on that build |
| PathRegistry.RebuildReplaces | crates/refyard-host/src/paths.rs:166-175 | after a rebuild the same bytes get a new id and the old one is refused |
| PathRegistry.RunsRefine | crates/refyard-host/src/paths.rs:162-184 | any run of binds refines the same run on the map |
| PathRegistry.RegistryRefinesBindings | crates/refyard-host/src/paths.rs:155-184 | from the empty registry, so does every run |
| PathRegistry.WorktreesShareKeysExactly | crates/refyard-host/src/paths.rs:232-238 | two different worktree ids can share a key if and only if one of them, ended by a NUL, begins the other |
| PathRegistry.SharedKeySharesId | crates/refyard-host/src/paths.rs:162-184 | places that share a key share their id |
| PathRegistry.NulInWorktreeCollides | crates/refyard-host/src/paths.rs:232-238 | such a pair of places |
| RepositoryRegistry.Registry.NextId | crates/refyard-host/src/registry.rs:303-307 | the next id of the counter |
| RepositoryRegistry.Registry.Register | crates/refyard-host/src/registry.rs:316-337 | order, id map and location map change as `Registered`; see the lemmas below |
| RepositoryRegistry.Registry.List | crates/refyard-host/src/registry.rs:344-351 | exactly the registered records, each once, in the order of registration |
| RepositoryRegistry.Registry.Revoke | crates/refyard-host/src/registry.rs:355-362 | true exactly for a known id, which leaves all three structures |
| RepositoryRegistry.Registry.RevokeTarget | crates/refyard-host/src/registry.rs:369-387 | revokes one by one what stood on the target and answers their ids |
| RepositoryRegistry.RegisterAgreesExactly | crates/refyard-host/src/registry.rs:316-337 | registering keeps the three structures mutually inverse exactly when the location is known on this build or the id is not held by a repository that stays |
| RepositoryRegistry.LocationKeyInjective | crates/refyard-host/src/registry.rs:288-295 | the location key tells target and directory apart |
| RepositoryRegistry.OnePerLocation | crates/refyard-host/src/registry.rs:283-287 | at most one repository per target and common directory |
| RepositoryRegistry.RegisterReplacesOnlyItsLocation | crates/refyard-host/src/registry.rs:309-337 | same build: same identity and no change; rebuilt: exactly the record of that location goes |
| RepositoryRegistry.NewRecordIsLast | crates/refyard-host/src/registry.rs:328-336 | a new record is listed last and found under its id and location |
| RepositoryRegistry.RevokeTargetExactly | crates/refyard-host/src/registry.rs:364-387 | exactly that target's repositories go, and the others keep their order |
| RepositoryRegistry.RegisterKeepsOrder | crates/refyard-host/src/registry.rs:316-337 | registering under an id handed out earlier keeps the structures in agreement and every other outstanding id free |
| RepositoryRegistry.RunsAgree | crates/refyard-host/src/service.rs:1093-1110 | the three structures agree after any run of id requests, registrations and revocations, however openings overlap and whichever give up |
| RepositoryRegistry.RegistryAlwaysAgrees | crates/refyard-host/src/registry.rs:303-399 | from the empty registry on |
| CivilClock.EraIsFloor | crates/refyard-host/src/clock.rs:48-53 | the two-branch truncating division is a floor division, before the epoch too |
| CivilClock.YearOfEraIsExact | crates/refyard-host/src/clock.rs:54-57 | the division formula finds the year of the era that contains the day |
| CivilClock.MonthIsExact | crates/refyard-host/src/clock.rs:58-59 | the month formula finds the month, counted from March, that contains the day |
| CivilClock.CastsAreExact | crates/refyard-host/src/clock.rs:59-64 | the casts to u32 lose nothing |
| CivilClock.DayOfCivil | crates/refyard-host/src/clock.rs:40-66 | every day becomes a valid Gregorian date whose day number is that day |
| CivilClock.CivilOfDay | crates/refyard-host/src/clock.rs:40-66 | every valid date comes back from its day number |
| CivilClock.DaysFollowTheCalendar | crates/refyard-host/src/clock.rs:40-66 | day 0 is 1970-01-01 and consecutive days are consecutive calendar dates |
| CivilClock.CivilKeepsOrder | crates/refyard-host/src/clock.rs:46-66 | dates are ordered as days are |
| CivilClock.NoStepOverflows | crates/refyard-host/src/clock.rs:28-66 | no intermediate value leaves 64 bits, for any 64-bit instant |
| ClockText.FormatReadsBack | crates/refyard-host/src/clock.rs:28-38 | read as a calendar date-time, the text of years 0000 to 9999 names the very instant it was made from |
| ClockText.FormatShape | crates/refyard-host/src/clock.rs:37 | the text has the shape of a date-time exactly in the years 0000 to 9999 |
| ClockText.LengthIsFixed | crates/refyard-host/src/clock.rs:37 | it has 24 characters exactly in the years -999 to 9999 |
| ClockText.FormatIsInjective | crates/refyard-host/src/clock.rs:28-38 | no two instants share a text, over all years |
| ClockText.FormatOrder | crates/refyard-host/src/clock.rs:28-38 | for four-character years, text order is instant order except between two different negative years, where it is the reverse |
| ClockText.FormatKeepsOrder | crates/refyard-host/src/clock.rs:28-38 | in the years 0000 to 9999 sorting texts sorts instants |
| Base64.Base64Standard | crates/refyard-http/src/assets.rs:270-295 | the loop over chunks of three computes the encoding |
| Base64.RoundTrip | crates/refyard-http/src/assets.rs:270-295 | the decoder of RFC 4648 inverts it on every input, and it is four characters per three bytes begun |
| Base64.EncodingIsInjective | crates/refyard-http/src/assets.rs:270-295 | different inputs have different text |
| Framing.SplitNulFrames | crates/refyard-core/src/bytes.rs:13-38 | succeeds exactly on empty or NUL-terminated input, with NUL-free frames that terminate to the input |
| Framing.TerminatedInjective | crates/refyard-core/src/bytes.rs:13-38 | only one list of frames reads as a given stream |
| Framing.SplitInvertsTerminated | crates/refyard-core/src/bytes.rs:13-38 | splitting gives back exactly the frames that were terminated |
| Framing.FrameReader.TakeRest | crates/refyard-core/src/bytes.rs:92-96 | the remaining bytes, untouched |
| Framing.FrameReader.TakeBytes | crates/refyard-core/src/bytes.rs:103-116 | exactly the bytes asked for, or an error that moves nothing |
| Framing.FrameReader.TakeField | crates/refyard-core/src/bytes.rs:125-139 | the non-empty run before the next space, the cursor left on it |
| Framing.FrameReader.TakeByte | crates/refyard-core/src/bytes.rs:174-181 | the next byte, or an error that moves nothing |
| Framing.FrameReader.ExpectSpace | crates/refyard-core/src/bytes.rs:184-193 | succeeds exactly on a space, and consumes a byte either way when there is one |
| Framing.FrameReader.ReadRecord | crates/refyard-core/src/bytes.rs:183-193 | any sequence of non-empty space-free fields and any path is recovered exactly, the offset ending at the end |
| DisplayPath.EscapeInvalidBytes | crates/refyard-host/src/paths.rs:55-94 | the loop with its lead-byte claims computes the shown text |
| DisplayPath.ContainsEscapeForm | crates/refyard-host/src/paths.rs:120-134 | true exactly when some position starts an escape form |
| DisplayPath.StepTakesOneCharacter | crates/refyard-host/src/paths.rs:66-80 | the claimed-length check accepts exactly one well-formed UTF-8 character and escapes exactly where none starts |
| DisplayPath.TextTellsValidity | crates/refyard-host/src/paths.rs:38-94 | valid text is shown unchanged; text for anything else contains an escape |
| DisplayPath.TextIsUtf8 | crates/refyard-host/src/paths.rs:55-94 | the shown text is always well-formed UTF-8 |
| DisplayPath.DisplayNeverNamesAnotherPath | crates/refyard-host/src/paths.rs:102-118 | display text given back is refused or is that very path, and accepted exactly for valid UTF-8 without NUL and without an escape form |
| DisplayPath.UnrepresentableTextIsEscaped | crates/refyard-host/src/paths.rs:42-53 | text marked unrepresentable always contains an escape |
| DisplayPath.EscapeSpellsItsByte | crates/refyard-host/src/paths.rs:88-89 | an escape is four characters whose lower-case digits read back as the byte |
| DisplayPath.TextReadsBack | crates/refyard-host/src/paths.rs:55-94 | bytes without an escape form of their own can be read back from the text shown |
| DisplayPath.DifferentPathsLookDifferent | crates/refyard-host/src/paths.rs:38-53 | such bytes are shown alike only if they are the same |
| DisplayPath.SpelledEscapeLooksTheSame | crates/refyard-host/src/paths.rs:38-53 | a byte and the four characters that spell it are shown alike |

## Left out

- HistoryProtocol.CacheIsOnePrefix: the host's pages are assumed to be consecutive stretches of one pinned walk and its cursors new, as its snapshots promise; a missing object in a walk is not modelled. Head token, status and refs reads are not part of the cache modelled.
- HistoryStore.RepoStore.RefreshHistory: the request is returned instead of spawned, and the early return of a store without a message channel is left out.
- HistoryStore.RepoStore.Apply: status, refs, diff, boot and mutation messages are left out; their generations are separate.
- HeadSegmentWalk.HeadSegmentFor: rows on which the walk ends are required, since on others the source's does not; EndsExactly says which they are.
- GraphGeometry.RowGeometry: pixels are reals, so rounding of 32-bit floats is not modelled; neither are densities, avatar sizes and ref connectors.
- CompressedMetrics.FitsOrAtFloor: over reals, so the sub-pixel rounding the source corrects for does not arise.
- LaneLayout.LayoutGraph: the default colour is not a parameter: a remainder by the palette length always finds a palette entry, so the source never reads it.
- EventRing.EventSink.Publish: live delivery after the lock is released, lagging subscribers and the JSON encoding are left out; the encoded size is an arbitrary function of the envelope.
- EventRing.ReplaySplits: what is published is taken to hold no gap notices, which only `replay` makes; sequences are unbounded, so `since + 1` at the largest 64-bit number is not modelled.
- SnapshotRuns.OwnCursorsResolve: counters below 2^64, as the source's are; their overflow is not modelled.
- SnapshotStore.Store.Mint: the clock is a parameter, and a history intent is an opaque text.
- SnapshotStore.Store.CursorRepository: that a continuation is refused in another place is decided by the history read, which is not part of this model.
- DisplayPath.DifferentPathsLookDifferent: paths that contain an escape form themselves are left out; SpelledEscapeLooksTheSame shows two that look alike.
- RepositoryRegistry.Registry.Register: the layout, capabilities and other details of a record are one opaque value; locks are atomic steps and are never poisoned.
- Preconditions.WritesRunOnWhatWasSeen: the host hands this check no previews, which are redeemed later by the effect; that later check is not part of this model.
- Preconditions.PassesExactly: problem messages and details are left out; codes and retryability are kept.
- IndexFingerprint.FingerprintStandsForTheIndex: path keys are texts without a colon rather than hexadecimal; the comparison of texts is by character, which for the source's UTF-8 is the same order.
- ClockText.FormatOrder: five-character years are left out, since their text is not a date-time of RFC 3339.
- Framing.FrameReader.TakeField: the ASCII, number and object-name variants built on it are left out as easy.
- Ref colours, SHA-256 digests, file serving, percent decoding, process running, target configuration and the TypeScript packages are left out.
