/** The write guard over the snapshot store: what a write that passes was planned on
    (crates/refyard-host/src/service.rs, the gathered preconditions). */
module WriteGuard {
  import opened Wrappers
  import opened Preconditions
  import Fingerprints = IndexFingerprint
  import Numerals
  import Store = SnapshotStore
  import Runs = SnapshotRuns

  /** What a status read saw. */
  datatype Read = Read(head: Option<string>, entries: seq<Fingerprints.IndexEntry>)

  /** A mint for a read: one that carries an index key carries the fingerprint of what was
      read; a page of history, say, carries none. */
  predicate MintedFrom(mint: Runs.Op, read: Read) {
    && mint.Mint? && Fingerprints.Recorded(read.head, read.entries)
    && (mint.request.indexKey.Some? ==>
          && mint.request.headOid == read.head
          && mint.request.indexKey.value == Fingerprints.Fingerprint(read.head, read.entries))
  }

  /** What the guard takes from a record. */
  function SeenIn(found: Option<Store.SnapshotRecord>): Option<Seen> {
    match found
    case None => None
    case Some(record) =>
      Some(Seen(record.request.repositoryId, record.request.worktreeId, record.request.headOid, record.request.indexKey))
  }

  function KeyIn(found: Option<Store.SnapshotRecord>): Option<string> {
    if found.Some? then found.value.request.indexKey else None
  }

  function SnapshotOf(n: nat): string { "snap_" + Numerals.Base36(n) }

  /** After any run of the store, under any clock: a write that names the snapshot of mint
      `n`, checked against the fresh read of mint `f`, passes exactly when both are still on
      record, mint `n` was a status read of this very worktree, HEAD and the index entries
      are the ones it saw, nothing blocks the write and every preview holds. */
  lemma WritesActOnWhatTheirSnapshotSaw(
    ops: seq<Runs.Op>, limits: Runs.Limits, n: nat, seen: Read, f: nat, now: Read,
    repositoryId: string, worktreeId: string, operation: Option<string>, mayRunDuring: seq<string>,
    restartBlock: Option<RestartWriteBlock>, previews: seq<PreviewCheck>)
    requires 1 <= n <= |Runs.MintsOf(ops)| && MintedFrom(Runs.MintsOf(ops)[n - 1], seen)
    requires 1 <= f <= |Runs.MintsOf(ops)| && MintedFrom(Runs.MintsOf(ops)[f - 1], now)
    requires Runs.MintsOf(ops)[f - 1].request.indexKey.Some?
    ensures var s, asked := Runs.After(Store.EMPTY, ops, limits), Runs.MintsOf(ops)[n - 1].request;
            var planned, fresh' := Store.Found(s, SnapshotOf(n)), Store.Found(s, SnapshotOf(f));
            CheckPreconditions(Gathered(SeenIn(planned), now.head, KeyIn(fresh'), repositoryId, worktreeId,
                                        operation, mayRunDuring, restartBlock, previews)).Ok?
            <==> && planned.Some? && fresh'.Some? && asked.indexKey.Some?
                 && asked.repositoryId == repositoryId && asked.worktreeId == Some(worktreeId)
                 && seen.head == now.head && multiset(seen.entries) == multiset(now.entries)
                 && restartBlock.None? && (operation.None? || operation.value in mayRunDuring)
                 && forall i :: 0 <= i < |previews| ==> PreviewHolds(previews[i])
  {
    hide CheckPreconditions, Gathered, Fingerprints.Fingerprint, Fingerprints.Recorded, Runs.After, Runs.MintsOf, Numerals.Base36;
    Runs.GetAnswersAsAsked(ops, limits, n);
    Runs.GetAnswersAsAsked(ops, limits, f);
    var s := Runs.After(Store.EMPTY, ops, limits);
    WritesRunOnWhatWasSeen(SeenIn(Store.Found(s, SnapshotOf(n))), KeyIn(Store.Found(s, SnapshotOf(f))), now.head, now.entries,
                           seen.head, seen.entries, repositoryId, worktreeId, operation, mayRunDuring, restartBlock, previews);
  }

  /** A snapshot no mint of the run answered with authorises nothing. */
  lemma UnknownSnapshotAuthorisesNothing(
    ops: seq<Runs.Op>, limits: Runs.Limits, id: string, head: Option<string>, freshKey: Option<string>,
    repositoryId: string, worktreeId: string, operation: Option<string>, mayRunDuring: seq<string>,
    restartBlock: Option<RestartWriteBlock>, previews: seq<PreviewCheck>)
    requires forall n: nat :: 1 <= n <= |Runs.MintsOf(ops)| ==> id != "snap_" + Numerals.Base36(n)
    ensures var found := Store.Found(Runs.After(Store.EMPTY, ops, limits), id);
            CheckPreconditions(Gathered(SeenIn(found), head, freshKey, repositoryId, worktreeId,
                                        operation, mayRunDuring, restartBlock, previews)).Err?
  {
    hide Runs.After, Runs.MintsOf, Numerals.Base36;
    var found := Store.Found(Runs.After(Store.EMPTY, ops, limits), id);
    Runs.GetAnswersOnlyTheMinted(ops, limits, id);
    PassesExactly(Gathered(SeenIn(found), head, freshKey, repositoryId, worktreeId,
                           operation, mayRunDuring, restartBlock, previews));
  }
}
