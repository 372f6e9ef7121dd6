/** What must be true before a write may run (crates/refyard-core/src/preconditions.rs),
    and what a write that passes is known to act on. */
module Preconditions {
  import opened Wrappers
  import opened IndexFingerprint

  datatype ProblemCode = NotFound | Forbidden | Conflict | UncertainOutcome | StaleSnapshot | StalePreview | OtherProblem
  datatype Problem = Problem(code: ProblemCode, retryable: bool)

  datatype GatheredRefusal = GatheredRefusal(code: ProblemCode, message: string, retryable: bool)
  datatype PreviewCheck = PreviewCheck(pathId: string, expected: Option<string>, current: Option<string>)
  datatype RestartWriteBlock = RestartWriteBlock(reason: string, operationIds: seq<string>)

  datatype PreconditionContext = PreconditionContext(
    snapshotHead: Option<string>, currentHead: Option<string>, indexUnchanged: bool,
    operationInProgress: Option<string>, mayRunDuring: seq<string>,
    restartBlock: Option<RestartWriteBlock>, previewChecks: seq<PreviewCheck>, refusal: Option<GatheredRefusal>)

  /** The first preview that is unreadable or changed. */
  function CheckPreviews(checks: seq<PreviewCheck>): Result<(), Problem> {
    if checks == [] then Ok(())
    else if checks[0].current.None? then Err(Problem(StalePreview, false))
    else if checks[0].current != checks[0].expected then Err(Problem(StalePreview, false))
    else CheckPreviews(checks[1..])
  }

  /** `check_preconditions`: the first fact that refuses decides. */
  function CheckPreconditions(context: PreconditionContext): Result<(), Problem> {
    if context.refusal.Some? then Err(Problem(context.refusal.value.code, context.refusal.value.retryable))
    else if context.restartBlock.Some? then Err(Problem(UncertainOutcome, false))
    else if context.operationInProgress.Some? && context.operationInProgress.value !in context.mayRunDuring then
      Err(Problem(Conflict, false))
    else if context.snapshotHead != context.currentHead then Err(Problem(StaleSnapshot, false))
    else if !context.indexUnchanged then Err(Problem(StaleSnapshot, false))
    else CheckPreviews(context.previewChecks)
  }

  predicate PreviewHolds(check: PreviewCheck) { check.current.Some? && check.current == check.expected }

  lemma {:induction false} PreviewsPassExactly(checks: seq<PreviewCheck>)
    ensures CheckPreviews(checks).Ok? <==> forall i :: 0 <= i < |checks| ==> PreviewHolds(checks[i])
    ensures CheckPreviews(checks).Err? ==> CheckPreviews(checks).error == Problem(StalePreview, false)
    decreases |checks|
  {
    if checks != [] {
      PreviewsPassExactly(checks[1..]);
      assert forall i :: 0 < i < |checks| ==> checks[i] == checks[1..][i - 1];
    }
  }

  /** A write passes exactly when every fact allows it. */
  lemma PassesExactly(context: PreconditionContext)
    ensures CheckPreconditions(context).Ok?
            <==> && context.refusal.None? && context.restartBlock.None?
                 && (context.operationInProgress.None? || context.operationInProgress.value in context.mayRunDuring)
                 && context.snapshotHead == context.currentHead && context.indexUnchanged
                 && forall i :: 0 <= i < |context.previewChecks| ==> PreviewHolds(context.previewChecks[i])
  {
    PreviewsPassExactly(context.previewChecks);
  }

  /** The facts that refuse, in the order they are asked, and what each is answered with. */
  function Facts(context: PreconditionContext): seq<(bool, Problem)> {
    [(context.refusal.Some?,
      if context.refusal.Some? then Problem(context.refusal.value.code, context.refusal.value.retryable) else Problem(OtherProblem, false)),
     (context.restartBlock.Some?, Problem(UncertainOutcome, false)),
     (context.operationInProgress.Some? && context.operationInProgress.value !in context.mayRunDuring, Problem(Conflict, false)),
     (context.snapshotHead != context.currentHead, Problem(StaleSnapshot, false)),
     (!context.indexUnchanged, Problem(StaleSnapshot, false)),
     (exists i :: 0 <= i < |context.previewChecks| && !PreviewHolds(context.previewChecks[i]), Problem(StalePreview, false))]
  }

  /** A write is refused with the answer of the first fact that refuses: a gathered refusal
      with its own code and retryability, then a block, an operation in the way, a moved HEAD,
      a changed index, a preview that no longer holds. */
  lemma FirstFactDecides(context: PreconditionContext, k: nat)
    requires k < 6 && Facts(context)[k].0 && forall j :: 0 <= j < k ==> !Facts(context)[j].0
    ensures CheckPreconditions(context) == Err(Facts(context)[k].1)
  {
    PreviewsPassExactly(context.previewChecks);
    var facts := Facts(context);
    assert forall j :: 0 <= j < k ==> !facts[j].0;
    assert k > 0 ==> !facts[0].0;
    assert k > 1 ==> !facts[1].0;
    assert k > 2 ==> !facts[2].0;
    assert k > 3 ==> !facts[3].0;
    assert k > 4 ==> !facts[4].0;
  }

  /** Only a refusal the host gathered as retryable may be retried. */
  lemma OnlyGatheredRefusalsRetry(context: PreconditionContext)
    requires CheckPreconditions(context).Err? && CheckPreconditions(context).error.retryable
    ensures context.refusal.Some? && context.refusal.value.retryable
  {
    PreviewsPassExactly(context.previewChecks);
  }

  // ---------------------------------------------------------------- the seen state

  /** What a recorded status read says about a worktree. */
  datatype Seen = Seen(repositoryId: string, worktreeId: Option<string>, head: Option<string>, indexKey: Option<string>)

  /** How the host sets `index_unchanged` (crates/refyard-host/src/service.rs:443-450). */
  predicate IndexUnchanged(snapshot: Option<Seen>, freshKey: Option<string>, repositoryId: string, worktreeId: string) {
    && snapshot.Some? && freshKey.Some?
    && snapshot.value.repositoryId == repositoryId
    && snapshot.value.worktreeId == Some(worktreeId)
    && snapshot.value.indexKey == freshKey
  }

  /** The context of one request: what the host gathers, and the write block and previews
      its callers may add to it. */
  function Gathered(snapshot: Option<Seen>, head: Option<string>, freshKey: Option<string>,
                    repositoryId: string, worktreeId: string, operation: Option<string>, mayRunDuring: seq<string>,
                    restartBlock: Option<RestartWriteBlock>, previews: seq<PreviewCheck>): PreconditionContext
  {
    PreconditionContext(if snapshot.Some? then snapshot.value.head else None, head,
                        IndexUnchanged(snapshot, freshKey, repositoryId, worktreeId),
                        operation, mayRunDuring, restartBlock, previews, None)
  }

  /** A snapshot that carries an index key was recorded from this HEAD and these entries; one
      of another kind, such as a history page's, carries none. */
  predicate RecordedFrom(snapshot: Seen, head: Option<string>, entries: seq<IndexEntry>) {
    snapshot.indexKey.Some? ==> snapshot.head == head && snapshot.indexKey.value == Fingerprint(head, entries)
  }

  /** A write runs only against the state that was seen: it passes exactly when its snapshot
      is known, was taken in this worktree and carries an index key, the fresh read is still
      on record, HEAD and the index are those the write was planned on, nothing blocks it,
      and every preview is readable and unchanged. */
  lemma WritesRunOnWhatWasSeen(
    snapshot: Option<Seen>, freshKey: Option<string>, head: Option<string>, entries: seq<IndexEntry>,
    seenHead: Option<string>, seenEntries: seq<IndexEntry>,
    repositoryId: string, worktreeId: string, operation: Option<string>, mayRunDuring: seq<string>,
    restartBlock: Option<RestartWriteBlock>, previews: seq<PreviewCheck>)
    requires Recorded(head, entries) && Recorded(seenHead, seenEntries)
    requires freshKey.Some? ==> freshKey.value == Fingerprint(head, entries)
    requires snapshot.Some? ==> RecordedFrom(snapshot.value, seenHead, seenEntries)
    ensures CheckPreconditions(Gathered(snapshot, head, freshKey, repositoryId, worktreeId,
                                        operation, mayRunDuring, restartBlock, previews)).Ok?
            <==> && snapshot.Some? && snapshot.value.indexKey.Some? && freshKey.Some?
                 && snapshot.value.repositoryId == repositoryId && snapshot.value.worktreeId == Some(worktreeId)
                 && seenHead == head && multiset(seenEntries) == multiset(entries)
                 && restartBlock.None? && (operation.None? || operation.value in mayRunDuring)
                 && forall i :: 0 <= i < |previews| ==> PreviewHolds(previews[i])
  {
    hide Fingerprint;
    PassesExactly(Gathered(snapshot, head, freshKey, repositoryId, worktreeId,
                           operation, mayRunDuring, restartBlock, previews));
    FingerprintStandsForTheIndex(seenHead, seenEntries, head, entries);
  }

  // ---------------------------------------------------------------- operations in progress

  datatype MutationKind =
    | InitRepository | CloneRepository | StagePaths | UnstagePaths | DiscardTrackedPaths | Commit | AmendCommit
    | CreateBranch | SwitchBranch | RenameBranch | DeleteBranch | SetBranchUpstream
    | AddRemote | UpdateRemote | RemoveRemote | Fetch | Push | Pull
    | CreateStash | ApplyStash | PopStash | DropStash | CreateTag | DeleteTag | PushTag
    | CreateWorktree | RemoveWorktree | LockWorktree | UnlockWorktree
    | AddSubmodule | UpdateSubmodule | SyncSubmodule
    | Merge | ContinueMerge | AbortMerge | RevertCommit | ResetBranch
    | CherryPick | ContinueCherryPick | AbortCherryPick
    | Rebase | ContinueRebase | AbortRebase | DropCommit | SquashCommit

  /** `may_run_during_operation`. */
  function MayRunDuringOperation(kind: MutationKind): seq<string> {
    match kind
    case StagePaths | UnstagePaths => ["merge", "cherry-pick", "rebase"]
    case ContinueMerge | AbortMerge => ["merge"]
    case ContinueCherryPick | AbortCherryPick => ["cherry-pick"]
    case ContinueRebase | AbortRebase => ["rebase"]
    case _ => []
  }

  /** The documented ways through an unfinished operation. */
  predicate IsWayThrough(kind: MutationKind, operation: string) {
    || (operation in ["merge", "cherry-pick", "rebase"] && (kind.StagePaths? || kind.UnstagePaths?))
    || (operation == "merge" && (kind.ContinueMerge? || kind.AbortMerge?))
    || (operation == "cherry-pick" && (kind.ContinueCherryPick? || kind.AbortCherryPick?))
    || (operation == "rebase" && (kind.ContinueRebase? || kind.AbortRebase?))
  }

  /** An unfinished operation leaves exactly its ways through: a kind passes during it when
      it is one of them and would pass without it. None leads through, say, a bisect. */
  lemma WhatRunsDuring(kind: MutationKind, context: PreconditionContext)
    requires context.operationInProgress.Some? && context.mayRunDuring == MayRunDuringOperation(kind)
    ensures CheckPreconditions(context).Ok?
            <==> && CheckPreconditions(context.(operationInProgress := None)).Ok?
                 && IsWayThrough(kind, context.operationInProgress.value)
  {
    PassesExactly(context);
    PassesExactly(context.(operationInProgress := None));
    OnItsList(kind, context.operationInProgress.value);
  }

  lemma OnItsList(kind: MutationKind, operation: string)
    ensures operation in MayRunDuringOperation(kind) <==> IsWayThrough(kind, operation)
  {
    var list := MayRunDuringOperation(kind);
    if kind.StagePaths? || kind.UnstagePaths? {
    } else if |list| == 1 {
      assert operation in list <==> operation == list[0];
    } else {
      assert list == [];
    }
  }
}
