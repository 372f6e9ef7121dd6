/** The bounded ring of event hints (crates/refyard-host/src/events.rs). */
module EventRing {
  import opened Wrappers

  datatype Payload =
    | Operation(operationId: string)
    | RepositoryChanged(repositoryId: string, worktreeIds: seq<string>)
    | EventGap(fromSequence: nat, toSequence: nat)

  datatype Envelope = Envelope(sequence: nat, emittedAt: string, payload: Payload)

  /** Serialised size of an envelope; the encoding itself is not modelled. */
  type SizeOf = Envelope -> nat

  datatype Ring = Ring(events: seq<Envelope>, bytes: nat, sequence: nat)
  datatype Bounds = Bounds(maxEvents: nat, maxBytes: nat)

  function Total(events: seq<Envelope>, size: SizeOf): nat {
    if events == [] then 0 else Total(events[..|events| - 1], size) + size(events[|events| - 1])
  }

  predicate Within(events: seq<Envelope>, size: SizeOf, bounds: Bounds) {
    |events| <= bounds.maxEvents && Total(events, size) <= bounds.maxBytes
  }

  /** The oldest events go until both bounds hold. */
  function Trimmed(events: seq<Envelope>, size: SizeOf, bounds: Bounds): seq<Envelope> {
    if Within(events, size, bounds) || events == [] then events else Trimmed(events[1..], size, bounds)
  }

  function Published(ring: Ring, payload: Payload, now: string, size: SizeOf, bounds: Bounds): Ring {
    var events := Trimmed(ring.events + [Envelope(ring.sequence + 1, now, payload)], size, bounds);
    Ring(events, Total(events, size), ring.sequence + 1)
  }

  function Since(events: seq<Envelope>, since: nat): seq<Envelope> {
    if events == [] then []
    else (if events[0].sequence > since then [events[0]] else []) + Since(events[1..], since)
  }

  /** What `replay` answers: a gap notice carries the high watermark as its own sequence. */
  function Replayed(ring: Ring, since: nat, now: string): seq<Envelope> {
    if ring.events == [] then
      if since < ring.sequence then [Envelope(ring.sequence, now, EventGap(since + 1, ring.sequence))] else []
    else
      var oldest := ring.events[0].sequence;
      if since + 1 < oldest then [Envelope(ring.sequence, now, EventGap(since + 1, oldest - 1))] + ring.events
      else Since(ring.events, since)
  }

  // ---------------------------------------------------------------- the ring

  predicate Suffix(kept: seq<Envelope>, all: seq<Envelope>) {
    |kept| <= |all| && kept == all[|all| - |kept|..]
  }

  lemma SuffixOfTail(kept: seq<Envelope>, all: seq<Envelope>)
    requires all != [] && Suffix(kept, all[1..])
    ensures Suffix(kept, all)
  {}

  lemma SuffixTransitive(a: seq<Envelope>, b: seq<Envelope>, c: seq<Envelope>)
    requires Suffix(a, b) && Suffix(b, c)
    ensures Suffix(a, c)
  {}

  lemma SuffixSnoc(kept: seq<Envelope>, all: seq<Envelope>, e: Envelope)
    requires Suffix(kept, all)
    ensures Suffix(kept + [e], all + [e])
  {}

  /** Everything published so far, numbered from one. */
  ghost predicate Numbered(log: seq<Envelope>) {
    forall i :: 0 <= i < |log| ==> log[i].sequence == i + 1
  }

  /** None of it a gap notice: the host makes those only in a replay. */
  ghost predicate Hints(log: seq<Envelope>) {
    forall i :: 0 <= i < |log| ==> !log[i].payload.EventGap?
  }

  /** The ring after `log` was published: it holds the newest of it, and counts its bytes. */
  ghost predicate Holds(ring: Ring, log: seq<Envelope>, size: SizeOf) {
    ring.sequence == |log| && Suffix(ring.events, log) && ring.bytes == Total(ring.events, size) && Numbered(log)
  }

  lemma {:induction false} TotalTail(events: seq<Envelope>, size: SizeOf)
    requires events != []
    ensures Total(events, size) == size(events[0]) + Total(events[1..], size)
    decreases |events|
  {
    if |events| > 1 {
      TotalTail(events[..|events| - 1], size);
      assert events[..|events| - 1][1..] == events[1..][..|events| - 2];
    }
  }

  function SaturatingSub(a: nat, b: nat): nat { if a < b then 0 else a - b }

  lemma DroppingHolds(ring: Ring, log: seq<Envelope>, size: SizeOf)
    requires Holds(ring, log, size) && ring.events != []
    ensures Holds(Ring(ring.events[1..], SaturatingSub(ring.bytes, size(ring.events[0])), ring.sequence), log, size)
  {
    TotalTail(ring.events, size);
    hide Total, Numbered;
    SuffixTransitive(ring.events[1..], ring.events, log);
  }

  lemma HeldBytes(ring: Ring, log: seq<Envelope>, size: SizeOf)
    requires Holds(ring, log, size)
    ensures ring.bytes == Total(ring.events, size)
  {}

  lemma EmptyIsWithin(size: SizeOf, bounds: Bounds)
    ensures Within([], size, bounds) && Total([], size) == 0
  {}

  lemma TrimmedBytes(ring: Ring, payload: Payload, now: string, size: SizeOf, bounds: Bounds)
    ensures var next := Published(ring, payload, now, size, bounds);
            next == Ring(Trimmed(ring.events + [Envelope(ring.sequence + 1, now, payload)], size, bounds),
                         Total(next.events, size), ring.sequence + 1)
  {}

  lemma AppendingHolds(ring: Ring, log: seq<Envelope>, e: Envelope, size: SizeOf)
    requires Holds(ring, log, size) && e.sequence == ring.sequence + 1
    ensures Holds(Ring(ring.events + [e], ring.bytes + size(e), ring.sequence + 1), log + [e], size)
    ensures Total(ring.events + [e], size) == Total(ring.events, size) + size(e)
  {
    SuffixSnoc(ring.events, log, e);
    hide Suffix;
    assert (ring.events + [e])[..|ring.events|] == ring.events;
  }

  class EventSink {
    var events: seq<Envelope>
    var bytes: nat
    var sequence: nat
    const maxEvents: nat
    const maxBytes: nat
    const size: SizeOf
    ghost var log: seq<Envelope>

    function Limits(): Bounds { Bounds(maxEvents, maxBytes) }

    function State(): Ring
      reads this
    {
      Ring(events, bytes, sequence)
    }

    ghost predicate Valid()
      reads this
    {
      Holds(State(), log, size)
    }

    constructor (maxEvents: nat, maxBytes: nat, size: SizeOf)
      ensures Valid() && log == [] && State() == Ring([], 0, 0)
      ensures this.size == size && Limits() == Bounds(maxEvents, maxBytes)
    {
      this.maxEvents, this.maxBytes, this.size := maxEvents, maxBytes, size;
      events, bytes, sequence, log := [], 0, 0, [];
    }

    /** `publish`, up to the point where the lock is released. */
    method Publish(payload: Payload, now: string) returns (envelope: Envelope)
      requires Valid()
      modifies this
      ensures Valid() && log == old(log) + [envelope]
      ensures envelope == Envelope(old(sequence) + 1, now, payload)
      ensures State() == Published(old(State()), payload, now, size, Limits())
      ensures |events| <= maxEvents && bytes <= maxBytes && bytes == Total(events, size)
    {
      hide Holds, Total, Trimmed;
      envelope := Envelope(sequence + 1, now, payload);
      AppendingHolds(State(), log, envelope, size);
      TrimmedBytes(State(), payload, now, size, Limits());
      sequence := sequence + 1;
      log := log + [envelope];
      events := events + [envelope];
      bytes := bytes + size(envelope);
      DropOldest();
      HeldBytes(State(), log, size);
    }

    /** The eviction loop of `publish`. */
    method DropOldest()
      requires Valid()
      modifies this`events, this`bytes
      ensures Valid() && Within(events, size, Limits())
      ensures events == Trimmed(old(events), size, Limits())
    {
      hide Holds, Total;
      HeldBytes(State(), log, size);
      while |events| > maxEvents || bytes > maxBytes
        invariant Valid() && bytes == Total(events, size)
        invariant Trimmed(events, size, Limits()) == Trimmed(old(events), size, Limits())
        decreases |events|
      {
        EmptyIsWithin(size, Limits());
        if |events| == 0 { break; }
        var dropped := events[0];
        DroppingHolds(State(), log, size);
        events := events[1..];
        bytes := SaturatingSub(bytes, size(dropped));
        HeldBytes(State(), log, size);
      }
    }

    method HighWatermark() returns (watermark: nat)
      requires Valid()
      ensures watermark == |log|
    {
      watermark := sequence;
    }

    /** `size`. */
    method Size() returns (count: nat, occupied: nat)
      requires Valid()
      ensures count == |events| && occupied == Total(events, size)
    {
      count, occupied := |events|, bytes;
    }

    /** `bounds`: the range of sequences held is unbroken and ends at the watermark. */
    method HeldRange() returns (range: Option<(nat, nat)>)
      requires Valid()
      ensures range.None? <==> events == []
      ensures range.Some? ==> range.value == (|log| - |events| + 1, |log|)
    {
      if |events| == 0 { return None; }
      return Some((events[0].sequence, events[|events| - 1].sequence));
    }

    /** `replay`; a subscription without a cursor receives nothing retroactively. */
    method Replay(since: Option<nat>, now: string) returns (batch: seq<Envelope>)
      requires Valid()
      ensures since.None? ==> batch == []
      ensures since.Some? ==> batch == Replayed(State(), since.value, now)
    {
      if since.None? { return []; }
      if |events| == 0 {
        if since.value < sequence { return [Envelope(sequence, now, EventGap(since.value + 1, sequence))]; }
        return [];
      }
      var oldest := events[0].sequence;
      if since.value + 1 < oldest {
        return [Envelope(sequence, now, EventGap(since.value + 1, oldest - 1))] + events;
      }
      return Since(events, since.value);
    }
  }

  // ---------------------------------------------------------------- what trimming keeps

  lemma {:induction false} TrimKeepsNewest(events: seq<Envelope>, size: SizeOf, bounds: Bounds)
    ensures Suffix(Trimmed(events, size, bounds), events)
    ensures |Trimmed(events, size, bounds)| <= bounds.maxEvents && Total(Trimmed(events, size, bounds), size) <= bounds.maxBytes
    decreases |events|
  {
    hide Total, Suffix;
    if Within(events, size, bounds) || events == [] {
      EmptyIsWithin(size, bounds);
      assert Suffix(events, events) by { WholeIsSuffix(events); }
    } else {
      TrimKeepsNewest(events[1..], size, bounds);
      SuffixOfTail(Trimmed(events[1..], size, bounds), events);
    }
  }

  lemma WholeIsSuffix(events: seq<Envelope>)
    ensures Suffix(events, events)
  {}

  /** Nothing is dropped needlessly: any newest run within both bounds is kept. */
  lemma {:induction false} TrimKeepsTheMost(events: seq<Envelope>, size: SizeOf, bounds: Bounds, other: seq<Envelope>)
    requires Suffix(other, events) && |other| <= bounds.maxEvents && Total(other, size) <= bounds.maxBytes
    ensures |other| <= |Trimmed(events, size, bounds)|
    decreases |events|
  {
    hide Total;
    assert events[0..] == events;
    if !Within(events, size, bounds) && events != [] {
      TrimKeepsTheMost(events[1..], size, bounds, other);
    }
  }

  lemma PublishHolds(ring: Ring, log: seq<Envelope>, payload: Payload, now: string, size: SizeOf, bounds: Bounds)
    requires Holds(ring, log, size)
    ensures Holds(Published(ring, payload, now, size, bounds), log + [Envelope(ring.sequence + 1, now, payload)], size)
    ensures Within(Published(ring, payload, now, size, bounds).events, size, bounds)
  {
    var e := Envelope(ring.sequence + 1, now, payload);
    AppendingHolds(ring, log, e, size);
    TrimKeepsNewest(ring.events + [e], size, bounds);
    hide Total, Trimmed, Numbered, Suffix;
    SuffixTransitive(Trimmed(ring.events + [e], size, bounds), ring.events + [e], log + [e]);
  }

  // ---------------------------------------------------------------- replay

  /** The sequences one item accounts for: itself, or the range a gap notice announces. */
  predicate Accounts(item: Envelope, q: nat) {
    if item.payload.EventGap? then item.payload.fromSequence <= q <= item.payload.toSequence else item.sequence == q
  }

  /** How often a batch accounts for sequence `q`. */
  function Count(batch: seq<Envelope>, q: nat): nat {
    if batch == [] then 0
    else Count(batch[..|batch| - 1], q) + (if Accounts(batch[|batch| - 1], q) then 1 else 0)
  }

  lemma {:induction false} CountConcat(a: seq<Envelope>, b: seq<Envelope>, q: nat)
    ensures Count(a + b, q) == Count(a, q) + Count(b, q)
    decreases |b|
  {
    if b == [] {
      assert a + b == a;
    } else {
      CountConcat(a, b[..|b| - 1], q);
      assert (a + b)[..|a + b| - 1] == a + b[..|b| - 1];
    }
  }

  /** A run of consecutive events. */
  ghost predicate Consecutive(batch: seq<Envelope>, first: nat) {
    forall i :: 0 <= i < |batch| ==> batch[i].sequence == first + i
  }

  lemma {:induction false} CountConsecutive(batch: seq<Envelope>, first: nat, q: nat)
    requires Consecutive(batch, first) && Hints(batch)
    ensures Count(batch, q) == if first <= q < first + |batch| then 1 else 0
    decreases |batch|
  {
    if batch != [] { CountConsecutive(batch[..|batch| - 1], first, q); }
  }

  lemma {:induction false} SinceIsTail(events: seq<Envelope>, first: nat, since: nat)
    requires Consecutive(events, first)
    ensures Since(events, since) == (if since < first then events
                                     else if since - first + 1 >= |events| then []
                                     else events[since - first + 1..])
    decreases |events|
  {
    if events != [] {
      SinceIsTail(events[1..], first + 1, since);
    }
  }

  lemma HeldAreConsecutive(ring: Ring, log: seq<Envelope>, size: SizeOf)
    requires Holds(ring, log, size)
    ensures Consecutive(ring.events, |log| - |ring.events| + 1)
    ensures forall i :: 0 <= i < |ring.events| ==> ring.events[i] == log[|log| - |ring.events| + i]
  {}

  /** A replay is at most one gap notice, then consecutive retained events, just as published. */
  ghost predicate IsReplay(batch: seq<Envelope>, ring: Ring, log: seq<Envelope>, since: nat, tail: seq<Envelope>) {
    && |tail| <= |ring.events| && Suffix(tail, log)
    && since + |tail| <= |log|
    && (if since + |tail| == |log| then batch == tail
        else |batch| == |tail| + 1 && batch[1..] == tail && batch[0].sequence == ring.sequence
             && batch[0].payload == EventGap(since + 1, |log| - |tail|))
  }

  lemma ReplayShape(ring: Ring, log: seq<Envelope>, size: SizeOf, since: nat, now: string) returns (tail: seq<Envelope>)
    requires Holds(ring, log, size) && since <= ring.sequence
    ensures IsReplay(Replayed(ring, since, now), ring, log, since, tail)
    ensures since + |tail| == |log| || tail == ring.events
  {
    hide Since, Total, Consecutive;
    HeldAreConsecutive(ring, log, size);
    var first := |log| - |ring.events| + 1;
    SinceIsTail(ring.events, first, since);
    hide Numbered;
    if since + |ring.events| <= |log| {
      tail := ring.events;
    } else {
      tail := log[since..];
      assert ring.events[since - first + 1..] == log[since..];
    }
  }

  /** `replay(since)` accounts for every sequence above `since`, up to the watermark, exactly
      once: delivered in order, or inside the one announced gap. It accounts for no other. */
  lemma ReplaySplits(ring: Ring, log: seq<Envelope>, size: SizeOf, since: nat, now: string, q: nat)
    requires Holds(ring, log, size) && Hints(log)
    ensures Count(Replayed(ring, since, now), q) == if since < q <= ring.sequence then 1 else 0
  {
    if since <= ring.sequence {
      var tail := ReplayShape(ring, log, size, since, now);
      var batch := Replayed(ring, since, now);
      var first := |log| - |tail| + 1;
      assert Consecutive(tail, first) && Hints(tail);
      CountConsecutive(tail, first, q);
      if since + |tail| < |log| {
        CountConcat([batch[0]], tail, q);
        assert batch == [batch[0]] + tail;
        assert Count([batch[0]], q) == if since + 1 <= q <= |log| - |tail| then 1 else 0;
      }
    } else {
      HeldAreConsecutive(ring, log, size);
      SinceIsTail(ring.events, |log| - |ring.events| + 1, since);
    }
  }

  // ---------------------------------------------------------------- resuming

  /** Where a reader stands after a batch: at its last item's sequence
      (crates/refyard-http/src/events.rs:56-60). */
  function CursorAfter(batch: seq<Envelope>, since: nat): nat {
    if batch == [] then since else batch[|batch| - 1].sequence
  }

  lemma CursorReachesWatermark(ring: Ring, log: seq<Envelope>, size: SizeOf, since: nat, now: string)
    requires Holds(ring, log, size) && since <= ring.sequence
    ensures CursorAfter(Replayed(ring, since, now), since) == ring.sequence
  {
    var tail := ReplayShape(ring, log, size, since, now);
  }

  datatype Step = Publish(payload: Payload, now: string) | Resume(now: string)

  datatype Session = Session(ring: Ring, since: nat, received: seq<Envelope>)

  function Next(s: Session, step: Step, size: SizeOf, bounds: Bounds): Session {
    match step
    case Publish(payload, now) => s.(ring := Published(s.ring, payload, now, size, bounds))
    case Resume(now) =>
      var batch := Replayed(s.ring, s.since, now);
      s.(received := s.received + batch, since := CursorAfter(batch, s.since))
  }

  function After(s: Session, steps: seq<Step>, size: SizeOf, bounds: Bounds): Session
    decreases |steps|
  {
    if steps == [] then s else After(Next(s, steps[0], size, bounds), steps[1..], size, bounds)
  }

  ghost predicate Delivers(s: Session, start: nat, log: seq<Envelope>, size: SizeOf) {
    && Holds(s.ring, log, size) && Hints(log) && start <= s.since <= s.ring.sequence
    && forall q: nat :: Count(s.received, q) == if start < q <= s.since then 1 else 0
  }

  lemma ResumeDelivers(s: Session, start: nat, log: seq<Envelope>, now: string, size: SizeOf, bounds: Bounds)
    requires Delivers(s, start, log, size)
    ensures Delivers(Next(s, Resume(now), size, bounds), start, log, size)
  {
    hide Holds, Replayed;
    var batch := Replayed(s.ring, s.since, now);
    CursorReachesWatermark(s.ring, log, size, s.since, now);
    forall q: nat ensures Count(s.received + batch, q) == if start < q <= s.ring.sequence then 1 else 0 {
      CountConcat(s.received, batch, q);
      ReplaySplits(s.ring, log, size, s.since, now, q);
    }
  }

  ghost predicate NoGapsPublished(steps: seq<Step>) {
    forall i :: 0 <= i < |steps| && steps[i].Publish? ==> !steps[i].payload.EventGap?
  }

  /** A client that resumes any number of times, between any publishes, has every sequence
      since it started either delivered once or inside one announced gap. */
  lemma {:induction false} ResumingMissesNothing(
    s: Session, start: nat, log: seq<Envelope>, steps: seq<Step>, size: SizeOf, bounds: Bounds) returns (log': seq<Envelope>)
    requires Delivers(s, start, log, size) && NoGapsPublished(steps)
    ensures Delivers(After(s, steps, size, bounds), start, log', size) && log <= log'
    decreases |steps|
  {
    hide Holds, Published, Count;
    if steps == [] { return log; }
    match steps[0] {
      case Publish(payload, now) =>
        PublishHolds(s.ring, log, payload, now, size, bounds);
        assert Published(s.ring, payload, now, size, bounds).sequence == s.ring.sequence + 1 by { PublishCounts(s.ring, payload, now, size, bounds); }
        log' := ResumingMissesNothing(Next(s, steps[0], size, bounds), start, log + [Envelope(s.ring.sequence + 1, now, payload)], steps[1..], size, bounds);
      case Resume(now) =>
        ResumeDelivers(s, start, log, now, size, bounds);
        log' := ResumingMissesNothing(Next(s, steps[0], size, bounds), start, log, steps[1..], size, bounds);
    }
  }

  lemma NewReaderDelivers(size: SizeOf)
    ensures Delivers(Session(Ring([], 0, 0), 0, []), 0, [], size)
  {}

  /** So has a reader of a new ring, whatever happens. */
  lemma ReaderFromTheStart(steps: seq<Step>, size: SizeOf, bounds: Bounds) returns (log: seq<Envelope>)
    requires NoGapsPublished(steps)
    ensures Delivers(After(Session(Ring([], 0, 0), 0, []), steps, size, bounds), 0, log, size)
  {
    hide Delivers, NoGapsPublished, After;
    NewReaderDelivers(size);
    log := ResumingMissesNothing(Session(Ring([], 0, 0), 0, []), 0, [], steps, size, bounds);
  }

  lemma PublishCounts(ring: Ring, payload: Payload, now: string, size: SizeOf, bounds: Bounds)
    ensures Published(ring, payload, now, size, bounds).sequence == ring.sequence + 1
  {}

  /** The branch of `replay` that announces a gap and goes on with what is held. */
  predicate AnnouncesAndGoesOn(ring: Ring, since: nat) { ring.events != [] && since + 1 < ring.events[0].sequence }

  /** A reader cut off after the first `j` items loses nothing by resuming from the sequence
      of the last one it saw, unless that was the gap notice in front of retained events: the
      notice carries the watermark, so resuming from it skips them unannounced. */
  lemma CutOffReplay(ring: Ring, log: seq<Envelope>, size: SizeOf, since: nat, now: string, j: nat)
    requires Holds(ring, log, size) && Hints(log) && since <= ring.sequence
    requires 0 < j <= |Replayed(ring, since, now)|
    ensures var batch := Replayed(ring, since, now);
            var rest := Replayed(ring, CursorAfter(batch[..j], since), now);
            (forall q: nat :: Count(batch[..j], q) + Count(rest, q) == Count(batch, q))
            <==> !(j == 1 && AnnouncesAndGoesOn(ring, since))
  {
    hide Replayed, AnnouncesAndGoesOn, Holds, Hints, Count;
    GapGoesOn(ring, log, size, since, now);
    CutOffBatch(ring, log, size, since, now, j);
  }

  lemma CutOffBatch(ring: Ring, log: seq<Envelope>, size: SizeOf, since: nat, now: string, j: nat)
    requires Holds(ring, log, size) && Hints(log) && since <= ring.sequence
    requires 0 < j <= |Replayed(ring, since, now)|
    ensures var batch := Replayed(ring, since, now);
            var rest := Replayed(ring, CursorAfter(batch[..j], since), now);
            (forall q: nat :: Count(batch[..j], q) + Count(rest, q) == Count(batch, q))
            <==> !(j == 1 && |batch| > 1 && batch[0].payload.EventGap?)
  {
    hide Replayed, Total, Suffix;
    var batch := Replayed(ring, since, now);
    var tail := ReplayShape(ring, log, size, since, now);
    var cursor := CursorAfter(batch[..j], since);
    var rest := Replayed(ring, cursor, now);
    if j == 1 && batch[0].payload.EventGap? && |batch| > 1 {
      NoticeMeansGap(batch, ring, log, since, tail);
      CutOffAtGap(ring, log, size, since, now, tail);
    } else {
      forall q: nat ensures Count(batch[..j], q) + Count(rest, q) == Count(batch, q) {
        CutOffCount(batch, ring, log, since, tail, j, q);
        ReplaySplits(ring, log, size, since, now, q);
        ReplaySplits(ring, log, size, cursor, now, q);
      }
    }
  }

  lemma NoticeMeansGap(batch: seq<Envelope>, ring: Ring, log: seq<Envelope>, since: nat, tail: seq<Envelope>)
    requires IsReplay(batch, ring, log, since, tail) && Hints(log) && batch != [] && batch[0].payload.EventGap?
    ensures since + |tail| < |log| && batch[0].sequence == ring.sequence
  {}

  lemma GapGoesOn(ring: Ring, log: seq<Envelope>, size: SizeOf, since: nat, now: string)
    requires Holds(ring, log, size) && Hints(log)
    ensures var batch := Replayed(ring, since, now);
            AnnouncesAndGoesOn(ring, since) <==> |batch| > 1 && batch[0].payload.EventGap?
  {
    hide Total;
    if ring.events != [] {
      HeldAreConsecutive(ring, log, size);
      SinceIsTail(ring.events, |log| - |ring.events| + 1, since);
    }
  }

  lemma PublishedAlone(a: Payload, now: string, size: SizeOf, bounds: Bounds)
    requires bounds.maxEvents > 0 && size(Envelope(1, now, a)) <= bounds.maxBytes
    ensures Published(Ring([], 0, 0), a, now, size, bounds) == Ring([Envelope(1, now, a)], size(Envelope(1, now, a)), 1)
  {
    var e := Envelope(1, now, a);
    assert [] + [e] == [e] && [e][..0] == [];
    assert Total([e], size) == size(e);
  }

  lemma PublishedBehind(e: Envelope, b: Payload, now: string, size: SizeOf, bytes: nat)
    requires size(Envelope(2, now, b)) <= bytes
    ensures Published(Ring([e], size(e), 1), b, now, size, Bounds(1, bytes))
            == Ring([Envelope(2, now, b)], size(Envelope(2, now, b)), 2)
  {
    var f := Envelope(2, now, b);
    assert [e] + [f] == [e, f] && [e, f][1..] == [f] && [f][..0] == [];
    assert Total([f], size) == size(f);
    hide Total;
    assert Trimmed([e, f], size, Bounds(1, bytes)) == Trimmed([f], size, Bounds(1, bytes)) == [f];
  }

  /** It does happen: with room for one event, publish two and ask for a replay from the
      start. A reader cut off behind the notice stands at 2, and is never given event 2. */
  lemma CutOffLosesAnEvent(a: Payload, b: Payload, now: string, size: SizeOf)
    ensures var bounds := Bounds(1, size(Envelope(1, now, a)) + size(Envelope(2, now, b)));
            var ring := Published(Published(Ring([], 0, 0), a, now, size, bounds), b, now, size, bounds);
            && Holds(ring, [Envelope(1, now, a), Envelope(2, now, b)], size)
            && Replayed(ring, 0, now) == [Envelope(2, now, EventGap(1, 1)), Envelope(2, now, b)]
            && CursorAfter([Envelope(2, now, EventGap(1, 1))], 0) == 2
            && Replayed(ring, 2, now) == []
  {
    var first, second := Envelope(1, now, a), Envelope(2, now, b);
    var bounds := Bounds(1, size(first) + size(second));
    hide Published, Holds, Replayed, Total;
    PublishedAlone(a, now, size, bounds);
    PublishedBehind(first, b, now, size, bounds.maxBytes);
    SecondHeld(first, second, now, size);
  }

  lemma SecondHeld(first: Envelope, second: Envelope, now: string, size: SizeOf)
    requires first.sequence == 1 && second.sequence == 2
    ensures var ring := Ring([second], size(second), 2);
            && Holds(ring, [first, second], size)
            && Replayed(ring, 0, now) == [Envelope(2, now, EventGap(1, 1)), second]
            && Replayed(ring, 2, now) == []
  {
    assert [second][..0] == [];
    SinceIsTail([second], 2, 2);
  }

  lemma CutOffAtGap(ring: Ring, log: seq<Envelope>, size: SizeOf, since: nat, now: string, tail: seq<Envelope>)
    requires Holds(ring, log, size) && Hints(log) && IsReplay(Replayed(ring, since, now), ring, log, since, tail)
    requires |Replayed(ring, since, now)| > 1 && since + |tail| < |log|
    ensures var batch := Replayed(ring, since, now);
            Count(batch[..1], |log|) + Count(Replayed(ring, ring.sequence, now), |log|) != Count(batch, |log|)
  {
    hide Replayed;
    var batch := Replayed(ring, since, now);
    ReplaySplits(ring, log, size, since, now, |log|);
    ReplaySplits(ring, log, size, ring.sequence, now, |log|);
    assert batch[..1] == [batch[0]] && batch[..1][..0] == [];
    assert Count(batch[..1], |log|) == 0;
  }

  lemma CutOffCount(batch: seq<Envelope>, ring: Ring, log: seq<Envelope>, since: nat, tail: seq<Envelope>, j: nat, q: nat)
    requires IsReplay(batch, ring, log, since, tail) && 0 < j <= |batch| && ring.sequence == |log|
    requires Numbered(log) && Hints(log)
    requires !(j == 1 && batch[0].payload.EventGap? && |batch| > 1)
    ensures since <= CursorAfter(batch[..j], since) <= ring.sequence
    ensures Count(batch[..j], q) == if since < q <= CursorAfter(batch[..j], since) then 1 else 0
  {
    var first := |log| - |tail| + 1;
    if since + |tail| == |log| {
      assert Consecutive(batch[..j], first) && Hints(batch[..j]);
      CountConsecutive(batch[..j], first, q);
    } else {
      var events := tail[..j - 1];
      assert batch[..j] == [batch[0]] + events by { assert batch[1..j] == events; }
      assert Consecutive(events, first) && Hints(events);
      CountConcat([batch[0]], events, q);
      CountConsecutive(events, first, q);
      assert Count([batch[0]], q) == if since + 1 <= q <= |log| - |tail| then 1 else 0 by { assert [batch[0]][..0] == []; }
      if j > 1 { assert batch[j - 1] == tail[j - 2]; }
    }
  }
}
