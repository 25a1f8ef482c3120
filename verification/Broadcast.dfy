/**
 The in-memory recorder and its subscribers as a system of small steps.

 `record` appends to the history and copies the subscriber set in one locked step; each delivery
 to a subscriber is a step of its own, outside the lock. Entries are named by their position in
 the history, that is, in lock order. A step that is not possible leaves the system as it is.
 */
module Broadcast {
  import opened Basics
  import opened Mailboxes

  const MAX_BUFFERED_ENTRIES := 500

  /**
   A subscription: the history length when it was made and, once it has ended, when it ended; the
   entries that some producer has appended but not yet delivered to it; and its mailbox.
   */
  datatype Subscription = Subscription(from: nat, until: Option<nat>, held: set<nat>, box: Mailbox<nat>)

  datatype System<E> = System(history: seq<E>, subs: seq<Subscription>)

  datatype Event<E> =
    | Append(entry: E)
    | Deliver(sub: nat, index: nat)
    | RunCallback(sub: nat, now: real)
    | Get(sub: nat)
    | Subscribe
    | Unsubscribe(sub: nat)
    | CloseLoop(sub: nat)

  /** Lock section of `record`: append, and take the subscribers of the moment along. */
  function HeldAfterAppend(s: Subscription, index: nat): Subscription {
    if s.until.None? then s.(held := s.held + {index}) else s
  }

  /** A step that concerns one subscription only. */
  function SubNext<E>(s: Subscription, now: nat, e: Event<E>): Subscription {
    match e
    case Deliver(_, index) =>
      if index in s.held then s.(held := s.held - {index}, box := Delivered(s.box, index)) else s
    case RunCallback(_, time) => s.(box := CallbackRun(s.box, time))
    case Get(_) => if s.until.None? then s.(box := Taken(s.box)) else s
    case Unsubscribe(_) => if s.until.None? then s.(until := Some(now)) else s
    case CloseLoop(_) => s.(box := LoopClosed(s.box))
    case _ => s
  }

  function Next<E>(s: System<E>, e: Event<E>): System<E> {
    match e
    case Append(entry) =>
      System(s.history + [entry],
             seq(|s.subs|, i requires 0 <= i < |s.subs| => HeldAfterAppend(s.subs[i], |s.history|)))
    case Subscribe => s.(subs := s.subs + [Subscription(|s.history|, None, {}, NewMailbox())])
    case _ => if e.sub < |s.subs| then s.(subs := s.subs[e.sub := SubNext(s.subs[e.sub], |s.history|, e)]) else s
  }

  function Run<E>(events: seq<Event<E>>): System<E> {
    if events == [] then System([], []) else Next(Run(events[..|events| - 1]), events[|events| - 1])
  }

  /** `snapshot()` taken when t entries had been recorded: the positions it covers. */
  function SnapshotStart(t: nat): nat {
    if t <= MAX_BUFFERED_ENTRIES then 0 else t - MAX_BUFFERED_ENTRIES
  }

  // ---------------------------------------------------------------- conservation

  function End(s: Subscription, now: nat): nat {
    if s.until.None? then now else s.until.value
  }

  ghost function Everywhere(s: Subscription): multiset<nat> {
    multiset(s.held) + Contents(s.box)
  }

  /**
   Every entry appended during the subscription is in exactly one place: held by a producer,
   scheduled, queued, consumed, dropped or discarded; and nothing else is anywhere.
   */
  ghost predicate Conserved(s: Subscription, now: nat) {
    && s.from <= End(s, now) <= now
    && Everywhere(s) == multiset(Range(s.from, End(s, now)))
    && Accounted(s.box)
  }

  ghost predicate AllConserved<E>(s: System<E>) {
    forall i :: 0 <= i < |s.subs| ==> Conserved(s.subs[i], |s.history|)
  }

  lemma RangeMember(a: nat, b: nat, x: nat)
    requires a <= b
    ensures multiset(Range(a, b))[x] == if a <= x < b then 1 else 0
    decreases b - a
  {
    if a < b {
      var last: nat := b - 1;
      RangeSnoc(a, last);
      RangeMember(a, last, x);
      assert multiset(Range(a, last) + [last]) == multiset(Range(a, last)) + multiset{last};
    }
  }

  lemma AppendConserves(s: Subscription, now: nat)
    requires Conserved(s, now)
    ensures Conserved(HeldAfterAppend(s, now), now + 1)
  {
    if s.until.None? {
      RangeMember(s.from, now, now);
      assert now !in s.held by { assert Everywhere(s)[now] == 0; }
      assert multiset(s.held + {now}) == multiset(s.held) + multiset{now};
      RangeSnoc(s.from, now);
      assert multiset(Range(s.from, now + 1)) == multiset(Range(s.from, now)) + multiset{now};
    }
  }

  lemma DeliveryConserves(s: Subscription, now: nat, index: nat)
    requires Conserved(s, now) && index in s.held
    ensures Conserved(s.(held := s.held - {index}, box := Delivered(s.box, index)), now)
  {
    DeliverKeeps(s.box, index);
    assert multiset(s.held) == multiset(s.held - {index}) + multiset{index};
  }

  lemma SubStepConserves<E>(s: Subscription, now: nat, e: Event<E>)
    requires Conserved(s, now)
    ensures Conserved(SubNext(s, now, e), now)
  {
    match e
    case Deliver(_, index) =>
      if index in s.held {
        DeliveryConserves(s, now, index);
      }
    case RunCallback(_, time) => CallbackKeeps(s.box, time);
    case Get(_) => TakeKeeps(s.box);
    case _ =>
  }

  lemma NewSubscriptionConserved(now: nat)
    ensures Conserved(Subscription(now, None, {}, NewMailbox()), now)
  {
    assert Range(now, now) == [];
  }

  /** Conservation holds after every interleaving of producers, loops and readers. */
  lemma {:induction false} RunConserves<E>(events: seq<Event<E>>)
    ensures AllConserved(Run(events))
  {
    if events != [] {
      var s, e := Run(events[..|events| - 1]), events[|events| - 1];
      RunConserves(events[..|events| - 1]);
      StepConserves(s, e);
    }
  }

  /** What a step makes of the i-th subscription. */
  lemma SubAfter<E>(s: System<E>, e: Event<E>, i: nat)
    requires i < |Next(s, e).subs|
    ensures Next(s, e).subs[i] ==
            if i >= |s.subs| then Subscription(|s.history|, None, {}, NewMailbox())
            else if e.Append? then HeldAfterAppend(s.subs[i], |s.history|)
            else if e.Subscribe? || e.sub != i then s.subs[i]
            else SubNext(s.subs[i], |s.history|, e)
    ensures |Next(s, e).history| == |s.history| + if e.Append? then 1 else 0
    ensures i >= |s.subs| ==> e.Subscribe?
  {
  }

  lemma StepConserves<E>(s: System<E>, e: Event<E>)
    requires AllConserved(s)
    ensures AllConserved(Next(s, e))
  {
    var next := Next(s, e);
    forall i | 0 <= i < |next.subs| ensures Conserved(next.subs[i], |next.history|) {
      SubAfter(s, e, i);
      if i >= |s.subs| {
        NewSubscriptionConserved(|s.history|);
      } else if e.Append? {
        AppendConserves(s.subs[i], |s.history|);
      } else if !e.Subscribe? && e.sub == i {
        SubStepConserves(s.subs[i], |s.history|, e);
      }
    }
  }

  /**
   The readable form: entry x is in the custody of subscription i, exactly once, if and only if it
   was appended while the subscription lasted. Nothing appended after the end ever arrives.
   */
  lemma ExactlyOnePlace<E>(events: seq<Event<E>>, i: nat, x: nat)
    requires i < |Run(events).subs|
    ensures var s, now := Run(events).subs[i], |Run(events).history|;
            && Everywhere(s)[x] == (if s.from <= x < End(s, now) then 1 else 0)
            && |s.box.queue| <= 1000
  {
    RunConserves(events);
    var s := Run(events).subs[i];
    RangeMember(s.from, End(s, |Run(events).history|), x);
  }

  /** All drops are reported or pending, and warnings keep their distance, whatever the clock does. */
  lemma DropsAccounted<E>(events: seq<Event<E>>, i: nat)
    requires i < |Run(events).subs|
    ensures var m := Run(events).subs[i].box;
            && Reported(m.warnings) + m.dropsSinceLastWarning == |m.dropped|
            && WellSpaced(m.warnings)
  {
    RunConserves(events);
  }

  // ---------------------------------------------------------------- gap-free handover

  /** A snapshot taken at history length t copies position x. */
  predicate InSnapshot(t: nat, x: nat) {
    SnapshotStart(t) <= x < t
  }

  /** The loop is closed or the subscription has ended: nothing is read from the queue any more. */
  predicate Over(s: Subscription) {
    s.box.loopClosed || s.until.Some?
  }

  /** Entry x is in the line, or some producer is about to deliver it. */
  ghost predicate InCustody(s: Subscription, x: nat) {
    x in Line(s.box) || x in s.held
  }

  /** Entry x was refused by the full queue or thrown away by a closed loop. */
  ghost predicate Gone(s: Subscription, x: nat) {
    x in s.box.dropped || x in s.box.discarded
  }

  /** The stream has read entry x, or still can. */
  ghost predicate Reaches(s: Subscription, x: nat) {
    x in s.box.consumed || (!Over(s) && InCustody(s, x))
  }

  /** Entry x was dropped or discarded, or it is stranded: not read while there still was a reader. */
  ghost predicate Lost(s: Subscription, x: nat) {
    Gone(s, x) || (Over(s) && InCustody(s, x) && x !in s.box.consumed)
  }

  /** Entries of the subscription's time are in custody or gone, never both; others are neither. */
  lemma InCustodyOrGone(s: Subscription, now: nat, x: nat)
    requires Conserved(s, now)
    ensures if s.from <= x < End(s, now) then InCustody(s, x) <==> !Gone(s, x) else !InCustody(s, x) && !Gone(s, x)
  {
    RangeMember(s.from, End(s, now), x);
    var m := s.box;
    assert Everywhere(s)[x] == multiset(s.held)[x] + multiset(m.scheduled)[x] + multiset(m.queue)[x]
      + multiset(m.consumed)[x] + multiset(m.dropped)[x] + multiset(m.discarded)[x];
    LineMembers(m, x);
  }

  /** Entries of the subscription's time either reach the stream or are lost, never both; others do neither. */
  lemma ReachesOrLost(s: Subscription, now: nat, x: nat)
    requires Conserved(s, now)
    ensures if s.from <= x < End(s, now) then Reaches(s, x) <==> !Lost(s, x) else !Reaches(s, x) && !Lost(s, x)
  {
    InCustodyOrGone(s, now, x);
    LineMembers(s.box, x);
  }

  lemma LineMembers(m: Mailbox<nat>, x: nat)
    ensures x in Line(m) <==> x in multiset(m.consumed) || x in multiset(m.queue) || x in multiset(m.scheduled)
  {
    assert multiset(Line(m)) == multiset(m.consumed) + multiset(m.queue) + multiset(m.scheduled);
    assert x in Line(m) <==> x in multiset(Line(m));
  }

  /** What later events cannot change: the history so far, the subscription's start, and that its end comes later. */
  ghost predicate Precedes<E>(s: System<E>, u: System<E>, i: nat) {
    && s.history <= u.history && i < |s.subs| && i < |u.subs|
    && u.subs[i].from == s.subs[i].from
    && (s.subs[i].until.Some? ==> u.subs[i].until == s.subs[i].until)
    && (s.subs[i].until.None? ==> |s.history| <= End(u.subs[i], |u.history|))
  }

  lemma StepPrecedes<E>(s: System<E>, u: System<E>, e: Event<E>, i: nat)
    requires Precedes(s, u, i)
    ensures Precedes(s, Next(u, e), i)
  {
    SubAfter(u, e, i);
    HistoryGrows(u, e);
  }

  lemma {:induction false} Continues<E>(before: seq<Event<E>>, after: seq<Event<E>>, i: nat)
    requires i < |Run(before).subs|
    ensures Precedes(Run(before), Run(before + after), i)
  {
    if after == [] {
      assert before + after == before;
    } else {
      var n := |after| - 1;
      var front := before + after[..n];
      Continues(before, after[..n], i);
      RunSnoc(front, after[n]);
      assert before + after == front + [after[n]];
      StepPrecedes(Run(before), Run(front), after[n], i);
    }
  }

  lemma HistoryGrows<E>(s: System<E>, e: Event<E>)
    ensures s.history <= Next(s, e).history
  {
  }

  /** What the snapshot copied, in terms of the later history. */
  lemma SnapshotIs<E>(history: seq<E>, later: seq<E>)
    requires history <= later
    ensures LastN(history, MAX_BUFFERED_ENTRIES) == later[SnapshotStart(|history|)..|history|]
  {
  }

  /** The stream is offered entry x by its snapshot of length t or through its mailbox. */
  ghost predicate IsOffered(s: Subscription, t: nat, x: nat) {
    InSnapshot(t, x) || Reaches(s, x)
  }

  ghost predicate IsOfferedTwice(s: Subscription, t: nat, x: nat) {
    InSnapshot(t, x) && Reaches(s, x)
  }

  lemma OffersKnown(s: Subscription, now: nat, t: nat, x: nat)
    requires Conserved(s, now) && s.from <= t <= End(s, now)
    ensures Min(s.from, SnapshotStart(t)) <= x < End(s, now) ==>
              (!IsOffered(s, t, x) <==> !InSnapshot(t, x) && Lost(s, x))
    ensures IsOfferedTwice(s, t, x) <==> Max(s.from, SnapshotStart(t)) <= x < t && !Lost(s, x)
  {
    ReachesOrLost(s, now, x);
  }

  /**
   A stream that has subscribed takes its snapshot, at history length t. However the run goes on:
   of the entries from the earlier of the two starts to the end of the subscription, the stream
   misses exactly those that are outside the snapshot and lost; and it is offered twice exactly
   those from the later start to t that are not lost.
   */
  lemma HandoverHasNoGap<E>(before: seq<Event<E>>, after: seq<Event<E>>, i: nat, x: nat)
    requires i < |Run(before).subs| && Run(before).subs[i].until.None?
    ensures i < |Run(before + after).subs| && Run(before).history <= Run(before + after).history
    ensures LastN(Run(before).history, MAX_BUFFERED_ENTRIES)
         == Run(before + after).history[SnapshotStart(|Run(before).history|)..|Run(before).history|]
    ensures var t, s := |Run(before).history|, Run(before + after).subs[i];
            && (Min(s.from, SnapshotStart(t)) <= x < End(s, |Run(before + after).history|) ==>
                  (!IsOffered(s, t, x) <==> !InSnapshot(t, x) && Lost(s, x)))
            && (IsOfferedTwice(s, t, x) <==> Max(s.from, SnapshotStart(t)) <= x < t && !Lost(s, x))
  {
    var early, late := Run(before), Run(before + after);
    RunConserves(before);
    RunConserves(before + after);
    Continues(before, after, i);
    SnapshotIs(early.history, late.history);
    assert Conserved(early.subs[i], |early.history|);
    OffersKnown(late.subs[i], |late.history|, |early.history|, x);
  }

  lemma CallbackKeepsLost(s: Subscription, time: real, x: nat)
    requires Lost(s, x)
    ensures Lost(s.(box := CallbackRun(s.box, time)), x)
  {
    var m := s.box;
    CallbackLine(m, time);
    if !m.loopClosed && m.scheduled != [] {
      assert m.scheduled == [m.scheduled[0]] + m.scheduled[1..];
      assert CallbackRun(m, time).dropped == m.dropped || CallbackRun(m, time).dropped == m.dropped + [m.scheduled[0]];
      assert Line(m) == m.consumed + m.queue + [m.scheduled[0]] + m.scheduled[1..];
    }
  }

  lemma SubStepKeepsLost<E>(s: Subscription, now: nat, e: Event<E>, x: nat)
    requires Lost(s, x)
    ensures Lost(SubNext(s, now, e), x)
  {
    match e
    case Deliver(_, index) =>
      if index in s.held {
        DeliverKeeps(s.box, index);
        assert index in Delivered(s.box, index).discarded || index in Line(Delivered(s.box, index));
      }
    case RunCallback(_, time) => CallbackKeepsLost(s, time, x);
    case _ =>
  }

  /** What is lost stays lost: no continuation of the run brings it to the stream. */
  lemma {:induction false} LostForever<E>(before: seq<Event<E>>, after: seq<Event<E>>, i: nat, x: nat)
    requires i < |Run(before).subs| && Lost(Run(before).subs[i], x)
    ensures i < |Run(before + after).subs| && Lost(Run(before + after).subs[i], x)
  {
    if after == [] {
      assert before + after == before;
    } else {
      var n := |after| - 1;
      var front := before + after[..n];
      LostForever(before, after[..n], i, x);
      RunSnoc(front, after[n]);
      assert before + after == front + [after[n]];
      StepKeepsLost(Run(front), after[n], i, x);
    }
  }

  lemma StepKeepsLost<E>(s: System<E>, e: Event<E>, i: nat, x: nat)
    requires i < |s.subs| && Lost(s.subs[i], x)
    ensures i < |Next(s, e).subs| && Lost(Next(s, e).subs[i], x)
  {
    assert i < |Next(s, e).subs|;
    SubAfter(s, e, i);
    if !e.Append? && !e.Subscribe? && e.sub == i {
      SubStepKeepsLost(s.subs[i], |s.history|, e, x);
    }
  }

  /** From s to u nothing was read, nothing ran, and what was delivered was discarded. */
  ghost predicate Stands(s: Subscription, u: Subscription) {
    && u.box.loopClosed && u.box.consumed == s.box.consumed && u.box.queue == s.box.queue
    && u.box.scheduled == s.box.scheduled && u.box.dropped == s.box.dropped && s.box.discarded <= u.box.discarded
  }

  /** From s to u nothing was read, and no entry came to be held. */
  ghost predicate Ended(s: Subscription, u: Subscription) {
    u.until.Some? && u.box.consumed == s.box.consumed && u.held <= s.held
  }

  lemma StepStands<E>(s: System<E>, e: Event<E>, i: nat, was: Subscription)
    requires i < |s.subs|
    ensures i < |Next(s, e).subs|
    ensures Stands(was, s.subs[i]) ==> Stands(was, Next(s, e).subs[i])
    ensures Ended(was, s.subs[i]) ==> Ended(was, Next(s, e).subs[i]) && Next(s, e).subs[i].until == s.subs[i].until
  {
    assert i < |Next(s, e).subs|;
    SubAfter(s, e, i);
    if s.subs[i].until.Some? && e.RunCallback? && e.sub == i {
      CallbackReadsNothing(s.subs[i].box, e.now);
    }
  }

  lemma CallbackReadsNothing<T>(m: Mailbox<T>, time: real)
    ensures CallbackRun(m, time).consumed == m.consumed
  {
  }

  /** Once its loop is closed a subscriber stands still, however the run goes on. */
  lemma {:induction false} ClosedLoopStands<E>(before: seq<Event<E>>, after: seq<Event<E>>, i: nat)
    requires i < |Run(before).subs|
    ensures i < |Run(before + [CloseLoop(i)] + after).subs|
    ensures Stands(Run(before).subs[i], Run(before + [CloseLoop(i)] + after).subs[i])
  {
    var closed := before + [CloseLoop(i)];
    if after == [] {
      assert closed + after == closed;
      RunSnoc(before, CloseLoop(i));
    } else {
      var n := |after| - 1;
      ClosedLoopStands(before, after[..n], i);
      assert closed + after == (closed + after[..n]) + [after[n]];
      RunSnoc(closed + after[..n], after[n]);
      StepStands(Run(closed + after[..n]), after[n], i, Run(before).subs[i]);
    }
  }

  /** Once it is ended a subscription reads nothing and is given nothing new to hold, however the run goes on. */
  lemma {:induction false} UnsubscribedStays<E>(before: seq<Event<E>>, after: seq<Event<E>>, i: nat)
    requires i < |Run(before).subs| && Run(before).subs[i].until.None?
    ensures i < |Run(before + [Unsubscribe(i)] + after).subs|
    ensures Ended(Run(before).subs[i], Run(before + [Unsubscribe(i)] + after).subs[i])
    ensures Run(before + [Unsubscribe(i)] + after).subs[i].until == Some(|Run(before).history|)
  {
    var ended := before + [Unsubscribe(i)];
    if after == [] {
      assert ended + after == ended;
      RunSnoc(before, Unsubscribe(i));
    } else {
      var n := |after| - 1;
      UnsubscribedStays(before, after[..n], i);
      assert ended + after == (ended + after[..n]) + [after[n]];
      RunSnoc(ended + after[..n], after[n]);
      StepStands(Run(ended + after[..n]), after[n], i, Run(before).subs[i]);
    }
  }

  function Min(a: nat, b: nat): nat { if a <= b then a else b }

  function Max(a: nat, b: nat): nat { if a <= b then b else a }

  // ---------------------------------------------------------------- isolation

  /** Events that can matter to subscription b: the shared ones and its own. */
  predicate Concerns<E>(e: Event<E>, b: nat) {
    e.Append? || e.Subscribe? || e.sub == b
  }

  /** The run in which all other subscribers' readers, loops and deliveries stand still. */
  function Without<E>(events: seq<Event<E>>, b: nat): seq<Event<E>> {
    if events == [] then []
    else Without(events[..|events| - 1], b) + if Concerns(events[|events| - 1], b) then [events[|events| - 1]] else []
  }

  /** The same as far as subscription b can tell. */
  ghost predicate SameFor<E>(s: System<E>, u: System<E>, b: nat) {
    s.history == u.history && |s.subs| == |u.subs| && (b < |s.subs| ==> s.subs[b] == u.subs[b])
  }

  lemma SameForStep<E>(s: System<E>, u: System<E>, e: Event<E>, b: nat)
    requires SameFor(s, u, b)
    ensures SameFor(Next(s, e), if Concerns(e, b) then Next(u, e) else u, b)
  {
    var v := if Concerns(e, b) then Next(u, e) else u;
    if b < |Next(s, e).subs| {
      SubAfter(s, e, b);
      if Concerns(e, b) {
        SubAfter(u, e, b);
      }
    }
  }

  lemma RunSnoc<E>(events: seq<Event<E>>, e: Event<E>)
    ensures Run(events + [e]) == Next(Run(events), e)
  {
    var all := events + [e];
    assert all[..|all| - 1] == events;
  }

  /** What one subscriber receives never depends on how fast the others read. */
  lemma {:induction false} SubscribersAreIsolated<E>(events: seq<Event<E>>, b: nat)
    ensures SameFor(Run(events), Run(Without(events, b)), b)
  {
    if events != [] {
      var front, e := events[..|events| - 1], events[|events| - 1];
      SubscribersAreIsolated(front, b);
      SameForStep(Run(front), Run(Without(front, b)), e, b);
      RunSnoc(Without(front, b), e);
      assert Without(front, b) + [] == Without(front, b);
    }
  }
}
