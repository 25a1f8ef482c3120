/** In which order a subscriber gets its entries, when `record` calls do not overlap, and what then is missing. */
module DeliveryOrder {
  import opened Basics
  import opened Mailboxes
  import opened Broadcast

  // ---------------------------------------------------------------- order of non-overlapping records

  /** No producer is between its append and its last delivery. */
  ghost predicate AllDelivered<E>(s: System<E>) {
    forall i :: 0 <= i < |s.subs| ==> s.subs[i].held == {}
  }

  /** `record` calls do not overlap: each append finds all earlier entries delivered. */
  ghost predicate NonOverlapping<E>(events: seq<Event<E>>) {
    events != [] ==>
      && NonOverlapping(events[..|events| - 1])
      && (events[|events| - 1].Append? ==> AllDelivered(Run(events[..|events| - 1])))
  }

  ghost predicate Below(s: seq<nat>, n: int) {
    forall i :: 0 <= i < |s| ==> s[i] < n
  }

  /** The line is increasing and lies below whatever is still held; that can only be the newest entry. */
  ghost predicate InOrder(s: Subscription, now: nat) {
    && Increasing(Line(s.box)) && Below(Line(s.box), End(s, now))
    && s.from <= End(s, now) <= now
    && (s.held == {}
        || (s.held == {now - 1} && now > 0 && s.from < now && End(s, now) == now && Below(Line(s.box), now - 1)))
  }

  lemma AppendKeepsOrder(s: Subscription, now: nat)
    requires InOrder(s, now) && s.held == {}
    ensures InOrder(HeldAfterAppend(s, now), now + 1)
  {
  }

  lemma LineLosesOne(m: Mailbox<nat>, bound: int)
    requires Increasing(Line(m)) && Below(Line(m), bound) && m.scheduled != []
    ensures Increasing(m.consumed + m.queue + m.scheduled[1..])
    ensures Below(m.consumed + m.queue + m.scheduled[1..], bound)
  {
    var was, now, k := Line(m), m.consumed + m.queue + m.scheduled[1..], |m.consumed| + |m.queue|;
    forall i | 0 <= i < |now| ensures now[i] == was[if i < k then i else i + 1] {
    }
  }

  lemma SubStepKeepsOrder<E>(s: Subscription, now: nat, e: Event<E>)
    requires InOrder(s, now) && Accounted(s.box)
    ensures InOrder(SubNext(s, now, e), now)
  {
    match e
    case Deliver(_, index) =>
      if index in s.held {
        DeliverKeeps(s.box, index);
        assert s.held - {index} == {};
      }
    case RunCallback(_, time) =>
      CallbackLine(s.box, time);
      if CallbackRun(s.box, time).dropped != s.box.dropped {
        LineLosesOne(s.box, End(s, now));
        if s.held != {} {
          LineLosesOne(s.box, now - 1);
        }
      }
    case Get(_) => TakeKeeps(s.box);
    case _ =>
  }

  ghost predicate AllInOrder<E>(s: System<E>) {
    forall i :: 0 <= i < |s.subs| ==> InOrder(s.subs[i], |s.history|)
  }

  lemma StepKeepsOrder<E>(s: System<E>, e: Event<E>)
    requires AllConserved(s) && AllInOrder(s) && (e.Append? ==> AllDelivered(s))
    ensures AllInOrder(Next(s, e))
  {
    var next := Next(s, e);
    forall i | 0 <= i < |next.subs| ensures InOrder(next.subs[i], |next.history|) {
      SubAfter(s, e, i);
      if i < |s.subs| && e.Append? {
        AppendKeepsOrder(s.subs[i], |s.history|);
      } else if i < |s.subs| && !e.Subscribe? && e.sub == i {
        assert Conserved(s.subs[i], |s.history|);
        SubStepKeepsOrder(s.subs[i], |s.history|, e);
      }
    }
  }

  /**
   With non-overlapping `record` calls every subscriber consumes, and will consume, entries of the
   history since it subscribed in history order.
   */
  lemma {:induction false} ReceivedInOrder<E>(events: seq<Event<E>>)
    requires NonOverlapping(events)
    ensures AllInOrder(Run(events))
  {
    if events != [] {
      var front := events[..|events| - 1];
      ReceivedInOrder(front);
      RunConserves(front);
      StepKeepsOrder(Run(front), events[|events| - 1]);
    }
  }

  // ---------------------------------------------------------------- without drops nothing is missing

  /** As long as nothing was dropped, the line is a gap-free stretch of the history. */
  ghost predicate GapFree(s: Subscription, now: nat) {
    s.box.dropped == [] ==>
      && s.from + |Line(s.box)| <= End(s, now)
      && Line(s.box) == Range(s.from, s.from + |Line(s.box)|)
      && (!s.box.loopClosed ==> s.from + |Line(s.box)| + |s.held| == End(s, now))
  }

  lemma DeliveryKeepsGapFree(s: Subscription, now: nat, index: nat)
    requires InOrder(s, now) && GapFree(s, now) && Accounted(s.box) && index in s.held
    ensures GapFree(s.(held := s.held - {index}, box := Delivered(s.box, index)), now)
  {
    DeliverKeeps(s.box, index);
    assert s.held == {index};
    assert s.held - {index} == {};
    RangeSnoc(s.from, s.from + |Line(s.box)|);
  }

  lemma SubStepKeepsGapFree<E>(s: Subscription, now: nat, e: Event<E>)
    requires InOrder(s, now) && GapFree(s, now) && Accounted(s.box)
    ensures GapFree(SubNext(s, now, e), now)
  {
    match e
    case Deliver(_, index) =>
      if index in s.held {
        DeliveryKeepsGapFree(s, now, index);
      }
    case RunCallback(_, time) => CallbackLine(s.box, time);
    case Get(_) => TakeKeeps(s.box);
    case _ =>
  }

  ghost predicate AllGapFree<E>(s: System<E>) {
    forall i :: 0 <= i < |s.subs| ==> GapFree(s.subs[i], |s.history|)
  }

  lemma StepKeepsGapFree<E>(s: System<E>, e: Event<E>)
    requires AllConserved(s) && AllInOrder(s) && AllGapFree(s) && (e.Append? ==> AllDelivered(s))
    ensures AllGapFree(Next(s, e))
  {
    var next := Next(s, e);
    forall i | 0 <= i < |next.subs| ensures GapFree(next.subs[i], |next.history|) {
      SubAfter(s, e, i);
      if i < |s.subs| {
        assert Conserved(s.subs[i], |s.history|) && InOrder(s.subs[i], |s.history|) && GapFree(s.subs[i], |s.history|);
        if !e.Append? && !e.Subscribe? && e.sub == i {
          SubStepKeepsGapFree(s.subs[i], |s.history|, e);
        }
      }
    }
  }

  /**
   With non-overlapping `record` calls, a subscriber that lost nothing to its full queue has in its
   line the entries from its subscription on without a gap, and with an open loop all of them but
   those a producer is still holding.
   */
  lemma {:induction false} NothingMissingWithoutDrops<E>(events: seq<Event<E>>)
    requires NonOverlapping(events)
    ensures AllGapFree(Run(events))
  {
    if events != [] {
      var front := events[..|events| - 1];
      NothingMissingWithoutDrops(front);
      RunConserves(front);
      ReceivedInOrder(front);
      StepKeepsGapFree(Run(front), events[|events| - 1]);
    }
  }
}
