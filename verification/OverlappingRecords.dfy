/** When a subscriber gets its entries in order although `record` calls overlap. */
module OverlappingRecords {
  import opened Basics
  import opened Mailboxes
  import opened Broadcast
  import opened DeliveryOrder

  /** The line is increasing, and whatever is still held belongs behind all of it. */
  ghost predicate Sorted(s: Subscription) {
    Increasing(Line(s.box)) && AboveLine(s)
  }

  ghost predicate AboveLine(s: Subscription) {
    forall y :: y in s.held ==> Below(Line(s.box), y)
  }

  /** A delivery to subscription i hands over the least entry held for it. */
  ghost predicate HandsOverLeast<E>(s: System<E>, e: Event<E>, i: nat) {
    e.Deliver? && e.sub == i && i < |s.subs| && e.index in s.subs[i].held ==> IsLeast(e.index, s.subs[i].held)
  }

  ghost predicate IsLeast(x: nat, held: set<nat>) {
    forall y :: y in held ==> x <= y
  }

  ghost predicate LeastFirst<E>(events: seq<Event<E>>, i: nat) {
    events != [] ==>
      && LeastFirst(events[..|events| - 1], i)
      && HandsOverLeast(Run(events[..|events| - 1]), events[|events| - 1], i)
  }

  predicate Lossless(s: Subscription) {
    s.box.dropped == [] && s.box.discarded == []
  }

  lemma CustodyBelow(s: Subscription, now: nat)
    requires Conserved(s, now)
    ensures Below(Line(s.box), now) && forall y :: y in s.held ==> y < now
  {
    forall x: nat | InCustody(s, x) ensures x < now {
      InCustodyOrGone(s, now, x);
    }
    forall k | 0 <= k < |Line(s.box)| ensures Line(s.box)[k] < now {
      assert InCustody(s, Line(s.box)[k]);
    }
    forall y | y in s.held ensures y < now {
      assert InCustody(s, y);
    }
  }

  lemma DeliverySorts(s: Subscription, index: nat)
    requires Sorted(s) && index in s.held && IsLeast(index, s.held)
    ensures Sorted(s.(held := s.held - {index}, box := Delivered(s.box, index)))
  {
    DeliverKeeps(s.box, index);
  }

  lemma CallbackSorts(s: Subscription, time: real)
    requires Sorted(s)
    ensures Sorted(s.(box := CallbackRun(s.box, time)))
  {
    CallbackLine(s.box, time);
    if CallbackRun(s.box, time).dropped != s.box.dropped {
      forall y | y in s.held ensures Below(Line(CallbackRun(s.box, time)), y) {
        LineLosesOne(s.box, y);
      }
      if m: nat :| Below(Line(s.box), m) {
        LineLosesOne(s.box, m);
      } else {
        LineBounded(Line(s.box));
      }
    }
  }

  lemma LineBounded(line: seq<nat>)
    requires Increasing(line)
    ensures exists m: nat :: Below(line, m)
  {
    if line == [] {
      assert Below(line, 0);
    } else {
      assert Below(line, line[|line| - 1] + 1);
    }
  }

  lemma SubStepSorts<E>(s: Subscription, now: nat, e: Event<E>)
    requires Conserved(s, now) && Sorted(s)
    requires e.Deliver? && e.index in s.held ==> IsLeast(e.index, s.held)
    ensures Sorted(SubNext(s, now, e))
  {
    match e
    case Deliver(_, index) =>
      if index in s.held {
        DeliverySorts(s, index);
      }
    case RunCallback(_, time) => CallbackSorts(s, time);
    case Get(_) => TakeKeeps(s.box);
    case _ =>
  }

  /** If the outcome is sorted and nothing was lost, then it was sorted before and the least entry was handed over. */
  lemma SubStepWasSorted<E>(s: Subscription, now: nat, e: Event<E>)
    requires Conserved(s, now) && Lossless(SubNext(s, now, e)) && Sorted(SubNext(s, now, e))
    ensures Lossless(s) && Sorted(s)
    ensures e.Deliver? && e.index in s.held ==> IsLeast(e.index, s.held)
  {
    match e
    case Deliver(_, index) =>
      if index in s.held {
        DeliveryWasSorted(s, index);
      }
    case RunCallback(_, time) => CallbackLine(s.box, time);
    case Get(_) => TakeKeeps(s.box);
    case _ =>
  }

  lemma DeliveryWasSorted(s: Subscription, index: nat)
    requires index in s.held
    requires var u := s.(held := s.held - {index}, box := Delivered(s.box, index)); Lossless(u) && Sorted(u)
    ensures Lossless(s) && Sorted(s) && IsLeast(index, s.held)
  {
    DeliverKeeps(s.box, index);
    var line := Line(s.box);
    assert !s.box.loopClosed && Line(Delivered(s.box, index)) == line + [index];
    assert forall k :: 0 <= k < |line| ==> (line + [index])[k] == line[k];
    assert (line + [index])[|line|] == index;
    forall y | y in s.held ensures Below(line, y) && index <= y {
      if y != index {
        assert y in s.held - {index};
      }
    }
  }

  ghost predicate OrderCharacterised<E>(events: seq<Event<E>>, i: nat) {
    if i < |Run(events).subs| then
      var s := Run(events).subs[i];
      (LeastFirst(events, i) ==> Sorted(s)) && (Lossless(s) && Sorted(s) ==> LeastFirst(events, i))
    else LeastFirst(events, i)
  }

  lemma {:induction false} OrderFollowsDeliveries<E>(events: seq<Event<E>>, i: nat)
    ensures OrderCharacterised(events, i)
  {
    if events != [] {
      var front, e := events[..|events| - 1], events[|events| - 1];
      OrderFollowsDeliveries(front, i);
      RunConserves(front);
      var s := Run(front);
      if i < |Run(events).subs| {
        SubAfter(s, e, i);
        if i < |s.subs| {
          assert Conserved(s.subs[i], |s.history|);
          StepCharacterised(s, e, i);
        }
      }
    }
  }

  lemma StepCharacterised<E>(s: System<E>, e: Event<E>, i: nat)
    requires i < |s.subs| && Conserved(s.subs[i], |s.history|)
    ensures i < |Next(s, e).subs|
    ensures Sorted(s.subs[i]) && HandsOverLeast(s, e, i) ==> Sorted(Next(s, e).subs[i])
    ensures Lossless(Next(s, e).subs[i]) && Sorted(Next(s, e).subs[i]) ==>
              Lossless(s.subs[i]) && Sorted(s.subs[i]) && HandsOverLeast(s, e, i)
  {
    SubAfter(s, e, i);
    var sub, now := s.subs[i], |s.history|;
    if e.Append? {
      CustodyBelow(sub, now);
      assert forall y :: y in sub.held ==> y in HeldAfterAppend(sub, now).held;
    } else if !e.Subscribe? && e.sub == i {
      if Sorted(sub) && HandsOverLeast(s, e, i) {
        SubStepSorts(sub, now, e);
      }
      if Lossless(SubNext(sub, now, e)) && Sorted(SubNext(sub, now, e)) {
        SubStepWasSorted(sub, now, e);
      }
    }
  }

  /**
   However `record` calls overlap: what a subscriber gets is in history order whenever each delivery
   to it hands over the least entry held for it; and for a subscriber that has lost nothing, and has
   nothing still to come, only then.
   */
  lemma InOrderIffLeastFirst<E>(events: seq<Event<E>>, i: nat)
    requires i < |Run(events).subs|
    ensures LeastFirst(events, i) ==> Increasing(Line(Run(events).subs[i].box))
    ensures var s := Run(events).subs[i];
            s.held == {} && Lossless(s) ==> (Increasing(Line(s.box)) <==> LeastFirst(events, i))
  {
    OrderFollowsDeliveries(events, i);
  }

  /** Going on after `events`, no record reaches subscription i's lock section while another is held for it. */
  ghost predicate Quiet<E>(events: seq<Event<E>>, more: seq<Event<E>>, i: nat) {
    more != [] ==>
      && Quiet(events, more[..|more| - 1], i)
      && (more[|more| - 1].Append? ==> NothingHeld(Run(events + more[..|more| - 1]), i))
  }

  ghost predicate NothingHeld<E>(s: System<E>, i: nat) {
    i < |s.subs| && (s.subs[i].held == {} || s.subs[i].until.Some?)
  }

  ghost predicate OrderedFor<E>(s: System<E>, i: nat) {
    i < |s.subs| && Increasing(Line(s.subs[i].box))
  }

  /** Whatever happens next, short of new overlapping records, subscription i stays in order. */
  ghost predicate StaysOrdered<E(!new)>(events: seq<Event<E>>, i: nat) {
    forall more: seq<Event<E>> :: Quiet(events, more, i) ==> OrderedFor(Run(events + more), i)
  }

  ghost predicate AtMostOne(held: set<nat>) {
    forall a, b :: a in held && b in held ==> a == b
  }

  lemma AtMostOneIff(held: set<nat>)
    ensures AtMostOne(held) <==> |held| <= 1
  {
    if a :| a in held {
      var rest := held - {a};
      assert |rest| == |held| - 1;
      if b :| b in rest {
        assert |rest - {b}| == |rest| - 1;
      } else {
        assert rest == {};
      }
    }
  }

  lemma StepStaysOrdered<E>(s: System<E>, e: Event<E>, i: nat)
    requires i < |s.subs| && Conserved(s.subs[i], |s.history|)
    requires Sorted(s.subs[i]) && AtMostOne(s.subs[i].held) && (e.Append? ==> NothingHeld(s, i))
    ensures i < |Next(s, e).subs| && Sorted(Next(s, e).subs[i]) && AtMostOne(Next(s, e).subs[i].held)
  {
    SubAfter(s, e, i);
    StepCharacterised(s, e, i);
  }

  lemma {:induction false} QuietKeepsOrder<E>(events: seq<Event<E>>, more: seq<Event<E>>, i: nat)
    requires i < |Run(events).subs| && Sorted(Run(events).subs[i]) && AtMostOne(Run(events).subs[i].held)
    requires Quiet(events, more, i)
    ensures i < |Run(events + more).subs|
    ensures Sorted(Run(events + more).subs[i]) && AtMostOne(Run(events + more).subs[i].held)
  {
    if more == [] {
      assert events + more == events;
    } else {
      var front, e := more[..|more| - 1], more[|more| - 1];
      QuietKeepsOrder(events, front, i);
      RunConserves(events + front);
      assert events + more == (events + front) + [e];
      RunSnoc(events + front, e);
      StepStaysOrdered(Run(events + front), e, i);
    }
  }

  /** Handing over y next puts it at the end of the line of an open loop. */
  lemma HandedOver<E>(events: seq<Event<E>>, i: nat, y: nat)
    requires i < |Run(events).subs| && y in Run(events).subs[i].held && !Run(events).subs[i].box.loopClosed
    ensures i < |Run(events + [Deliver(i, y)]).subs|
    ensures var s, u := Run(events).subs[i], Run(events + [Deliver(i, y)]).subs[i];
            Line(u.box) == Line(s.box) + [y] && u.held == s.held - {y} && !u.box.loopClosed
  {
    var e: Event<E> := Deliver(i, y);
    RunSnoc(events, e);
    SubAfter(Run(events), e, i);
    DeliverKeeps(Run(events).subs[i].box, y);
  }

  lemma QuietDeliveries<E>(events: seq<Event<E>>, i: nat, x: nat, y: nat)
    ensures Quiet(events, [Deliver(i, x)], i) && Quiet(events, [Deliver(i, x), Deliver(i, y)], i)
  {
    var d: Event<E> := Deliver(i, x);
    assert [d][..0] == [];
    var two: seq<Event<E>> := [d, Deliver(i, y)];
    assert two[..1] == [d];
  }

  /** Two held entries can be handed over the wrong way round. */
  lemma WrongWayRound<E(!new)>(events: seq<Event<E>>, i: nat, x: nat, y: nat)
    requires i < |Run(events).subs| && !Run(events).subs[i].box.loopClosed
    requires x in Run(events).subs[i].held && y in Run(events).subs[i].held && x < y
    ensures !StaysOrdered(events, i)
  {
    var first, second: Event<E> := Deliver(i, y), Deliver(i, x);
    var line := Line(Run(events).subs[i].box);
    HandedOver(events, i, y);
    HandedOver(events + [first], i, x);
    QuietDeliveries(events, i, y, x);
    var more := [first, second];
    assert events + [first] + [second] == events + more;
    var swapped := Line(Run(events + more).subs[i].box);
    assert swapped == line + [y] + [x];
    assert swapped[|line|] == y && swapped[|line| + 1] == x;
    assert Quiet(events, more, i) && !OrderedFor(Run(events + more), i);
  }

  lemma TooLate<E(!new)>(events: seq<Event<E>>, i: nat, y: nat, k: nat)
    requires i < |Run(events).subs| && !Run(events).subs[i].box.loopClosed && y in Run(events).subs[i].held
    requires k < |Line(Run(events).subs[i].box)| && Line(Run(events).subs[i].box)[k] >= y
    ensures !StaysOrdered(events, i)
  {
    var line := Line(Run(events).subs[i].box);
    HandedOver(events, i, y);
    QuietDeliveries(events, i, y, y);
    var more: seq<Event<E>> := [Deliver(i, y)];
    assert (line + [y])[k] == line[k] && (line + [y])[|line|] == y;
    assert Quiet(events, more, i) && !OrderedFor(Run(events + more), i);
  }

  /**
   A subscription on an open loop is sure to stay in order exactly if it is in order now and at most
   one entry is held for it, which belongs behind all that was delivered.
   */
  lemma StaysOrderedIff<E(!new)>(events: seq<Event<E>>, i: nat)
    requires i < |Run(events).subs| && !Run(events).subs[i].box.loopClosed
    ensures StaysOrdered(events, i) <==> Sorted(Run(events).subs[i]) && |Run(events).subs[i].held| <= 1
  {
    var s := Run(events).subs[i];
    AtMostOneIff(s.held);
    if Sorted(s) && AtMostOne(s.held) {
      forall more: seq<Event<E>> | Quiet(events, more, i) ensures OrderedFor(Run(events + more), i) {
        QuietKeepsOrder(events, more, i);
      }
    } else if !AtMostOne(s.held) {
      var a, b :| a in s.held && b in s.held && a != b;
      WrongWayRound(events, i, if a < b then a else b, if a < b then b else a);
    } else if !AboveLine(s) {
      var y :| y in s.held && !Below(Line(s.box), y);
      var k :| 0 <= k < |Line(s.box)| && Line(s.box)[k] >= y;
      TooLate(events, i, y, k);
    } else {
      var none: seq<Event<E>> := [];
      assert events + none == events;
      assert Quiet(events, none, i) && !OrderedFor(Run(events + none), i);
    }
  }

  /** Overlapping calls can swap entries: delivery happens outside the lock. */
  lemma OverlapCanReorder<E>(a: E, b: E)
    ensures Run([Subscribe, Append(a), Append(b), Deliver(0, 1), Deliver(0, 0)]).subs
         == [Subscription(0, None, {}, NewMailbox<nat>().(scheduled := [1, 0]))]
  {
    var m := NewMailbox<nat>();
    var h0: set<nat>, h1: set<nat>, h2: set<nat> := {}, {0}, {0, 1};
    assert h0 + {0} == h1 && h1 + {1} == h2 && h2 - {1} == h1 && h1 - {0} == h0;
    var e0: seq<Event<E>> := [];
    var e1 := e0 + [Subscribe];
    var e2 := e1 + [Append(a)];
    var e3 := e2 + [Append(b)];
    var e4 := e3 + [Deliver(0, 1)];
    var e5 := e4 + [Deliver(0, 0)];
    RunSnoc(e0, Subscribe);
    RunSnoc(e1, Append(a));
    RunSnoc(e2, Append(b));
    RunSnoc(e3, Deliver(0, 1));
    RunSnoc(e4, Deliver(0, 0));
    SubAfter(Run(e1), Append(a), 0);
    SubAfter(Run(e2), Append(b), 0);
    SubAfter(Run(e3), Deliver(0, 1), 0);
    SubAfter(Run(e4), Deliver(0, 0), 0);
    assert Run(e1).subs[0] == Subscription(0, None, h0, m);
    assert Run(e2).subs[0] == Subscription(0, None, h1, m);
    assert Run(e3).subs[0] == Subscription(0, None, h2, m);
    assert Run(e4).subs[0] == Subscription(0, None, h1, m.(scheduled := [1]));
    assert [1] + [0] == [1, 0];
    assert e5 == [Subscribe, Append(a), Append(b), Deliver(0, 1), Deliver(0, 0)];
  }
}
