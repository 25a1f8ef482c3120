/**
 One subscriber of the live stream: callbacks scheduled on its event loop, its bounded queue, and
 the throttled warning about dropped entries. `consumed`, `dropped`, `discarded` and `warnings`
 record what has happened.
 */
module Mailboxes {
  const MAX_PER_SUBSCRIBER_QUEUE_SIZE := 1000
  const WARNING_INTERVAL_SECONDS: real := 30.0

  datatype Warning = Warning(at: real, dropped: nat)

  datatype Mailbox<T> = Mailbox(
    loopClosed: bool,
    scheduled: seq<T>,
    queue: seq<T>,
    consumed: seq<T>,
    dropped: seq<T>,
    discarded: seq<T>,
    dropsSinceLastWarning: nat,
    lastWarningAt: real,
    warnings: seq<Warning>)

  function NewMailbox<T>(): Mailbox<T> {
    Mailbox(false, [], [], [], [], [], 0, 0.0, [])
  }

  /** `deliver`: hand the entry to the loop, unless the loop is closed. */
  function Delivered<T>(m: Mailbox<T>, entry: T): Mailbox<T> {
    if m.loopClosed then m.(discarded := m.discarded + [entry]) else m.(scheduled := m.scheduled + [entry])
  }

  /** `_maybe_warn_about_slow_consumer` */
  function MaybeWarned<T>(m: Mailbox<T>, now: real): Mailbox<T> {
    if now - m.lastWarningAt < WARNING_INTERVAL_SECONDS then m
    else m.(lastWarningAt := now, dropsSinceLastWarning := 0,
            warnings := m.warnings + [Warning(now, m.dropsSinceLastWarning)])
  }

  /** `_put_if_possible` */
  function PutIfPossible<T>(m: Mailbox<T>, entry: T, now: real): Mailbox<T> {
    if |m.queue| < MAX_PER_SUBSCRIBER_QUEUE_SIZE then m.(queue := m.queue + [entry])
    else MaybeWarned(m.(dropped := m.dropped + [entry], dropsSinceLastWarning := m.dropsSinceLastWarning + 1), now)
  }

  /** The loop runs the callback that was scheduled first; a closed loop runs nothing. */
  function CallbackRun<T>(m: Mailbox<T>, now: real): Mailbox<T> {
    if m.loopClosed || m.scheduled == [] then m
    else PutIfPossible(m.(scheduled := m.scheduled[1..]), m.scheduled[0], now)
  }

  /** The stream takes the head of the queue. */
  function Taken<T>(m: Mailbox<T>): Mailbox<T> {
    if m.loopClosed || m.queue == [] then m
    else m.(queue := m.queue[1..], consumed := m.consumed + [m.queue[0]])
  }

  function LoopClosed<T>(m: Mailbox<T>): Mailbox<T> {
    m.(loopClosed := true)
  }

  // ---------------------------------------------------------------- what every step keeps

  /** Everything that was ever delivered, wherever it is now. */
  ghost function Contents<T>(m: Mailbox<T>): multiset<T> {
    multiset(m.scheduled) + multiset(m.queue) + multiset(m.consumed) + multiset(m.dropped) + multiset(m.discarded)
  }

  /** Entries that were neither dropped nor discarded, in the order in which they are handed on. */
  function Line<T>(m: Mailbox<T>): seq<T> {
    m.consumed + m.queue + m.scheduled
  }

  function Reported(ws: seq<Warning>): nat {
    if ws == [] then 0 else Reported(ws[..|ws| - 1]) + ws[|ws| - 1].dropped
  }

  function LastWarningAt(ws: seq<Warning>): real {
    if ws == [] then 0.0 else ws[|ws| - 1].at
  }

  /** Consecutive warnings are at least 30 seconds apart, and the first comes no earlier than that. */
  predicate WellSpaced(ws: seq<Warning>) {
    ws != [] ==>
      && WellSpaced(ws[..|ws| - 1])
      && ws[|ws| - 1].at - LastWarningAt(ws[..|ws| - 1]) >= 30.0
  }

  /** The queue is bounded, and every drop is either reported or still counted. */
  ghost predicate Accounted<T>(m: Mailbox<T>) {
    && |m.queue| <= 1000
    && Reported(m.warnings) + m.dropsSinceLastWarning == |m.dropped|
    && m.lastWarningAt == LastWarningAt(m.warnings)
    && WellSpaced(m.warnings)
  }

  /** A delivered entry is in custody, whatever state the mailbox is in. */
  lemma DeliverKeeps<T>(m: Mailbox<T>, entry: T)
    ensures Contents(Delivered(m, entry)) == Contents(m) + multiset{entry}
    ensures Line(Delivered(m, entry)) == Line(m) + if m.loopClosed then [] else [entry]
    ensures Accounted(m) ==> Accounted(Delivered(m, entry))
  {
    assert multiset(m.scheduled + [entry]) == multiset(m.scheduled) + multiset{entry};
    assert multiset(m.discarded + [entry]) == multiset(m.discarded) + multiset{entry};
  }

  lemma WarnKeeps<T>(m: Mailbox<T>, now: real)
    requires Accounted(m)
    ensures Accounted(MaybeWarned(m, now))
    ensures Contents(MaybeWarned(m, now)) == Contents(m) && Line(MaybeWarned(m, now)) == Line(m)
    ensures now >= m.lastWarningAt + 30.0 ==> MaybeWarned(m, now).dropsSinceLastWarning == 0
  {
    var w := MaybeWarned(m, now);
    if w != m {
      assert w.warnings[..|w.warnings| - 1] == m.warnings;
    }
  }

  lemma MultisetSnoc<T>(s: seq<T>, x: T)
    ensures multiset(s + [x]) == multiset(s) + multiset{x}
  {
  }

  lemma QueuedContents<T>(m: Mailbox<T>, entry: T)
    ensures Contents(m.(queue := m.queue + [entry])) == Contents(m) + multiset{entry}
  {
    MultisetSnoc(m.queue, entry);
  }

  lemma DroppedContents<T>(m: Mailbox<T>, entry: T, count: nat)
    ensures Contents(m.(dropped := m.dropped + [entry], dropsSinceLastWarning := count))
         == Contents(m) + multiset{entry}
  {
    MultisetSnoc(m.dropped, entry);
  }

  lemma WarnedContents<T>(m: Mailbox<T>, now: real)
    ensures Contents(MaybeWarned(m, now)) == Contents(m)
  {
  }

  /** A put leaves no entry unaccounted for. */
  lemma PutContents<T>(m: Mailbox<T>, entry: T, now: real)
    ensures Contents(PutIfPossible(m, entry, now)) == Contents(m) + multiset{entry}
  {
    if |m.queue| < MAX_PER_SUBSCRIBER_QUEUE_SIZE {
      QueuedContents(m, entry);
    } else {
      var count := m.dropsSinceLastWarning + 1;
      DroppedContents(m, entry, count);
      WarnedContents(m.(dropped := m.dropped + [entry], dropsSinceLastWarning := count), now);
    }
  }

  lemma PutAccounted<T>(m: Mailbox<T>, entry: T, now: real)
    requires Accounted(m)
    ensures Accounted(PutIfPossible(m, entry, now))
  {
    if |m.queue| >= MAX_PER_SUBSCRIBER_QUEUE_SIZE {
      WarnKeeps(m.(dropped := m.dropped + [entry], dropsSinceLastWarning := m.dropsSinceLastWarning + 1), now);
    }
  }

  lemma CallbackKeeps<T>(m: Mailbox<T>, now: real)
    requires Accounted(m)
    ensures Accounted(CallbackRun(m, now)) && Contents(CallbackRun(m, now)) == Contents(m)
  {
    if !m.loopClosed && m.scheduled != [] {
      var entry, rest := m.scheduled[0], m.scheduled[1..];
      assert m.scheduled == [entry] + rest;
      assert multiset(m.scheduled) == multiset{entry} + multiset(rest);
      PutContents(m.(scheduled := rest), entry, now);
      PutAccounted(m.(scheduled := rest), entry, now);
    }
  }

  /** A callback moves the line on without disturbing it, or, on a full queue only, cuts its own entry out of it. */
  lemma CallbackLine<T>(m: Mailbox<T>, now: real)
    ensures m.dropped <= CallbackRun(m, now).dropped
    ensures if CallbackRun(m, now).dropped == m.dropped then Line(CallbackRun(m, now)) == Line(m)
            else m.scheduled != [] && Line(CallbackRun(m, now)) == m.consumed + m.queue + m.scheduled[1..]
    ensures CallbackRun(m, now).dropped != m.dropped ==> |m.queue| >= 1000
    ensures CallbackRun(m, now).scheduled == if m.loopClosed || m.scheduled == [] then m.scheduled else m.scheduled[1..]
  {
    if !m.loopClosed && m.scheduled != [] {
      var entry, rest := m.scheduled[0], m.scheduled[1..];
      assert m.scheduled == [entry] + rest;
      assert m.consumed + (m.queue + [entry]) + rest == m.consumed + m.queue + m.scheduled;
    }
  }

  lemma TakeKeeps<T>(m: Mailbox<T>)
    requires Accounted(m)
    ensures Accounted(Taken(m)) && Contents(Taken(m)) == Contents(m) && Line(Taken(m)) == Line(m)
    ensures |Taken(m).consumed| == |m.consumed| + if m.loopClosed || m.queue == [] then 0 else 1
  {
    if !m.loopClosed && m.queue != [] {
      var entry, rest := m.queue[0], m.queue[1..];
      assert m.queue == [entry] + rest;
      assert multiset(m.queue) == multiset{entry} + multiset(rest);
      assert (m.consumed + [entry]) + rest == m.consumed + m.queue;
    }
  }
}
