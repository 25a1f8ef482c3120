/** The recorder and its subscribers as objects, proved against the step functions on values. */
module InMemoryRecorder {
  import opened Basics
  import opened Mailboxes
  import Broadcast

  /** One live stream client. Its event loop appears as the callbacks scheduled for it. */
  class Subscriber<T> {
    var loopClosed: bool
    var scheduled: seq<T>
    var queue: seq<T>
    var dropsSinceLastWarning: nat
    var lastWarningAtMonotonic: real
    var warnings: seq<Warning>
    ghost var consumed: seq<T>
    ghost var dropped: seq<T>
    ghost var discarded: seq<T>

    ghost function Box(): Mailbox<T>
      reads this
    {
      Mailbox(loopClosed, scheduled, queue, consumed, dropped, discarded,
              dropsSinceLastWarning, lastWarningAtMonotonic, warnings)
    }

    constructor ()
      ensures Box() == NewMailbox()
    {
      loopClosed, scheduled, queue := false, [], [];
      dropsSinceLastWarning, lastWarningAtMonotonic, warnings := 0, 0.0, [];
      consumed, dropped, discarded := [], [], [];
    }

    /** Exactly this entry comes into the subscriber's custody, at the end of the line while the loop is open. */
    method Deliver(entry: T)
      modifies this
      ensures Box() == Delivered(old(Box()), entry)
      ensures Contents(Box()) == old(Contents(Box())) + multiset{entry}
      ensures Line(Box()) == old(Line(Box())) + if old(loopClosed) then [] else [entry]
      ensures old(Accounted(Box())) ==> Accounted(Box())
    {
      DeliverKeeps(Box(), entry);
      if loopClosed {
        discarded := discarded + [entry];
        return;
      }
      scheduled := scheduled + [entry];
    }

    /** The event loop runs the oldest scheduled callback. */
    method RunCallback(now: real)
      modifies this
      ensures Box() == CallbackRun(old(Box()), now)
      ensures old(Accounted(Box())) ==> Accounted(Box()) && Contents(Box()) == old(Contents(Box()))
      ensures dropped == old(dropped) ==> Line(Box()) == old(Line(Box()))
      ensures dropped != old(dropped) ==> |old(queue)| >= 1000 && queue == old(queue)
    {
      CallbackLine(Box(), now);
      if Accounted(Box()) {
        CallbackKeeps(Box(), now);
      }
      if !loopClosed && scheduled != [] {
        var entry := scheduled[0];
        scheduled := scheduled[1..];
        PutOrDrop(entry, now);
      }
    }

    /** The entry is queued if there is room, and otherwise dropped; nothing else moves. */
    method PutOrDrop(entry: T, now: real)
      modifies this
      ensures Box() == PutIfPossible(old(Box()), entry, now)
      ensures if |old(queue)| < 1000 then queue == old(queue) + [entry] && dropped == old(dropped)
              else queue == old(queue) && dropped == old(dropped) + [entry]
    {
      if |queue| < MAX_PER_SUBSCRIBER_QUEUE_SIZE {
        queue := queue + [entry];
      } else {
        dropped := dropped + [entry];
        dropsSinceLastWarning := dropsSinceLastWarning + 1;
        MaybeWarnAboutSlowConsumer(now);
      }
    }

    /** When the interval has passed, all pending drops are reported and none stays pending. */
    method MaybeWarnAboutSlowConsumer(now: real)
      modifies this
      ensures Box() == MaybeWarned(old(Box()), now)
      ensures now >= old(lastWarningAtMonotonic) + 30.0 ==> dropsSinceLastWarning == 0
    {
      if now - lastWarningAtMonotonic < WARNING_INTERVAL_SECONDS {
        return;
      }
      lastWarningAtMonotonic := now;
      var droppedInThisWindow := dropsSinceLastWarning;
      dropsSinceLastWarning := 0;
      warnings := warnings + [Warning(now, droppedInThisWindow)];
    }

    /** The stream awaits the queue; None when nothing arrives in time. */
    method Get() returns (entry: Option<T>)
      modifies this
      ensures Box() == Taken(old(Box()))
      ensures entry == if old(loopClosed) || old(queue) == [] then None else Some(old(queue)[0])
    {
      if loopClosed || queue == [] {
        return None;
      }
      entry := Some(queue[0]);
      consumed := consumed + [queue[0]];
      queue := queue[1..];
    }
  }

  class InMemoryObservabilityRecorderAdapter<T> {
    var entries: seq<T>
    var subscribers: set<Subscriber<T>>
    ghost var history: seq<T>

    /** The ring buffer holds the newest entries of the history. */
    ghost predicate Valid()
      reads this
    {
      entries == LastN(history, Broadcast.MAX_BUFFERED_ENTRIES)
    }

    constructor ()
      ensures Valid() && history == [] && subscribers == {}
    {
      entries, subscribers, history := [], {}, [];
    }

    /** `deque.append` with a maximum length. */
    method AppendBounded(entry: T)
      modifies this`entries
      ensures entries == LastN(old(entries) + [entry], Broadcast.MAX_BUFFERED_ENTRIES)
    {
      entries := entries + [entry];
      if |entries| > Broadcast.MAX_BUFFERED_ENTRIES {
        entries := entries[|entries| - Broadcast.MAX_BUFFERED_ENTRIES..];
      }
    }

    method Record(entry: T)
      requires Valid()
      modifies this, subscribers
      ensures Valid() && history == old(history) + [entry] && subscribers == old(subscribers)
      ensures forall s :: s in subscribers ==> s.Box() == Delivered(old(s.Box()), entry)
    {
      history := history + [entry];
      AppendBounded(entry);
      LastNSnoc(old(history), entry, Broadcast.MAX_BUFFERED_ENTRIES);
      DeliverToAll(subscribers, entry);
    }

    /** The loop over the copied set, after the lock has been released. */
    static method DeliverToAll(subscribersSnapshot: set<Subscriber<T>>, entry: T)
      modifies subscribersSnapshot
      ensures forall s :: s in subscribersSnapshot ==> s.Box() == Delivered(old(s.Box()), entry)
    {
      var remaining := subscribersSnapshot;
      while remaining != {}
        invariant remaining <= subscribersSnapshot
        invariant forall s :: s in subscribersSnapshot - remaining ==> s.Box() == Delivered(old(s.Box()), entry)
        invariant forall s :: s in remaining ==> s.Box() == old(s.Box())
        decreases |remaining|
      {
        var subscriber :| subscriber in remaining;
        subscriber.Deliver(entry);
        remaining := remaining - {subscriber};
      }
    }

    method Snapshot() returns (copy: seq<T>)
      requires Valid()
      ensures copy == LastN(history, Broadcast.MAX_BUFFERED_ENTRIES)
    {
      copy := entries;
    }

    method Subscribe() returns (subscriber: Subscriber<T>)
      requires Valid()
      modifies this`subscribers
      ensures Valid() && fresh(subscriber) && subscriber.Box() == NewMailbox()
      ensures subscribers == old(subscribers) + {subscriber}
    {
      subscriber := new Subscriber<T>();
      subscribers := subscribers + {subscriber};
    }

    /** Leaving the `async with` block, normally or by an exception. */
    method Unsubscribe(subscriber: Subscriber<T>)
      requires Valid()
      modifies this`subscribers
      ensures Valid() && subscribers == old(subscribers) - {subscriber}
    {
      subscribers := subscribers - {subscriber};
    }
  }
}
