/** One open event stream: subscribe, snapshot, replay, then the queue, with keepalives in between. */
module EventStream {
  import opened Basics
  import opened Mailboxes
  import opened InMemoryRecorder
  import opened ObservabilityEntries
  import opened Json
  import opened ServerSentEvents

  /** The generator behind the response; every call of `Next` runs it up to its next yield. */
  class EventGenerator {
    const recorder: InMemoryObservabilityRecorderAdapter<ObservabilityEntry>
    const subscriber: Subscriber<ObservabilityEntry>
    const snapshot: seq<ObservabilityEntry>
    var replayed: nat
    ghost var yielded: seq<Chunk>

    /** The chunks yielded so far carry the replayed part of the snapshot, then what left the queue. */
    ghost predicate Valid()
      reads this, subscriber
    {
      && replayed <= |snapshot| && (subscriber.consumed != [] ==> replayed == |snapshot|)
      && Payloads(yielded) == EntryTexts(snapshot[..replayed] + subscriber.consumed)
    }

    constructor (recorder: InMemoryObservabilityRecorderAdapter<ObservabilityEntry>,
                 subscriber: Subscriber<ObservabilityEntry>, snapshot: seq<ObservabilityEntry>)
      requires subscriber.consumed == []
      ensures Valid() && yielded == [] && replayed == 0
      ensures this.recorder == recorder && this.subscriber == subscriber
      ensures this.snapshot == snapshot
    {
      this.recorder, this.subscriber, this.snapshot := recorder, subscriber, snapshot;
      replayed, yielded := 0, [];
      new;
      assert snapshot[..replayed] + subscriber.consumed == [];
    }

    /** Entering the stream: the subscription comes first, so nothing recorded in between is missed. */
    static method Open(recorder: InMemoryObservabilityRecorderAdapter<ObservabilityEntry>)
      returns (g: EventGenerator)
      requires recorder.Valid()
      modifies recorder`subscribers
      ensures recorder.Valid() && fresh(g) && fresh(g.subscriber) && g.recorder == recorder
      ensures recorder.subscribers == old(recorder.subscribers) + {g.subscriber}
      ensures g.subscriber.Box() == NewMailbox() && g.snapshot == LastN(recorder.history, 500)
      ensures g.Valid() && g.yielded == []
    {
      var subscriber := recorder.Subscribe();
      var snapshot := recorder.Snapshot();
      g := new EventGenerator(recorder, subscriber, snapshot);
    }

    /** None ends the stream; otherwise the snapshot is replayed first, and then the queue is read. */
    method Next(disconnected: bool) returns (chunk: Option<Chunk>)
      requires Valid() && recorder.Valid()
      modifies this, recorder`subscribers, subscriber
      ensures Valid() && recorder.Valid()
      ensures chunk.None? <==> disconnected
      ensures yielded == old(yielded) + if chunk.Some? then [chunk.value] else []
      ensures recorder.subscribers == old(recorder.subscribers) - if disconnected then {subscriber} else {}
      ensures replayed == old(replayed) + if !disconnected && old(replayed) < |snapshot| then 1 else 0
      ensures subscriber.Box() == if !disconnected && old(replayed) == |snapshot| then Taken(old(subscriber.Box()))
                                  else old(subscriber.Box())
      ensures chunk == Some(Keepalive) ==>
                old(replayed) == |snapshot| && (old(subscriber.loopClosed) || old(subscriber.queue) == [])
    {
      if disconnected {
        recorder.Unsubscribe(subscriber);
        return None;
      }
      var next: Chunk;
      if replayed < |snapshot| {
        next := Replay();
      } else {
        next := ReadQueue();
      }
      chunk := Some(next);
    }

    /** The entry with its result data, as the next event after what was offered so far. */
    method EventFor(entry: ObservabilityEntry, ghost offered: seq<ObservabilityEntry>) returns (chunk: Chunk)
      requires Payloads(yielded) == EntryTexts(offered)
      ensures chunk.Event? && Payloads(yielded + [chunk]) == EntryTexts(offered + [entry])
    {
      YieldedText(yielded, offered, entry);
      chunk := Event(EntryText(entry));
    }

    method Replay() returns (chunk: Chunk)
      requires Valid() && replayed < |snapshot|
      modifies this
      ensures Valid() && replayed == old(replayed) + 1 && chunk.Event? && yielded == old(yielded) + [chunk]
    {
      var entry := snapshot[replayed];
      ghost var offered := snapshot[..replayed];
      assert offered + subscriber.consumed == offered;
      assert snapshot[..replayed + 1] + subscriber.consumed == offered + [entry];
      chunk := EventFor(entry, offered);
      replayed := replayed + 1;
      yielded := yielded + [chunk];
    }

    /** With nothing in the queue the wait times out and a keepalive is sent. */
    method ReadQueue() returns (chunk: Chunk)
      requires Valid() && replayed == |snapshot|
      modifies this, subscriber
      ensures Valid() && replayed == old(replayed) && yielded == old(yielded) + [chunk]
      ensures subscriber.Box() == Taken(old(subscriber.Box()))
      ensures chunk.Keepalive? <==> old(subscriber.loopClosed) || old(subscriber.queue) == []
    {
      ghost var offered := snapshot + subscriber.consumed;
      assert snapshot[..replayed] == snapshot;
      var entry := subscriber.Get();
      if entry.None? {
        chunk := Keepalive;
        YieldedKeepalive(yielded);
      } else {
        assert snapshot[..replayed] + subscriber.consumed == offered + [entry.value];
        chunk := EventFor(entry.value, offered);
      }
      yielded := yielded + [chunk];
    }
  }

  lemma {:induction false} PayloadsSnoc(chunks: seq<Chunk>, c: Chunk)
    ensures Payloads(chunks + [c]) == Payloads(chunks) + if c.Event? then [c.payload] else []
  {
    if chunks == [] {
      assert chunks + [c] == [c];
      assert [c][1..] == [];
    } else {
      assert (chunks + [c])[0] == chunks[0] && (chunks + [c])[1..] == chunks[1..] + [c];
      PayloadsSnoc(chunks[1..], c);
    }
  }

  lemma YieldedKeepalive(yielded: seq<Chunk>)
    ensures Payloads(yielded + [Keepalive]) == Payloads(yielded)
  {
    PayloadsSnoc(yielded, Keepalive);
  }

  lemma YieldedText(
    yielded: seq<Chunk>, offered: seq<ObservabilityEntry>, entry: ObservabilityEntry)
    requires Payloads(yielded) == EntryTexts(offered)
    ensures Payloads(yielded + [Event(EntryText(entry))])
         == EntryTexts(offered + [entry])
  {
    PayloadsSnoc(yielded, Event(EntryText(entry)));
    EntryTextsSnoc(offered, entry);
  }

  lemma EntryTextsSnoc(offered: seq<ObservabilityEntry>, entry: ObservabilityEntry)
    ensures EntryTexts(offered + [entry])
         == EntryTexts(offered) + [EntryText(entry)]
  {
    var all := offered + [entry];
    assert forall i :: 0 <= i < |offered| ==> all[i] == offered[i];
  }
}
