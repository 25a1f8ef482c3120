/** Runs that reach the two states in which the page is no mirror of the history. */
module MirrorRuns {
  import opened Basics
  import opened Mailboxes
  import opened Numbers
  import opened Broadcast
  import opened JsonReader
  import opened CardPositions
  import opened ObservabilityEntries
  import opened PageMirror

  // ---------------------------------------------------------------- one connection, step by step

  lemma SmoothSnoc(events: seq<WorldEvent>, e: WorldEvent)
    ensures RunWorld(events + [e]) == Step(RunWorld(events), e)
    ensures SmoothRun(events) && NoDrops(Step(RunWorld(events), e)) && e != Disconnect ==> SmoothRun(events + [e])
  {
    var all := events + [e];
    assert all[..|all| - 1] == events && all[|all| - 1] == e;
  }

  /** The recorder with its one subscriber, who has read some entries and has others in its queue. */
  function Serving(history: seq<ObservabilityEntry>, held: set<nat>, scheduled: seq<nat>, queue: seq<nat>,
                   consumed: seq<nat>): System<ObservabilityEntry>
  {
    System(history, [Subscription(0, None, held,
                                  Mailbox(false, scheduled, queue, consumed, [], [], 0, 0.0, []))])
  }

  /** A smooth run has brought the recorder and the connection this far. */
  ghost predicate At(events: seq<WorldEvent>, sys: System<ObservabilityEntry>, conn: Connection) {
    SmoothRun(events) && RunWorld(events).sys == sys && RunWorld(events).conn == conn
  }

  lemma Connected() returns (events: seq<WorldEvent>)
    ensures At(events, Serving([], {}, [], [], []), Online(0, None, 0, 0))
  {
    var none: seq<WorldEvent> := [];
    events := none + [Connect];
    SmoothSnoc(none, Connect);
  }

  /** One more record: appended, delivered, and put into the queue. */
  lemma Recorded(events: seq<WorldEvent>, h: seq<ObservabilityEntry>, entry: ObservabilityEntry)
    returns (more: seq<WorldEvent>)
    requires |h| < 1000 && FreshId(h, entry.requestId)
    requires At(events, Serving(h, {}, [], Range(0, |h|), []), Online(0, None, 0, 0))
    ensures At(more, Serving(h + [entry], {}, [], Range(0, |h| + 1), []), Online(0, None, 0, 0))
  {
    var n := |h|;
    var queue := Range(0, n);
    var one := AppendStep(events, h, entry, queue);
    var two := DeliverStep(one, h + [entry], n, queue);
    more := CallbackStep(two, h + [entry], n, queue);
    RangeSnoc(0, n);
  }

  lemma AppendStep(events: seq<WorldEvent>, h: seq<ObservabilityEntry>, entry: ObservabilityEntry, queue: seq<nat>)
    returns (more: seq<WorldEvent>)
    requires At(events, Serving(h, {}, [], queue, []), Online(0, None, 0, 0)) && FreshId(h, entry.requestId)
    ensures At(more, Serving(h + [entry], {|h|}, [], queue, []), Online(0, None, 0, 0))
  {
    var e: Event<ObservabilityEntry> := Append(entry);
    more := events + [Background(e)];
    SmoothSnoc(events, Background(e));
    SubAfter(RunWorld(events).sys, e, 0);
    assert {} + {|h|} == {|h|};
    assert RunWorld(more).sys == Serving(h + [entry], {|h|}, [], queue, []);
  }

  lemma DeliverStep(events: seq<WorldEvent>, h: seq<ObservabilityEntry>, n: nat, queue: seq<nat>)
    returns (more: seq<WorldEvent>)
    requires At(events, Serving(h, {n}, [], queue, []), Online(0, None, 0, 0))
    ensures At(more, Serving(h, {}, [n], queue, []), Online(0, None, 0, 0))
  {
    var e: Event<ObservabilityEntry> := Deliver(0, n);
    more := events + [Background(e)];
    SmoothSnoc(events, Background(e));
    SubAfter(RunWorld(events).sys, e, 0);
    assert {n} - {n} == {} && [] + [n] == [n];
    assert RunWorld(more).sys == Serving(h, {}, [n], queue, []);
  }

  lemma CallbackStep(events: seq<WorldEvent>, h: seq<ObservabilityEntry>, n: nat, queue: seq<nat>)
    returns (more: seq<WorldEvent>)
    requires At(events, Serving(h, {}, [n], queue, []), Online(0, None, 0, 0)) && |queue| < 1000
    ensures At(more, Serving(h, {}, [], queue + [n], []), Online(0, None, 0, 0))
  {
    var e: Event<ObservabilityEntry> := RunCallback(0, 0.0);
    more := events + [Background(e)];
    SmoothSnoc(events, Background(e));
    SubAfter(RunWorld(events).sys, e, 0);
    assert [n][1..] == [];
    assert RunWorld(more).sys == Serving(h, {}, [], queue + [n], []);
  }

  /** All of the entries are recorded after the stream has subscribed and before it takes its snapshot. */
  lemma {:induction false} AllRecorded(entries: seq<ObservabilityEntry>) returns (events: seq<WorldEvent>)
    requires |entries| <= 1000 && DistinctIds(entries)
    ensures At(events, Serving(entries, {}, [], Range(0, |entries|), []), Online(0, None, 0, 0))
  {
    if entries == [] {
      events := Connected();
      assert Range(0, 0) == [];
    } else {
      var n := |entries| - 1;
      var front := AllRecorded(entries[..n]);
      assert entries == entries[..n] + [entries[n]];
      events := Recorded(front, entries[..n], entries[n]);
    }
  }

  lemma SnapshotTaken(events: seq<WorldEvent>, h: seq<ObservabilityEntry>) returns (more: seq<WorldEvent>)
    requires At(events, Serving(h, {}, [], Range(0, |h|), []), Online(0, None, 0, 0))
    ensures At(more, Serving(h, {}, [], Range(0, |h|), []), Online(0, Some(|h|), 0, 0))
  {
    more := events + [TakeSnapshot];
    SmoothSnoc(events, TakeSnapshot);
  }

  /** The stream yields the snapshot from entry k on. */
  lemma {:induction false} ReplayYielded(events: seq<WorldEvent>, sys: System<ObservabilityEntry>, t: nat, k: nat)
    returns (more: seq<WorldEvent>)
    requires k <= ReplayLength(t) && At(events, sys, Online(0, Some(t), k, 0))
    requires |sys.subs| == 1 && sys.subs[0].box.dropped == []
    ensures At(more, sys, Online(0, Some(t), ReplayLength(t), 0))
    decreases ReplayLength(t) - k
  {
    if k == ReplayLength(t) {
      more := events;
    } else {
      SmoothSnoc(events, YieldReplay);
      more := ReplayYielded(events + [YieldReplay], sys, t, k + 1);
    }
  }

  /** The page receives the replay from entry k on. */
  lemma {:induction false} ReplayArrives(events: seq<WorldEvent>, sys: System<ObservabilityEntry>, t: nat, k: nat)
    returns (more: seq<WorldEvent>)
    requires k <= ReplayLength(t) && t <= |sys.history| && At(events, sys, Online(0, Some(t), ReplayLength(t), k))
    requires |sys.subs| == 1 && sys.subs[0].box.dropped == []
    ensures At(more, sys, Online(0, Some(t), ReplayLength(t), ReplayLength(t)))
    decreases ReplayLength(t) - k
  {
    if k == ReplayLength(t) {
      more := events;
    } else {
      assert Offered(RunWorld(events))[k] == SnapshotStart(t) + k;
      SmoothSnoc(events, Receive);
      more := ReplayArrives(events + [Receive], sys, t, k + 1);
    }
  }

  /** One live entry is taken from the queue and reaches the page. */
  lemma LiveArrives(events: seq<WorldEvent>, h: seq<ObservabilityEntry>) returns (more: seq<WorldEvent>)
    requires h != []
    requires At(events, Serving(h, {}, [], Range(0, |h|), []),
                Online(0, Some(|h|), ReplayLength(|h|), ReplayLength(|h|)))
    ensures At(more, Serving(h, {}, [], Range(0, |h|)[1..], [0]),
               Online(0, Some(|h|), ReplayLength(|h|), ReplayLength(|h|) + 1))
  {
    var e: Event<ObservabilityEntry> := Get(0);
    var taken := events + [YieldLive];
    SmoothSnoc(events, YieldLive);
    SubAfter(RunWorld(events).sys, e, 0);
    assert [] + [0] == [0];
    assert RunWorld(taken).sys == Serving(h, {}, [], Range(0, |h|)[1..], [0]);
    assert Offered(RunWorld(taken))[ReplayLength(|h|)] == 0;
    more := taken + [Receive];
    SmoothSnoc(taken, Receive);
  }

  /** Entries recorded between subscribing and the snapshot, and their replay received. */
  lemma Replayed(entries: seq<ObservabilityEntry>) returns (events: seq<WorldEvent>)
    requires |entries| <= 1000 && DistinctIds(entries)
    ensures At(events, Serving(entries, {}, [], Range(0, |entries|), []),
               Online(0, Some(|entries|), ReplayLength(|entries|), ReplayLength(|entries|)))
  {
    var sys := Serving(entries, {}, [], Range(0, |entries|), []);
    var recorded := AllRecorded(entries);
    var taken := SnapshotTaken(recorded, entries);
    var yielded := ReplayYielded(taken, sys, |entries|, 0);
    events := ReplayArrives(yielded, sys, |entries|, 0);
  }

  // ---------------------------------------------------------------- the runs

  function Sample(id: string, rows: Option<seq<seq<Value>>>): ObservabilityEntry {
    var ms: FiniteFloat := Scientific(false, 1, 0);
    ObservabilityEntry(id, ALLOWED, "SELECT $1", None, None, None, None, Some(ms), None, None, None, rows, None, "")
  }

  function Samples(n: nat): (r: seq<ObservabilityEntry>)
    ensures |r| == n
  {
    seq(n, i requires 0 <= i < n => Sample(Decimal(i), None))
  }

  lemma SamplesDistinct(n: nat)
    ensures DistinctIds(Samples(n)) && AllGood(Samples(n), 0, n)
  {
    var h := Samples(n);
    forall i, j | 0 <= i < j < n ensures h[i].requestId != h[j].requestId {
      if Decimal(i) == Decimal(j) {
        DecimalInjective(i, j);
      }
    }
  }

  /**
   501 entries are recorded between subscribing and the snapshot: with the first live entry, one
   that the snapshot had left behind, the page ceases to mirror the history.
   */
  lemma LateSnapshotBreaksMirror() returns (events: seq<WorldEvent>)
    ensures SmoothRun(events) && ReplayReceived(RunWorld(events)) && WindowParses(RunWorld(events))
    ensures !MirrorsHistory(RunWorld(events)) && CatchingUp(RunWorld(events))
  {
    var h := Samples(501);
    SamplesDistinct(501);
    var replayed := Replayed(h);
    events := LiveArrives(replayed, h);
    AllGoodDisplaced(h, 0, 501, 1);
    PageMirrorsHistoryIff(events);
  }

  /** One allowed query that returns a NaN: its entry is recorded and sent, and no card appears. */
  lemma UnparseableCellBreaksMirror() returns (events: seq<WorldEvent>)
    ensures SmoothRun(events) && ReplayReceived(RunWorld(events)) && !Late(RunWorld(events))
    ensures RunWorld(events).sys.history == [Sample("1", Some([[NotANumber]]))]
    ensures !MirrorsHistory(RunWorld(events)) && !WindowParses(RunWorld(events))
  {
    var h := [Sample("1", Some([[NotANumber]]))];
    events := Replayed(h);
    assert !Displayable(h[0]) by {
      assert !Finite(h[0].rows.value[0][0]);
      assert !AllFinite(h[0].rows.value[0]);
    }
    assert !Good(h, 0);
    PageMirrorsHistoryIff(events);
  }
}
