/** What the page has ever put up, over whole runs: in which order, and how often the same entry. */
module AddedCards {
  import opened Basics
  import opened Broadcast
  import opened DeliveryOrder
  import opened CardPositions
  import opened LateSnapshots
  import opened ObservabilityEntries
  import opened ObservabilityPage
  import opened PageMirror

  /** A live entry that the current snapshot had left behind has been put on a page that shows some of the snapshot. */
  ghost predicate OvertakenNow(w: World) {
    Late(w) &&
    var from := w.sys.subs[w.conn.sub].from;
    Overtaken(w.sys.history, from, w.conn.snapAt.value, NextLive(from, w.conn))
  }

  ghost predicate NeverOvertaken(events: seq<WorldEvent>) {
    !OvertakenNow(RunWorld(events)) && (events != [] ==> NeverOvertaken(events[..|events| - 1]))
  }

  // ---------------------------------------------------------------- every run

  /** The tab's counter counts the positions that were put up. */
  lemma {:induction false} EverIsCounted(events: seq<WorldEvent>)
    ensures |RunWorld(events).trace.ever| == RunWorld(events).page.totalEverReceived
  {
    if events != [] {
      var w, e := RunWorld(events[..|events| - 1]), events[|events| - 1];
      EverIsCounted(events[..|events| - 1]);
      if e == Receive && Enabled(w, e) {
        AddEntryCounters(w.page, w.sys.history[Offered(w)[w.conn.received]]);
      }
    }
  }

  // ---------------------------------------------------------------- what was put up before

  ghost predicate Within(a: seq<nat>, b: seq<nat>) {
    forall i :: 0 <= i < |a| ==> a[i] in b
  }

  /** All that is shown has been put up at some time, and all that was put up can be shown. */
  ghost predicate EverInv(w: World) {
    Within(w.trace.shown, w.trace.ever) && AllDisplayable(w.sys.history, w.trace.ever)
  }

  /** Apart from the snapshot itself, only entries before the next live one have been put up. */
  ghost predicate BehindSnapshot(ever: seq<nat>, from: nat, conn: Connection)
    requires conn.Online? && conn.snapAt.Some?
  {
    var t := conn.snapAt.value;
    var next := if conn.received < ReplayLength(t) then from else NextLive(from, conn);
    t > from + MAX_BUFFERED_ENTRIES ==> forall i :: 0 <= i < |ever| ==> ever[i] < next || ever[i] >= SnapshotStart(t)
  }

  /** As long as no entry has overtaken a snapshot, positions have been put up in increasing order. */
  ghost predicate UpInOrder(w: World) {
    && Increasing(w.trace.ever) && Below(w.trace.ever, w.trace.pos)
    && (w.conn.Online? && w.conn.sub < |w.sys.subs| && w.conn.snapAt.Some? ==>
          BehindSnapshot(w.trace.ever, w.sys.subs[w.conn.sub].from, w.conn))
  }

  lemma WithinLastN(a: seq<nat>, b: seq<nat>, n: nat)
    requires Within(a, b)
    ensures Within(LastN(a, n), b)
  {
    var r := LastN(a, n);
    forall i | 0 <= i < |r| ensures r[i] in b {
      assert r[i] == a[|a| - |r| + i];
    }
  }

  lemma WithinSnoc(a: seq<nat>, b: seq<nat>, x: nat)
    requires Within(a, b)
    ensures Within(a + [x], b + [x])
  {
    forall i | 0 <= i < |a + [x]| ensures (a + [x])[i] in b + [x] {
      if i < |a| {
        assert a[i] in b;
      }
    }
  }

  lemma MoreEver(h: seq<ObservabilityEntry>, ever: seq<nat>, i: nat)
    requires AllDisplayable(h, ever) && Good(h, i)
    ensures AllDisplayable(h, ever + [i])
  {
  }

  lemma ArrivedEver(w: World, i: nat)
    requires EverInv(w) && PageInv(w) && DistinctIds(w.sys.history) && w.conn.Online? && i < |w.sys.history|
    ensures EverInv(Arrived(w, i))
    ensures Arrived(w, i).trace.ever ==
            if Good(w.sys.history, i) && i !in w.trace.shown then w.trace.ever + [i] else w.trace.ever
  {
    var h, tr := w.sys.history, w.trace;
    AcceptsIff(w.page, h, tr.shown, i);
    if Good(h, i) && i !in tr.shown {
      WithinSnoc(tr.shown, tr.ever, i);
      WithinLastN(tr.shown + [i], tr.ever + [i], MAX_CARDS_ON_PAGE);
      MoreEver(h, tr.ever, i);
    }
  }

  lemma MoreHistoryEver(w: World, e: Event<ObservabilityEntry>)
    requires EverInv(w)
    ensures EverInv(w.(sys := Next(w.sys, e)))
  {
    if e.Append? {
      var h, ever := w.sys.history, w.trace.ever;
      forall k | 0 <= k < |ever| ensures Good(h + [e.entry], ever[k]) {
        assert Good(h, ever[k]);
      }
    }
  }

  /** Whatever happens, positions are only ever added to those put up. */
  lemma EverStep(w: World, e: WorldEvent)
    requires WorldInv(w) && EverInv(w)
    ensures EverInv(Step(w, e))
    ensures w.trace.ever <= Step(w, e).trace.ever
  {
    if Enabled(w, e) {
      match e
      case Background(event) => MoreHistoryEver(w, event);
      case Connect => MoreHistoryEver(w, Subscribe);
      case YieldLive => MoreHistoryEver(w, Get(w.conn.sub));
      case Receive => ArrivedEver(w, Offered(w)[w.conn.received]);
      case Disconnect => MoreHistoryEver(w, Unsubscribe(w.conn.sub));
      case _ =>
    }
  }

  // ---------------------------------------------------------------- one arrival

  /** In time, what is put up lies above everything before. */
  lemma InTimeInOrder(w: World, i: nat)
    requires WorldInv(w) && NoDrops(w) && Enabled(w, Receive) && i == Offered(w)[w.conn.received] && !Late(w)
    ensures i == w.trace.pos || (i < w.trace.pos && (Good(w.sys.history, i) ==> i in w.trace.shown))
    ensures w.conn.snapAt.Some? && i >= SnapshotStart(w.conn.snapAt.value)
  {
    OfferedAt(w);
    var s := w.sys.subs[w.conn.sub];
    ArrivalKnown(s, w.conn, w.trace, w.sys.history);
    ArrivalReplayed(s, w.conn, w.trace, |w.sys.history|);
  }

  /** What a late connection brings next, and whether it is put up. */
  lemma LateArrival(w: World, i: nat)
    requires WorldInv(w) && NoDrops(w) && Enabled(w, Receive) && i == Offered(w)[w.conn.received] && Late(w)
    ensures i == NextLive(w.sys.subs[w.conn.sub].from, w.conn) && w.trace.pos == Max(w.conn.snapAt.value, i)
    ensures var from, t := w.sys.subs[w.conn.sub].from, w.conn.snapAt.value;
            Good(w.sys.history, i) ==>
              (i in w.trace.shown <==>
               |Goods(w.sys.history, from, t)| <= MAX_CARDS_ON_PAGE && SnapshotStart(t) <= i < t)
  {
    OfferedAt(w);
    var s := w.sys.subs[w.conn.sub];
    ArrivalFits(s, w.conn, w.trace, |w.sys.history|);
    LateShapeStep(w.trace.shown, w.sys.history, s.from, w.conn.snapAt.value, i);
  }

  /** A live entry put up without overtaking the snapshot lies above everything that was put up. */
  lemma AboveAllEver(h: seq<ObservabilityEntry>, ever: seq<nat>, from: nat, t: nat, i: nat)
    requires AllDisplayable(h, ever) && Below(ever, Max(t, i)) && from + MAX_CARDS_ON_PAGE < t && from <= i
    requires forall k :: 0 <= k < |ever| ==> ever[k] < i || ever[k] >= SnapshotStart(t)
    requires Good(h, i) && (|Goods(h, from, t)| > MAX_CARDS_ON_PAGE || i < SnapshotStart(t) || i >= t)
    requires !Overtaken(h, from, t, i + 1)
    ensures Below(ever, i)
  {
    var lo := SnapshotStart(t);
    if i < t {
      NothingReplayed(h, from, t, i);
      forall k | 0 <= k < |ever| ensures ever[k] < i {
        assert Good(h, ever[k]);
      }
    }
  }

  lemma NothingReplayed(h: seq<ObservabilityEntry>, from: nat, t: nat, i: nat)
    requires from + MAX_CARDS_ON_PAGE < t && from <= i < t && Good(h, i) && !Overtaken(h, from, t, i + 1)
    requires |Goods(h, from, t)| > MAX_CARDS_ON_PAGE || i < SnapshotStart(t)
    ensures !SomeGood(h, SnapshotStart(t), t)
  {
    var lo := SnapshotStart(t);
    if i >= lo {
      GoodsSplit(h, from, lo, t);
      GoodsLength(h, lo, t);
      GoodsEmptyIff(h, from, lo);
    }
  }

  /** The first entry to overtake the snapshot: it is put up below one that was put up before. */
  lemma Overtakes(w: World, i: nat)
    requires WorldInv(w) && EverInv(w) && NoDrops(w) && Enabled(w, Receive) && i == Offered(w)[w.conn.received]
    requires !OvertakenNow(w) && OvertakenNow(Arrived(w, i))
    ensures !Increasing(Arrived(w, i).trace.ever)
  {
    var h, s, tr := w.sys.history, w.sys.subs[w.conn.sub], w.trace;
    var t := w.conn.snapAt.value;
    assert Late(w) by {
      assert !SomeGood(h, s.from, s.from);
    }
    LateArrival(w, i);
    FirstOvertaking(h, s.from, t, i);
    TrackedUnlessCatchingUp(w);
    var x: nat :| SnapshotStart(t) <= x < t && Good(h, x);
    assert tr.base == SnapshotStart(t) && tr.pos == t;
    assert x in tr.shown;
    ArrivedEver(w, i);
    AddedBelow(tr.shown, tr.ever, x, i);
  }

  lemma FirstOvertaking(h: seq<ObservabilityEntry>, from: nat, t: nat, i: nat)
    requires from + MAX_CARDS_ON_PAGE < t && from <= i
    requires !Overtaken(h, from, t, i) && Overtaken(h, from, t, i + 1)
    ensures i < SnapshotStart(t) && Good(h, i) && SomeGood(h, SnapshotStart(t), t)
  {
    var lo := SnapshotStart(t);
    var x: nat :| from <= x < Min(i + 1, lo) && Good(h, x);
  }

  lemma AddedBelow(shown: seq<nat>, ever: seq<nat>, x: nat, i: nat)
    requires Within(shown, ever) && x in shown && i < x
    ensures !Increasing(ever + [i])
  {
    var j :| 0 <= j < |shown| && shown[j] == x;
    var k :| 0 <= k < |ever| && ever[k] == x;
    assert (ever + [i])[k] == x && (ever + [i])[|ever|] == i;
  }

  // ---------------------------------------------------------------- one step

  /** A new snapshot leaves nothing behind that was put up since the subscription. */
  lemma SnapshotInOrder(w: World)
    requires WorldInv(w) && UpInOrder(w) && Enabled(w, TakeSnapshot)
    ensures UpInOrder(Step(w, TakeSnapshot))
  {
    var v := Step(w, TakeSnapshot);
    assert v.conn.received == 0;
  }

  lemma BehindInTime(ever: seq<nat>, from: nat, conn: Connection, i: nat)
    requires conn.Online? && conn.snapAt.Some? && BehindSnapshot(ever, from, conn) && !LateFor(from, conn)
    requires i >= SnapshotStart(conn.snapAt.value)
    ensures BehindSnapshot(ever, from, conn.(received := conn.received + 1))
    ensures BehindSnapshot(ever + [i], from, conn.(received := conn.received + 1))
  {
  }

  lemma BehindLate(ever: seq<nat>, from: nat, conn: Connection)
    requires conn.Online? && conn.snapAt.Some? && BehindSnapshot(ever, from, conn) && LateFor(from, conn)
    ensures BehindSnapshot(ever, from, conn.(received := conn.received + 1))
    ensures BehindSnapshot(ever + [NextLive(from, conn)], from, conn.(received := conn.received + 1))
  {
    StaysLate(from, conn);
  }

  lemma InTimeReceived(w: World, i: nat)
    requires WorldInv(w) && EverInv(w) && UpInOrder(w)
    requires NoDrops(w) && Enabled(w, Receive) && i == Offered(w)[w.conn.received]
    requires !Late(w)
    ensures UpInOrder(Arrived(w, i))
  {
    ArrivedEver(w, i);
    InTimeInOrder(w, i);
    BehindInTime(w.trace.ever, w.sys.subs[w.conn.sub].from, w.conn, i);
    if Good(w.sys.history, i) && i !in w.trace.shown {
      IncreasingSnoc(w.trace.ever, i);
    }
  }

  /** A live entry of a late connection, put up or not, keeps the order unless it overtakes the snapshot. */
  lemma LateOrdered(h: seq<ObservabilityEntry>, ever: seq<nat>, from: nat, conn: Connection, putUp: bool)
    requires conn.Online? && conn.snapAt.Some? && LateFor(from, conn) && BehindSnapshot(ever, from, conn)
    requires var t, i := conn.snapAt.value, NextLive(from, conn);
             && Increasing(ever) && Below(ever, Max(t, i)) && AllDisplayable(h, ever) && !Overtaken(h, from, t, i + 1)
             && (putUp ==>
                   Good(h, i) && (|Goods(h, from, t)| > MAX_CARDS_ON_PAGE || i < SnapshotStart(t) || i >= t))
    ensures var t, i := conn.snapAt.value, NextLive(from, conn);
            var all := if putUp then ever + [i] else ever;
            && Increasing(all) && Below(all, Max(Max(t, i), i + 1))
            && BehindSnapshot(all, from, conn.(received := conn.received + 1))
  {
    var t, i := conn.snapAt.value, NextLive(from, conn);
    BehindLate(ever, from, conn);
    if putUp {
      AboveAllEver(h, ever, from, t, i);
      IncreasingSnoc(ever, i);
    }
  }

  lemma LateWorldOrdered(w: World, i: nat, putUp: bool)
    requires Late(w) && UpInOrder(w) && AllDisplayable(w.sys.history, w.trace.ever) && i < |w.sys.history|
    requires var from, t := w.sys.subs[w.conn.sub].from, w.conn.snapAt.value;
             && i == NextLive(from, w.conn) && w.trace.pos == Max(t, i)
             && (putUp ==> Good(w.sys.history, i) &&
                             (|Goods(w.sys.history, from, t)| > MAX_CARDS_ON_PAGE || i < SnapshotStart(t) || i >= t))
    requires Arrived(w, i).trace.ever == (if putUp then w.trace.ever + [i] else w.trace.ever)
    requires !OvertakenNow(Arrived(w, i))
    ensures UpInOrder(Arrived(w, i))
  {
    var from := w.sys.subs[w.conn.sub].from;
    StaysLate(from, w.conn);
    LateOrdered(w.sys.history, w.trace.ever, from, w.conn, putUp);
  }

  lemma LateReceived(w: World, i: nat)
    requires WorldInv(w) && EverInv(w) && UpInOrder(w)
    requires NoDrops(w) && Enabled(w, Receive) && i == Offered(w)[w.conn.received]
    requires Late(w) && !OvertakenNow(Arrived(w, i))
    ensures UpInOrder(Arrived(w, i))
  {
    ArrivedEver(w, i);
    LateArrival(w, i);
    LateWorldOrdered(w, i, Good(w.sys.history, i) && i !in w.trace.shown);
  }

  lemma ServerInOrder(w: World, e: Event<ObservabilityEntry>)
    requires WorldInv(w) && UpInOrder(w)
    ensures UpInOrder(w.(sys := Next(w.sys, e)))
  {
    if w.conn.Online? {
      SubAfter(w.sys, e, w.conn.sub);
    }
  }

  lemma OrderStep(w: World, e: WorldEvent)
    requires WorldInv(w) && EverInv(w) && UpInOrder(w) && NoDrops(w) && !OvertakenNow(Step(w, e))
    ensures UpInOrder(Step(w, e))
  {
    if Enabled(w, e) {
      match e
      case Background(event) => ServerInOrder(w, event);
      case TakeSnapshot => SnapshotInOrder(w);
      case YieldLive => ServerInOrder(w, Get(w.conn.sub));
      case Receive =>
        var i := Offered(w)[w.conn.received];
        if Late(w) {
          LateReceived(w, i);
        } else {
          InTimeReceived(w, i);
        }
      case _ =>
    }
  }

  /** Whether an entry has overtaken the snapshot does not depend on what the server does. */
  lemma ServerOvertakesNothing(w: World, e: Event<ObservabilityEntry>)
    requires WorldInv(w) && OvertakenNow(w.(sys := Next(w.sys, e)))
    ensures OvertakenNow(w)
  {
    LateWaits(w, e);
    if e.Append? {
      var from := w.sys.subs[w.conn.sub].from;
      MoreHistoryOvertaken(w.sys.history, e.entry, from, w.conn.snapAt.value, NextLive(from, w.conn));
    }
  }

  lemma OnlyArrivalsOvertake(w: World, e: WorldEvent)
    requires WorldInv(w) && !OvertakenNow(w) && OvertakenNow(Step(w, e))
    ensures e == Receive && Enabled(w, e)
  {
    if Enabled(w, e) {
      match e
      case Background(event) => ServerOvertakesNothing(w, event);
      case YieldLive => ServerOvertakesNothing(w, Get(w.conn.sub));
      case _ =>
    }
  }

  // ---------------------------------------------------------------- whole runs

  ghost predicate RunInv(events: seq<WorldEvent>) {
    var w := RunWorld(events);
    && WorldInv(w) && EverInv(w)
    && if NeverOvertaken(events) then UpInOrder(w) else !Increasing(w.trace.ever)
  }

  lemma RunInvStep(events: seq<WorldEvent>)
    requires events != [] && SmoothRun(events) && RunInv(events[..|events| - 1])
    ensures RunInv(events)
  {
    var front, e := events[..|events| - 1], events[|events| - 1];
    var w := RunWorld(front);
    WorldStep(w, e);
    EverStep(w, e);
    if !NeverOvertaken(front) {
      PrefixIncreasing(w.trace.ever, Step(w, e).trace.ever);
    } else if OvertakenNow(Step(w, e)) {
      OnlyArrivalsOvertake(w, e);
      Overtakes(w, Offered(w)[w.conn.received]);
    } else {
      OrderStep(w, e);
    }
  }

  lemma PrefixIncreasing(a: seq<nat>, b: seq<nat>)
    requires a <= b && !Increasing(a)
    ensures !Increasing(b)
  {
    var i, j :| 0 <= i < j < |a| && a[i] >= a[j];
    assert b[i] == a[i] && b[j] == a[j];
  }

  lemma {:induction false} RunKeepsInv(events: seq<WorldEvent>)
    requires SmoothRun(events)
    ensures RunInv(events)
  {
    if events != [] {
      RunKeepsInv(events[..|events| - 1]);
      RunInvStep(events);
    }
  }

  /**
   The positions of all the entries that the page has put up, as many as its counter says, are
   increasing, so that none was put up twice, if and only if at no time on any connection a live
   entry was put up that the snapshot had left behind while the page shows some of that snapshot.
   */
  lemma AddedInOrderIff(events: seq<WorldEvent>)
    requires SmoothRun(events)
    ensures |RunWorld(events).trace.ever| == RunWorld(events).page.totalEverReceived
    ensures Increasing(RunWorld(events).trace.ever) <==> NeverOvertaken(events)
  {
    EverIsCounted(events);
    RunKeepsInv(events);
  }
}
