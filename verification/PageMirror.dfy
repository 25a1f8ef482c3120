/**
 The browser page as a mirror of the recorder's history, across any number of reconnects.

 The system of `Broadcast` runs beside one page. Its connection subscribes, takes the snapshot,
 replays it, then streams from its queue; what has been yielded reaches the page in order, and a
 disconnect loses whatever is still on the way.
 */
module PageMirror {
  import opened Basics
  import opened Mailboxes
  import opened Broadcast
  import opened DeliveryOrder
  import opened CardPositions
  import opened LateSnapshots
  import opened ObservabilityEntries
  import opened ObservabilityPage

  /** `received` counts the entries of this connection that have reached the page. */
  datatype Connection = Offline | Online(sub: nat, snapAt: Option<nat>, replayed: nat, received: nat)

  datatype World = World(sys: System<ObservabilityEntry>, page: Page, conn: Connection, trace: Trace)

  datatype WorldEvent =
    | Background(event: Event<ObservabilityEntry>)
    | Connect
    | TakeSnapshot
    | YieldReplay
    | YieldLive
    | Receive
    | Disconnect

  /** Positions yielded on this connection: the replayed part of the snapshot, then what left the queue. */
  function Offered(w: World): seq<nat>
    requires w.conn.Online? && w.conn.sub < |w.sys.subs|
  {
    if w.conn.snapAt.None? then []
    else
      var lo := SnapshotStart(w.conn.snapAt.value);
      Range(lo, lo + w.conn.replayed) + w.sys.subs[w.conn.sub].box.consumed
  }

  function ReplayLength(t: nat): nat {
    t - SnapshotStart(t)
  }

  ghost predicate FreshId(history: seq<ObservabilityEntry>, id: string) {
    id != "" && forall i :: 0 <= i < |history| ==> history[i].requestId != id
  }

  /** The steps that can happen. Records do not overlap and request ids are fresh. */
  ghost predicate Enabled(w: World, e: WorldEvent) {
    match e
    case Background(Append(entry)) => AllDelivered(w.sys) && FreshId(w.sys.history, entry.requestId)
    case Background(Get(sub)) => w.conn.Online? ==> sub != w.conn.sub
    case Background(Unsubscribe(sub)) => w.conn.Online? ==> sub != w.conn.sub
    case Background(_) => true
    case Connect => w.conn.Offline?
    case TakeSnapshot => w.conn.Online? && w.conn.snapAt.None?
    case YieldReplay => w.conn.Online? && w.conn.snapAt.Some? && w.conn.replayed < ReplayLength(w.conn.snapAt.value)
    case YieldLive => w.conn.Online? && w.conn.snapAt.Some? && w.conn.replayed == ReplayLength(w.conn.snapAt.value)
    case Receive =>
      w.conn.Online? && w.conn.sub < |w.sys.subs| && w.conn.received < |Offered(w)|
      && Offered(w)[w.conn.received] < |w.sys.history|
    case Disconnect => w.conn.Online?
  }

  /** The entry at position i reaches the page. */
  ghost function Arrived(w: World, i: nat): World
    requires w.conn.Online? && i < |w.sys.history|
  {
    World(w.sys, AfterArrival(w.page, w.sys.history[i]), w.conn.(received := w.conn.received + 1),
          Noted(w.trace, i, Good(w.sys.history, i), Accepts(w.page, w.sys.history[i])))
  }

  ghost function Step(w: World, e: WorldEvent): World {
    if !Enabled(w, e) then w
    else match e
      case Background(event) => w.(sys := Next(w.sys, event))
      case Connect => w.(sys := Next(w.sys, Subscribe), conn := Online(|w.sys.subs|, None, 0, 0))
      case TakeSnapshot =>
        var t := |w.sys.history|;
        w.(conn := w.conn.(snapAt := Some(t)),
           trace := w.trace.(base := SnapshotStart(t), pos := Max(w.trace.pos, SnapshotStart(t))))
      case YieldReplay => w.(conn := w.conn.(replayed := w.conn.replayed + 1))
      case YieldLive => w.(sys := Next(w.sys, Get(w.conn.sub)))
      case Receive => Arrived(w, Offered(w)[w.conn.received])
      case Disconnect => w.(sys := Next(w.sys, Unsubscribe(w.conn.sub)), conn := Offline)
  }

  ghost function Start(): World {
    World(System([], []), EmptyPage(), Offline, Trace([], [], 0, 0))
  }

  ghost function RunWorld(events: seq<WorldEvent>): World {
    if events == [] then Start() else Step(RunWorld(events[..|events| - 1]), events[|events| - 1])
  }

  /** The current connection has dropped nothing. */
  predicate NoDrops(w: World) {
    w.conn.Online? && w.conn.sub < |w.sys.subs| ==> w.sys.subs[w.conn.sub].box.dropped == []
  }

  /** More than 500 records fell between subscribing and the snapshot, and the replay is over. */
  predicate Late(w: World) {
    && w.conn.Online? && w.conn.sub < |w.sys.subs| && w.conn.snapAt.Some?
    && LateFor(w.sys.subs[w.conn.sub].from, w.conn)
  }

  predicate LateFor(from: nat, conn: Connection)
    requires conn.Online? && conn.snapAt.Some?
  {
    conn.snapAt.value > from + MAX_BUFFERED_ENTRIES && conn.received >= ReplayLength(conn.snapAt.value)
  }

  /** The position of the next live entry. */
  function NextLive(from: nat, conn: Connection): nat
    requires conn.Online? && conn.snapAt.Some? && conn.received >= ReplayLength(conn.snapAt.value)
  {
    from + (conn.received - ReplayLength(conn.snapAt.value))
  }

  /**
   A live entry that the snapshot had left behind has been put on the page, and the live entries have
   not come past the snapshot yet, nor filled the page with newer ones.
   */
  ghost predicate CatchingUp(w: World) {
    Late(w) &&
    var from := w.sys.subs[w.conn.sub].from;
    Displaced(w.sys.history, from, w.conn.snapAt.value, NextLive(from, w.conn))
  }

  /** No connection has dropped anything, and none has ended while it was catching up. */
  ghost predicate SmoothRun(events: seq<WorldEvent>) {
    && NoDrops(RunWorld(events))
    && (events != [] ==>
          var front := events[..|events| - 1];
          SmoothRun(front) && (events[|events| - 1] == Disconnect ==> !CatchingUp(RunWorld(front))))
  }

  // ---------------------------------------------------------------- the invariant of the world

  ghost predicate ServerInv(s: System<ObservabilityEntry>) {
    AllConserved(s) && AllInOrder(s) && AllGapFree(s) && DistinctIds(s.history)
  }

  ghost predicate PageInv(w: World) {
    && Displays(w.page, w.sys.history, w.trace.shown)
    && w.trace.pos <= |w.sys.history| && w.trace.base <= SnapshotStart(|w.sys.history|)
  }

  /** How far the page has been told the history, in terms of what this connection has delivered. */
  ghost predicate ConnectionInv(w: World) {
    w.conn.Online? ==>
      && w.conn.sub < |w.sys.subs| && w.sys.subs[w.conn.sub].until.None?
      && StreamInv(w.sys.subs[w.conn.sub], w.conn, w.trace, |w.sys.history|)
  }

  ghost predicate StreamInv(s: Subscription, conn: Connection, tr: Trace, now: nat)
    requires conn.Online?
  {
    if conn.snapAt.None? then conn.replayed == 0 && conn.received == 0 && s.box.consumed == [] && tr.pos <= s.from
    else
      var t, lo, length := conn.snapAt.value, SnapshotStart(conn.snapAt.value), ReplayLength(conn.snapAt.value);
      && s.from <= t <= now && tr.base == lo
      && conn.replayed <= length && (s.box.consumed != [] ==> conn.replayed == length)
      && conn.received <= conn.replayed + |s.box.consumed|
      && (conn.received < length ==> lo + conn.received <= tr.pos <= t)
      && (conn.received >= length ==> tr.pos == Max(t, s.from + (conn.received - length)))
  }

  /** What is known of the positions on the page, in time or late. */
  ghost predicate TrackFor(from: nat, conn: Connection, tr: Trace, h: seq<ObservabilityEntry>)
    requires conn.Online? && conn.snapAt.Some?
  {
    var t := conn.snapAt.value;
    if LateFor(from, conn) then LateShape(tr.shown, h, from, t, NextLive(from, conn))
    else Tracked(tr, h) && OldOrReplayed(tr.shown, from, SnapshotStart(t))
  }

  ghost predicate TrackInv(w: World) {
    if w.conn.Online? && w.conn.sub < |w.sys.subs| && w.conn.snapAt.Some?
    then TrackFor(w.sys.subs[w.conn.sub].from, w.conn, w.trace, w.sys.history)
    else Tracked(w.trace, w.sys.history)
  }

  ghost predicate WorldInv(w: World) {
    ServerInv(w.sys) && PageInv(w) && ConnectionInv(w) && TrackInv(w)
  }

  lemma ServerStep(s: System<ObservabilityEntry>, e: Event<ObservabilityEntry>)
    requires ServerInv(s)
    requires e.Append? ==> AllDelivered(s) && FreshId(s.history, e.entry.requestId)
    ensures ServerInv(Next(s, e))
  {
    StepConserves(s, e);
    StepKeepsOrder(s, e);
    StepKeepsGapFree(s, e);
  }

  lemma PageWaits(w: World, e: Event<ObservabilityEntry>)
    requires PageInv(w)
    ensures PageInv(w.(sys := Next(w.sys, e)))
  {
    if e.Append? {
      MoreHistoryDisplays(w.page, w.sys.history, e.entry, w.trace.shown);
    }
  }

  /** The subscription keeps its start, so being late does not depend on what the server does. */
  lemma LateWaits(w: World, e: Event<ObservabilityEntry>)
    requires w.conn.Online? ==> w.conn.sub < |w.sys.subs|
    ensures var v := w.(sys := Next(w.sys, e));
            && Late(v) == Late(w)
            && (Late(w) ==> v.sys.subs[w.conn.sub].from == w.sys.subs[w.conn.sub].from)
  {
    if w.conn.Online? {
      SubAfter(w.sys, e, w.conn.sub);
    }
  }

  lemma TrackWaits(w: World, e: Event<ObservabilityEntry>)
    requires TrackInv(w) && (w.conn.Online? ==> w.conn.sub < |w.sys.subs|)
    ensures TrackInv(w.(sys := Next(w.sys, e)))
  {
    LateWaits(w, e);
    if e.Append? {
      if Late(w) {
        var from := w.sys.subs[w.conn.sub].from;
        MoreHistoryLate(w.trace.shown, w.sys.history, e.entry, from, w.conn.snapAt.value, NextLive(from, w.conn));
      } else {
        MoreHistoryTracked(w.trace, w.sys.history, e.entry);
      }
    }
  }

  /** Only the connection itself takes from its queue or ends its subscription. */
  lemma ConnectionWaits(w: World, e: Event<ObservabilityEntry>)
    requires ConnectionInv(w) && Enabled(w, Background(e))
    ensures ConnectionInv(w.(sys := Next(w.sys, e)))
  {
    if w.conn.Online? {
      SubAfter(w.sys, e, w.conn.sub);
    }
  }

  lemma Rebased(tr: Trace, h: seq<ObservabilityEntry>, base: nat)
    requires Tracked(tr, h) && tr.base <= base <= |h|
    ensures Tracked(tr.(base := base, pos := Max(tr.pos, base)), h)
  {
  }

  lemma StreamSnapshots(s: Subscription, conn: Connection, tr: Trace, now: nat)
    requires conn.Online? && conn.snapAt.None? && StreamInv(s, conn, tr, now) && s.from <= now && tr.pos <= now
    ensures StreamInv(s, conn.(snapAt := Some(now)),
                      tr.(base := SnapshotStart(now), pos := Max(tr.pos, SnapshotStart(now))), now)
  {
  }

  lemma SnapshotStep(w: World)
    requires WorldInv(w) && Enabled(w, TakeSnapshot)
    ensures WorldInv(Step(w, TakeSnapshot))
  {
    var now := |w.sys.history|;
    assert w.sys.subs[w.conn.sub].from <= now by {
      assert Conserved(w.sys.subs[w.conn.sub], now);
    }
    Rebased(w.trace, w.sys.history, SnapshotStart(now));
    assert OldOrReplayed(w.trace.shown, w.sys.subs[w.conn.sub].from, SnapshotStart(now));
    StreamSnapshots(w.sys.subs[w.conn.sub], w.conn, w.trace, now);
    assert !Late(Step(w, TakeSnapshot));
    WorldParts(w, Step(w, TakeSnapshot));
  }

  /** Steps of the connection alone leave the server as it is. */
  lemma WorldParts(w: World, v: World)
    requires WorldInv(w) && v.sys == w.sys && PageInv(v) && ConnectionInv(v) && TrackInv(v)
    ensures WorldInv(v)
  {
  }

  lemma YieldLiveStep(w: World)
    requires WorldInv(w) && Enabled(w, YieldLive)
    ensures WorldInv(Step(w, YieldLive))
  {
    var e: Event<ObservabilityEntry> := Get(w.conn.sub);
    ServerStep(w.sys, e);
    PageWaits(w, e);
    TrackWaits(w, e);
    SubAfter(w.sys, e, w.conn.sub);
    StreamTakes(w.sys.subs[w.conn.sub], w.conn, w.trace, |w.sys.history|);
  }

  lemma StreamTakes(s: Subscription, conn: Connection, tr: Trace, now: nat)
    requires conn.Online? && conn.snapAt.Some? && conn.replayed == ReplayLength(conn.snapAt.value)
    requires StreamInv(s, conn, tr, now)
    ensures StreamInv(s.(box := Taken(s.box)), conn, tr, now)
  {
  }

  /** What arrives next on a connection is the next part of its snapshot, then the entries since it subscribed. */
  function Arriving(s: Subscription, conn: Connection): nat
    requires conn.Online? && conn.snapAt.Some?
  {
    if conn.received < conn.replayed then SnapshotStart(conn.snapAt.value) + conn.received
    else s.from + (conn.received - conn.replayed)
  }

  lemma ArrivalFits(s: Subscription, conn: Connection, tr: Trace, now: nat)
    requires conn.Online? && conn.snapAt.Some? && StreamInv(s, conn, tr, now)
    requires conn.received < conn.replayed + |s.box.consumed|
    ensures StreamInv(s, conn.(received := conn.received + 1), tr.(pos := Max(tr.pos, Arriving(s, conn) + 1)), now)
    ensures conn.received >= ReplayLength(conn.snapAt.value) ==> Arriving(s, conn) == NextLive(s.from, conn)
  {
  }

  /** Unless the connection is late, what arrives is the next position, or one that the page still shows if it can. */
  lemma ArrivalKnown(s: Subscription, conn: Connection, tr: Trace, h: seq<ObservabilityEntry>)
    requires conn.Online? && conn.snapAt.Some? && StreamInv(s, conn, tr, |h|) && Tracked(tr, h)
    requires conn.received < conn.replayed + |s.box.consumed| && !LateFor(s.from, conn)
    ensures var i := Arriving(s, conn); i == tr.pos || (i < tr.pos && (Good(h, i) ==> i in tr.shown))
  {
    var i := Arriving(s, conn);
    assert i < tr.pos ==> tr.base <= i && i + MAX_CARDS_ON_PAGE >= tr.pos;
  }

  lemma OfferedAt(w: World)
    requires WorldInv(w) && NoDrops(w) && Enabled(w, Receive)
    ensures w.conn.snapAt.Some? && w.conn.received < w.conn.replayed + |w.sys.subs[w.conn.sub].box.consumed|
    ensures Offered(w)[w.conn.received] == Arriving(w.sys.subs[w.conn.sub], w.conn)
  {
    var s, r := w.sys.subs[w.conn.sub], w.conn.received;
    assert GapFree(s, |w.sys.history|);
    assert s.box.consumed == Line(s.box)[..|s.box.consumed|];
    if r >= w.conn.replayed {
      assert Offered(w)[r] == s.box.consumed[r - w.conn.replayed];
    }
  }

  lemma ArrivedPage(w: World, i: nat)
    requires PageInv(w) && DistinctIds(w.sys.history) && i < |w.sys.history| && w.conn.Online?
    ensures PageInv(Arrived(w, i))
  {
    ArrivalDisplays(w.page, w.sys.history, w.trace.shown, i);
  }

  lemma StreamLooksAtPositions(s: Subscription, conn: Connection, tr: Trace, tr': Trace, now: nat)
    requires conn.Online? && StreamInv(s, conn, tr, now) && tr'.pos == tr.pos && tr'.base == tr.base
    ensures StreamInv(s, conn, tr', now)
  {
  }

  lemma ArrivedParts(w: World, i: nat)
    requires w.conn.Online? && i < |w.sys.history|
    ensures var v, h := Arrived(w, i), w.sys.history;
            && v.sys == w.sys && v.conn == w.conn.(received := w.conn.received + 1)
            && v.trace == Noted(w.trace, i, Good(h, i), Accepts(w.page, h[i]))
  {
  }

  lemma KeepsConnection(w: World, v: World, i: nat)
    requires ConnectionInv(w) && w.conn.Online? && w.conn.snapAt.Some?
    requires w.conn.received < w.conn.replayed + |w.sys.subs[w.conn.sub].box.consumed|
    requires i == Arriving(w.sys.subs[w.conn.sub], w.conn)
    requires v.sys == w.sys && v.conn == w.conn.(received := w.conn.received + 1)
    requires v.trace.pos == Max(w.trace.pos, i + 1) && v.trace.base == w.trace.base
    ensures ConnectionInv(v)
  {
    var s, now := w.sys.subs[w.conn.sub], |w.sys.history|;
    ArrivalFits(s, w.conn, w.trace, now);
    StreamLooksAtPositions(s, v.conn, w.trace.(pos := v.trace.pos), v.trace, now);
  }

  lemma ArrivedConnection(w: World, i: nat)
    requires WorldInv(w) && NoDrops(w) && Enabled(w, Receive) && i == Offered(w)[w.conn.received]
    ensures ConnectionInv(Arrived(w, i))
  {
    OfferedAt(w);
    ArrivedParts(w, i);
    KeepsConnection(w, Arrived(w, i), i);
  }

  /** The last entry of a replay arrives: from here on the connection may be late. */
  lemma ReplayEnds(s: Subscription, conn: Connection, tr: Trace, h: seq<ObservabilityEntry>)
    requires conn.Online? && conn.snapAt.Some? && StreamInv(s, conn, tr, |h|) && Tracked(tr, h)
    requires LateFor(s.from, conn) && conn.received == ReplayLength(conn.snapAt.value)
    requires AllDisplayable(h, tr.shown) && OldOrReplayed(tr.shown, s.from, SnapshotStart(conn.snapAt.value))
    ensures LateShape(tr.shown, h, s.from, conn.snapAt.value, NextLive(s.from, conn))
  {
    LateShapeStarts(tr, h, s.from, conn.snapAt.value);
  }

  /** A late connection stays late, and the next live entry is the one after. */
  lemma StaysLate(from: nat, conn: Connection)
    requires conn.Online? && conn.snapAt.Some? && LateFor(from, conn)
    ensures LateFor(from, conn.(received := conn.received + 1))
    ensures NextLive(from, conn.(received := conn.received + 1)) == NextLive(from, conn) + 1
  {
  }

  lemma LateArrives(from: nat, conn: Connection, tr: Trace, h: seq<ObservabilityEntry>, accepted: bool)
    requires conn.Online? && conn.snapAt.Some? && LateFor(from, conn) && NextLive(from, conn) < |h|
    requires TrackFor(from, conn, tr, h)
    ensures var i := NextLive(from, conn);
            TrackFor(from, conn.(received := conn.received + 1), Noted(tr, i, Good(h, i), accepted), h)
  {
    StaysLate(from, conn);
    LateNoted(tr, h, from, conn.snapAt.value, NextLive(from, conn), accepted);
  }

  lemma LateNoted(tr: Trace, h: seq<ObservabilityEntry>, from: nat, t: nat, i: nat, accepted: bool)
    requires LateShape(tr.shown, h, from, t, i) && i < |h|
    ensures LateShape(Noted(tr, i, Good(h, i), accepted).shown, h, from, t, i + 1)
  {
    LateShapeStep(tr.shown, h, from, t, i);
  }

  /** In time, what arrives belongs to the replay, or to a snapshot that reaches back to the subscription. */
  lemma ArrivalReplayed(s: Subscription, conn: Connection, tr: Trace, now: nat)
    requires conn.Online? && conn.snapAt.Some? && StreamInv(s, conn, tr, now) && !LateFor(s.from, conn)
    requires conn.received < conn.replayed + |s.box.consumed|
    ensures Arriving(s, conn) >= SnapshotStart(conn.snapAt.value)
  {
  }

  lemma ShownOldOrReplayed(shown: seq<nat>, from: nat, base: nat, i: nat)
    requires OldOrReplayed(shown, from, base) && i >= base
    ensures OldOrReplayed(Shown(shown, i), from, base)
  {
    var all, r := shown + [i], Shown(shown, i);
    assert OldOrReplayed(all, from, base);
    forall k | 0 <= k < |r| ensures r[k] < from || r[k] >= base {
      assert i !in shown ==> r[k] == all[|all| - |r| + k];
    }
  }

  lemma InTimeArrives(s: Subscription, conn: Connection, tr: Trace, h: seq<ObservabilityEntry>, accepted: bool)
    requires conn.Online? && conn.snapAt.Some? && StreamInv(s, conn, tr, |h|) && !LateFor(s.from, conn)
    requires conn.received < conn.replayed + |s.box.consumed| && Arriving(s, conn) < |h|
    requires TrackFor(s.from, conn, tr, h) && AllDisplayable(h, tr.shown)
    ensures var i := Arriving(s, conn);
            TrackFor(s.from, conn.(received := conn.received + 1), Noted(tr, i, Good(h, i), accepted), h)
  {
    var i, next := Arriving(s, conn), conn.(received := conn.received + 1);
    var tr' := Noted(tr, i, Good(h, i), accepted);
    ArrivalKnown(s, conn, tr, h);
    NotedKeepsTracked(tr, h, i, accepted);
    ArrivalReplayed(s, conn, tr, |h|);
    ShownOldOrReplayed(tr.shown, s.from, SnapshotStart(conn.snapAt.value), i);
    if LateFor(s.from, next) {
      if Good(h, i) {
        ShownDisplayable(h, tr.shown, i);
      }
      ArrivalFits(s, conn, tr, |h|);
      StreamLooksAtPositions(s, next, tr.(pos := Max(tr.pos, i + 1)), tr', |h|);
      ReplayEnds(s, next, tr', h);
    }
  }

  lemma NextArrives(s: Subscription, conn: Connection, tr: Trace, h: seq<ObservabilityEntry>, accepted: bool)
    requires conn.Online? && conn.snapAt.Some? && StreamInv(s, conn, tr, |h|)
    requires conn.received < conn.replayed + |s.box.consumed| && Arriving(s, conn) < |h|
    requires TrackFor(s.from, conn, tr, h) && AllDisplayable(h, tr.shown)
    ensures var i := Arriving(s, conn);
            TrackFor(s.from, conn.(received := conn.received + 1), Noted(tr, i, Good(h, i), accepted), h)
  {
    if LateFor(s.from, conn) {
      ArrivalFits(s, conn, tr, |h|);
      LateArrives(s.from, conn, tr, h, accepted);
    } else {
      InTimeArrives(s, conn, tr, h, accepted);
    }
  }

  lemma TrackedFor(w: World)
    requires w.conn.Online? && w.conn.sub < |w.sys.subs| && w.conn.snapAt.Some?
    ensures TrackInv(w) <==> TrackFor(w.sys.subs[w.conn.sub].from, w.conn, w.trace, w.sys.history)
  {
  }

  lemma KeepsTrack(w: World, v: World, i: nat, accepted: bool)
    requires TrackInv(w) && ConnectionInv(w) && AllDisplayable(w.sys.history, w.trace.shown)
    requires w.conn.Online? && w.conn.snapAt.Some? && i < |w.sys.history|
    requires w.conn.received < w.conn.replayed + |w.sys.subs[w.conn.sub].box.consumed|
    requires i == Arriving(w.sys.subs[w.conn.sub], w.conn)
    requires v.sys == w.sys && v.conn == w.conn.(received := w.conn.received + 1)
    requires v.trace == Noted(w.trace, i, Good(w.sys.history, i), accepted)
    ensures TrackInv(v)
  {
    TrackedFor(w);
    TrackedFor(v);
    NextArrives(w.sys.subs[w.conn.sub], w.conn, w.trace, w.sys.history, accepted);
  }

  lemma ArrivedTrack(w: World, i: nat)
    requires WorldInv(w) && NoDrops(w) && Enabled(w, Receive) && i == Offered(w)[w.conn.received]
    ensures TrackInv(Arrived(w, i))
  {
    OfferedAt(w);
    ArrivedParts(w, i);
    KeepsTrack(w, Arrived(w, i), i, Accepts(w.page, w.sys.history[i]));
  }

  lemma ReceiveStep(w: World)
    requires WorldInv(w) && NoDrops(w) && Enabled(w, Receive)
    ensures WorldInv(Step(w, Receive))
  {
    var i := Offered(w)[w.conn.received];
    ArrivedPage(w, i);
    ArrivedConnection(w, i);
    ArrivedTrack(w, i);
    WorldParts(w, Arrived(w, i));
  }

  lemma YieldReplayStep(w: World)
    requires WorldInv(w) && Enabled(w, YieldReplay)
    ensures WorldInv(Step(w, YieldReplay))
  {
    WorldParts(w, Step(w, YieldReplay));
  }

  lemma ConnectStep(w: World)
    requires WorldInv(w) && Enabled(w, Connect)
    ensures WorldInv(Step(w, Connect))
  {
    var joined: Event<ObservabilityEntry> := Subscribe;
    ServerStep(w.sys, joined);
    PageWaits(w, joined);
    assert !Late(Step(w, Connect));
  }

  lemma DisconnectStep(w: World)
    requires WorldInv(w) && Enabled(w, Disconnect) && !CatchingUp(w)
    ensures WorldInv(Step(w, Disconnect))
  {
    var left: Event<ObservabilityEntry> := Unsubscribe(w.conn.sub);
    ServerStep(w.sys, left);
    PageWaits(w, left);
    TrackedUnlessCatchingUp(w);
    assert !Late(Step(w, Disconnect));
  }

  /** A page that is not catching up is tracked, whether its connection was late or not. */
  lemma TrackedUnlessCatchingUp(w: World)
    requires WorldInv(w) && !CatchingUp(w)
    ensures Tracked(w.trace, w.sys.history)
  {
    if Late(w) {
      var from := w.sys.subs[w.conn.sub].from;
      LateTracked(w.trace, w.sys.history, from, w.conn.snapAt.value, NextLive(from, w.conn));
    }
  }

  lemma WorldStep(w: World, e: WorldEvent)
    requires WorldInv(w) && NoDrops(w) && (e == Disconnect ==> !CatchingUp(w))
    ensures WorldInv(Step(w, e))
  {
    if Enabled(w, e) {
      match e
      case Background(event) =>
        ServerStep(w.sys, event);
        PageWaits(w, event);
        ConnectionWaits(w, event);
        TrackWaits(w, event);
      case Connect => ConnectStep(w);
      case TakeSnapshot => SnapshotStep(w);
      case YieldReplay => YieldReplayStep(w);
      case YieldLive => YieldLiveStep(w);
      case Receive => ReceiveStep(w);
      case Disconnect => DisconnectStep(w);
    }
  }

  lemma {:induction false} SmoothRunKeepsWorld(events: seq<WorldEvent>)
    requires SmoothRun(events)
    ensures WorldInv(RunWorld(events))
  {
    if events != [] {
      SmoothRunKeepsWorld(events[..|events| - 1]);
      WorldStep(RunWorld(events[..|events| - 1]), events[|events| - 1]);
    }
  }

  // ---------------------------------------------------------------- main results

  /** The replay of the current connection has reached the page as a whole. */
  ghost predicate ReplayReceived(w: World) {
    && w.conn.Online? && w.conn.sub < |w.sys.subs| && w.conn.snapAt.Some?
    && w.conn.received >= ReplayLength(w.conn.snapAt.value)
  }

  /** The history position the page has then reached. */
  function Reached(w: World): nat
    requires ReplayReceived(w)
  {
    Max(w.conn.snapAt.value, NextLive(w.sys.subs[w.conn.sub].from, w.conn))
  }

  /** The page shows the newest 500 entries up to the position reached, newest first. */
  ghost predicate MirrorsHistory(w: World)
    requires ReplayReceived(w)
  {
    Reached(w) <= |w.sys.history| && w.page.cards == Mirror(w.sys.history, Reached(w))
  }

  /** None of the entries that the mirror would show has a cell that keeps its text from parsing. */
  ghost predicate WindowParses(w: World)
    requires ReplayReceived(w)
  {
    AllGood(w.sys.history, SnapshotStart(Reached(w)), Reached(w))
  }

  lemma LateMirrorsIff(w: World)
    requires WorldInv(w) && ReplayReceived(w) && Late(w)
    ensures MirrorsHistory(w) <==> WindowParses(w) && !CatchingUp(w)
  {
    var from, t := w.sys.subs[w.conn.sub].from, w.conn.snapAt.value;
    LateShowsNewestIff(w.page, w.trace, w.sys.history, from, t, NextLive(from, w.conn));
  }

  lemma InTimeMirrorsIff(w: World)
    requires WorldInv(w) && ReplayReceived(w) && !Late(w)
    ensures MirrorsHistory(w) <==> WindowParses(w)
  {
    InTimePosition(w.sys.subs[w.conn.sub], w.conn, w.trace, |w.sys.history|);
    TrackedMirrorsIff(w.page, w.trace, w.sys.history);
  }

  lemma InTimePosition(s: Subscription, conn: Connection, tr: Trace, now: nat)
    requires conn.Online? && conn.snapAt.Some? && StreamInv(s, conn, tr, now)
    requires conn.received >= ReplayLength(conn.snapAt.value)
    ensures tr.pos == Max(conn.snapAt.value, NextLive(s.from, conn)) && tr.base <= SnapshotStart(tr.pos)
  {
  }

  /**
   However often the page was disconnected before, and at whatever point: once a replay has been
   received, the page shows exactly the newest 500 entries of the history up to the position
   reached, newest first, if and only if each of these parses, and the connection is not still
   catching up with a snapshot it took too late.
   */
  lemma PageMirrorsHistoryIff(events: seq<WorldEvent>)
    requires SmoothRun(events) && ReplayReceived(RunWorld(events))
    ensures MirrorsHistory(RunWorld(events)) <==> WindowParses(RunWorld(events)) && !CatchingUp(RunWorld(events))
  {
    SmoothRunKeepsWorld(events);
    if Late(RunWorld(events)) {
      LateMirrorsIff(RunWorld(events));
    } else {
      InTimeMirrorsIff(RunWorld(events));
    }
  }

  /**
   If all entries parse: the mirror fails exactly on a connection whose snapshot came more than 500
   entries after its subscription, from the first live entry until the live entries have caught up.
   */
  lemma MirrorFailsExactlyWhileCatchingUp(events: seq<WorldEvent>)
    requires SmoothRun(events) && ReplayReceived(RunWorld(events))
    requires AllGood(RunWorld(events).sys.history, 0, |RunWorld(events).sys.history|)
    ensures var w := RunWorld(events);
            var from, t := w.sys.subs[w.conn.sub].from, w.conn.snapAt.value;
            var live := w.conn.received - ReplayLength(t);
            !MirrorsHistory(w) <==> t > from + 500 && 0 < live < t - from
  {
    SmoothRunKeepsWorld(events);
    PageMirrorsHistoryIff(events);
    var w := RunWorld(events);
    var h, from, t := w.sys.history, w.sys.subs[w.conn.sub].from, w.conn.snapAt.value;
    var next := NextLive(from, w.conn);
    assert Reached(w) <= |h| && t <= |h|;
    if Late(w) {
      AllGoodDisplaced(h, from, t, next);
    }
  }

  /** If everything can be shown, the disturbance lasts from the first live entry to the snapshot's end. */
  lemma AllGoodDisplaced(h: seq<ObservabilityEntry>, from: nat, t: nat, next: nat)
    requires from + MAX_CARDS_ON_PAGE < t <= |h| && from <= next && AllGood(h, 0, |h|)
    ensures Displaced(h, from, t, next) <==> from < next < t
  {
    GoodsAll(h, from, t);
    assert Good(h, t - 1);
    if from < next {
      assert Good(h, from);
    }
  }

  /**
   At every step of every run the remembered ids are those on the page, none of them is shown twice,
   and the cap is kept.
   */
  lemma {:induction false} PageKeepsIds(events: seq<WorldEvent>)
    ensures Consistent(RunWorld(events).page)
  {
    if events != [] {
      var w, e := RunWorld(events[..|events| - 1]), events[|events| - 1];
      PageKeepsIds(events[..|events| - 1]);
      if e == Receive && Enabled(w, e) {
        AddEntryKeepsConsistent(w.page, w.sys.history[Offered(w)[w.conn.received]]);
      }
    }
  }
}
