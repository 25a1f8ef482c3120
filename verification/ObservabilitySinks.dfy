/** Recorders that write an entry somewhere, and the fan-out that shields them from each other. */
module ObservabilitySinks {
  import opened Basics
  import opened ObservabilityEntries

  datatype SinkKind = Stdout | JsonlFile(pathConfigured: bool) | InMemory

  /**
   One recorder. `fails` says, by the number of earlier attempts and by what is to be written,
   whether an attempt raises; `log` holds what was written.
   */
  datatype Sink = Sink(kind: SinkKind, fails: (nat, Payload) -> bool, attempts: nat, log: seq<Payload>)

  /** Only the in-memory recorder gets to see result data. */
  function ViewFor(kind: SinkKind, e: ObservabilityEntry): Payload {
    ToJsonPayload(e, kind.InMemory?)
  }

  predicate Raises(s: Sink, e: ObservabilityEntry) {
    s.kind != JsonlFile(false) && s.fails(s.attempts, ViewFor(s.kind, e))
  }

  /** What an attempt to write appends: nothing when it raises. */
  function Appended(s: Sink, attempts: nat, view: Payload): seq<Payload> {
    if s.fails(attempts, view) then [] else [view]
  }

  function Attempted(s: Sink, view: Payload): Sink {
    s.(attempts := s.attempts + 1, log := s.log + Appended(s, s.attempts, view))
  }

  /** A file recorder without a configured path returns before it attempts anything. */
  function Recorded(s: Sink, e: ObservabilityEntry): Sink {
    if s.kind == JsonlFile(false) then s else Attempted(s, ViewFor(s.kind, e))
  }

  /**
   A recorder that attempts to write either raises, and then has written nothing, or has written its view;
   a file recorder without a path does nothing at all.
   */
  lemma RaisesIffNothingWritten(s: Sink, e: ObservabilityEntry)
    ensures s.kind == JsonlFile(false) ==> !Raises(s, e) && Recorded(s, e) == s
    ensures s.kind != JsonlFile(false) ==>
              && (Raises(s, e) <==> Recorded(s, e).log == s.log)
              && (!Raises(s, e) ==> Recorded(s, e).log == s.log + [ToJsonPayload(e, s.kind.InMemory?)])
  {
  }

  function AllRecorded(sinks: seq<Sink>, e: ObservabilityEntry): (r: seq<Sink>)
    ensures |r| == |sinks|
  {
    seq(|sinks|, i requires 0 <= i < |sinks| => Recorded(sinks[i], e))
  }

  class MultiSinkObservabilityRecorderAdapter {
    var sinks: seq<Sink>
    var failuresLogged: nat
    ghost var received: seq<ObservabilityEntry>

    constructor (sinks: seq<Sink>)
      ensures this.sinks == sinks && failuresLogged == 0 && received == []
    {
      this.sinks, failuresLogged, received := sinks, 0, [];
    }

    /** Every recorder is tried, whatever the ones before it did. */
    method Record(entry: ObservabilityEntry)
      modifies this
      ensures sinks == AllRecorded(old(sinks), entry) && received == old(received) + [entry]
      ensures failuresLogged == old(failuresLogged) + |set i: nat | i < |old(sinks)| && Raises(old(sinks)[i], entry)|
    {
      ghost var raised: set<nat> := {};
      for i := 0 to |sinks|
        invariant |sinks| == |old(sinks)| && received == old(received)
        invariant forall j :: 0 <= j < |sinks| ==>
                    sinks[j] == if j < i then Recorded(old(sinks)[j], entry) else old(sinks)[j]
        invariant raised == set j: nat | j < i && Raises(old(sinks)[j], entry)
        invariant failuresLogged == old(failuresLogged) + |raised|
      {
        if Raises(sinks[i], entry) {
          failuresLogged := failuresLogged + 1;
          raised := raised + {i};
        }
        sinks := sinks[i := Recorded(sinks[i], entry)];
      }
      received := received + [entry];
    }
  }

  function RunSink(s: Sink, entries: seq<ObservabilityEntry>): Sink {
    if entries == [] then s else Recorded(RunSink(s, entries[..|entries| - 1]), entries[|entries| - 1])
  }

  /** The fan-out over a run of entries. */
  function RunAll(sinks: seq<Sink>, entries: seq<ObservabilityEntry>): (r: seq<Sink>)
    ensures |r| == |sinks|
  {
    if entries == [] then sinks else AllRecorded(RunAll(sinks, entries[..|entries| - 1]), entries[|entries| - 1])
  }

  /** Every sink ends up as if it had been given the entries alone, whatever the others did. */
  lemma {:induction false} SinksAreShielded(sinks: seq<Sink>, entries: seq<ObservabilityEntry>, i: nat)
    requires i < |sinks|
    ensures RunAll(sinks, entries)[i] == RunSink(sinks[i], entries)
  {
    if entries != [] {
      SinksAreShielded(sinks, entries[..|entries| - 1], i);
    }
  }

  lemma {:induction false} RunKeepsKind(s: Sink, entries: seq<ObservabilityEntry>)
    ensures RunSink(s, entries).kind == s.kind
  {
    if entries != [] {
      RunKeepsKind(s, entries[..|entries| - 1]);
    }
  }

  // ---------------------------------------------------------------- what a log holds

  function ViewsOf(kind: SinkKind, entries: seq<ObservabilityEntry>): (r: seq<Payload>)
    ensures |r| == |entries|
  {
    seq(|entries|, i requires 0 <= i < |entries| => ViewFor(kind, entries[i]))
  }

  function AttemptAll(s: Sink, views: seq<Payload>): Sink {
    if views == [] then s else Attempted(AttemptAll(s, views[..|views| - 1]), views[|views| - 1])
  }

  lemma {:induction false} RunAttemptsViews(s: Sink, entries: seq<ObservabilityEntry>)
    requires s.kind != JsonlFile(false)
    ensures RunSink(s, entries) == AttemptAll(s, ViewsOf(s.kind, entries))
  {
    if entries != [] {
      var n := |entries| - 1;
      RunAttemptsViews(s, entries[..n]);
      RunKeepsKind(s, entries[..n]);
      assert ViewsOf(s.kind, entries)[..n] == ViewsOf(s.kind, entries[..n]);
    }
  }

  /** The attempt to write view k, numbered from the first, raises. */
  predicate Fails(s: Sink, views: seq<Payload>, k: nat)
    requires k < |views|
  {
    s.fails(s.attempts + k, views[k])
  }

  /** `kept` lists, in order, exactly the views whose attempt does not raise. */
  ghost predicate Survivors(s: Sink, views: seq<Payload>, kept: seq<nat>) {
    && Increasing(kept)
    && (forall i :: 0 <= i < |kept| ==> kept[i] < |views| && !Fails(s, views, kept[i]))
    && forall k :: 0 <= k < |views| && !Fails(s, views, k) ==> k in kept
  }

  function Selected(views: seq<Payload>, kept: seq<nat>): seq<Payload>
    requires forall i :: 0 <= i < |kept| ==> kept[i] < |views|
  {
    seq(|kept|, i requires 0 <= i < |kept| => views[kept[i]])
  }

  lemma SurvivorsSnoc(s: Sink, front: seq<Payload>, view: Payload, kept: seq<nat>)
    requires Survivors(s, front, kept)
    ensures Survivors(s, front + [view], if Fails(s, front + [view], |front|) then kept else kept + [|front|])
  {
    var all := front + [view];
    var more := if Fails(s, all, |front|) then kept else kept + [|front|];
    forall k | 0 <= k < |front| ensures Fails(s, all, k) == Fails(s, front, k) {
    }
    forall k | 0 <= k < |all| && !Fails(s, all, k) ensures k in more {
      if k < |front| {
        var i :| 0 <= i < |kept| && kept[i] == k;
        assert more[i] == k;
      } else {
        assert more[|kept|] == k;
      }
    }
  }

  lemma SelectedSnoc(front: seq<Payload>, view: Payload, kept: seq<nat>)
    requires forall i :: 0 <= i < |kept| ==> kept[i] < |front|
    ensures Selected(front + [view], kept) == Selected(front, kept)
    ensures Selected(front + [view], kept + [|front|]) == Selected(front, kept) + [view]
  {
  }

  lemma AttemptedAfter(s: Sink, n: nat, log: seq<Payload>, view: Payload)
    ensures Attempted(s.(attempts := s.attempts + n, log := s.log + log), view)
         == s.(attempts := s.attempts + (n + 1), log := s.log + (log + Appended(s, s.attempts + n, view)))
  {
  }

  /** The state after attempting all views, given what was selected of them. */
  ghost predicate WroteSelected(s: Sink, views: seq<Payload>, after: Sink, log: seq<Payload>) {
    after == s.(attempts := s.attempts + |views|, log := s.log + log)
  }

  lemma WroteOneMore(s: Sink, front: seq<Payload>, view: Payload, log: seq<Payload>)
    requires WroteSelected(s, front, AttemptAll(s, front), log)
    ensures WroteSelected(s, front + [view], AttemptAll(s, front + [view]),
                          log + if Fails(s, front + [view], |front|) then [] else [view])
  {
    var all := front + [view];
    assert all[..|all| - 1] == front && all[|all| - 1] == view;
    AttemptedAfter(s, |front|, log, view);
  }

  lemma {:induction false} AttemptsWritten(s: Sink, views: seq<Payload>) returns (kept: seq<nat>)
    ensures Survivors(s, views, kept)
    ensures WroteSelected(s, views, AttemptAll(s, views), Selected(views, kept))
  {
    if views == [] {
      kept := [];
      assert s.log + [] == s.log;
    } else {
      var n := |views| - 1;
      var front, view := views[..n], views[n];
      var before := AttemptsWritten(s, front);
      assert views == front + [view];
      SurvivorsSnoc(s, front, view, before);
      SelectedSnoc(front, view, before);
      WroteOneMore(s, front, view, Selected(front, before));
      kept := if Fails(s, views, n) then before else before + [n];
      assert Selected(front, before) + [] == Selected(front, before);
    }
  }

  /** A sink's log is the in-order list of the entries on which that sink itself did not fail. */
  lemma LogHoldsWhatDidNotFail(s: Sink, entries: seq<ObservabilityEntry>) returns (kept: seq<nat>)
    requires s.kind != JsonlFile(false)
    ensures Survivors(s, ViewsOf(s.kind, entries), kept)
    ensures RunSink(s, entries) == s.(attempts := s.attempts + |entries|,
                                      log := s.log + Selected(ViewsOf(s.kind, entries), kept))
  {
    RunAttemptsViews(s, entries);
    kept := AttemptsWritten(s, ViewsOf(s.kind, entries));
  }

  /** The two entries differ at most in cell values and column names. */
  predicate SameButResultData(e: ObservabilityEntry, f: ObservabilityEntry) {
    WithoutResultData(e) == WithoutResultData(f)
  }

  lemma RestrictedSinksAreBlind(s: Sink, e: ObservabilityEntry, f: ObservabilityEntry)
    requires !s.kind.InMemory? && SameButResultData(e, f)
    ensures Recorded(s, e) == Recorded(s, f)
  {
    RestrictedViewIsBlind(e);
    RestrictedViewIsBlind(f);
  }
}
