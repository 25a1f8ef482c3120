/** The cards of the page in terms of history positions, and what arriving positions make of them. */
module CardPositions {
  import opened Basics
  import opened Broadcast
  import opened DeliveryOrder
  import opened JsonReader
  import opened ObservabilityEntries
  import opened ObservabilityPage

  /**
   Bookkeeping that no step looks at: the positions of the entries on the page (oldest first), of
   all entries that the page has ever taken for new, the position up to which the page has been told
   the history, and the first position of the latest snapshot.
   */
  datatype Trace = Trace(shown: seq<nat>, ever: seq<nat>, pos: nat, base: nat)

  /** Position i is recorded and can be shown: the page parses its text. */
  predicate Good(h: seq<ObservabilityEntry>, i: nat) {
    i < |h| && Displayable(h[i])
  }

  function Shown(shown: seq<nat>, i: nat): seq<nat> {
    if i in shown then shown else LastN(shown + [i], MAX_CARDS_ON_PAGE)
  }

  /** Position i has arrived; `accepted` is the page's own verdict on it. */
  function Noted(tr: Trace, i: nat, good: bool, accepted: bool): Trace {
    Trace(if good then Shown(tr.shown, i) else tr.shown, if accepted then tr.ever + [i] else tr.ever,
          Max(tr.pos, i + 1), tr.base)
  }

  /** The page puts the entry up: its text parses, and it is not taken for a repeat. */
  predicate Accepts(p: Page, e: ObservabilityEntry) {
    Displayable(e) && !IsRepeat(p, e)
  }

  // ---------------------------------------------------------------- the page in terms of positions

  ghost predicate DistinctIds(h: seq<ObservabilityEntry>) {
    && (forall i :: 0 <= i < |h| ==> h[i].requestId != "")
    && forall i, j :: 0 <= i < j < |h| ==> h[i].requestId != h[j].requestId
  }

  /** The entries at the given positions, newest first. */
  function CardsAt(h: seq<ObservabilityEntry>, shown: seq<nat>): seq<ObservabilityEntry>
    requires Below(shown, |h|)
  {
    seq(|shown|, i requires 0 <= i < |shown| => h[shown[|shown| - 1 - i]])
  }

  ghost predicate AllDisplayable(h: seq<ObservabilityEntry>, shown: seq<nat>) {
    forall k :: 0 <= k < |shown| ==> Good(h, shown[k])
  }

  /** The cards are the entries at the given positions. */
  ghost predicate LaidOut(p: Page, h: seq<ObservabilityEntry>, shown: seq<nat>) {
    Below(shown, |h|) && Consistent(p) && p.cards == CardsAt(h, shown)
  }

  ghost predicate Displays(p: Page, h: seq<ObservabilityEntry>, shown: seq<nat>) {
    LaidOut(p, h, shown) && AllDisplayable(h, shown)
  }

  lemma {:induction false} IdOnPage(cards: seq<ObservabilityEntry>, id: string)
    ensures id in IdsOf(cards) <==> id != "" && exists i :: 0 <= i < |cards| && cards[i].requestId == id
  {
    if cards != [] {
      IdOnPage(cards[..|cards| - 1], id);
    }
  }

  /** The page recognises an entry by its id exactly when it shows that position. */
  lemma RecognisesPosition(p: Page, h: seq<ObservabilityEntry>, shown: seq<nat>, i: nat)
    requires DistinctIds(h) && LaidOut(p, h, shown) && i < |h|
    ensures h[i].requestId in p.seenRequestIds <==> i in shown
  {
    IdOnPage(p.cards, h[i].requestId);
    if i in shown {
      var k :| 0 <= k < |shown| && shown[k] == i;
      assert p.cards[|shown| - 1 - k].requestId == h[i].requestId;
    }
    if k :| 0 <= k < |p.cards| && p.cards[k].requestId == h[i].requestId {
      assert shown[|shown| - 1 - k] == i;
    }
  }

  /** The page takes for new exactly what it can show and does not show. */
  lemma AcceptsIff(p: Page, h: seq<ObservabilityEntry>, shown: seq<nat>, i: nat)
    requires DistinctIds(h) && LaidOut(p, h, shown) && i < |h|
    ensures Accepts(p, h[i]) <==> Good(h, i) && i !in shown
  {
    RecognisesPosition(p, h, shown, i);
  }

  lemma CardsAtSnoc(h: seq<ObservabilityEntry>, shown: seq<nat>, i: nat)
    requires Below(shown, |h|) && i < |h|
    ensures Below(shown + [i], |h|) && CardsAt(h, shown + [i]) == [h[i]] + CardsAt(h, shown)
  {
  }

  lemma CardsAtLastN(h: seq<ObservabilityEntry>, shown: seq<nat>, n: nat)
    requires Below(shown, |h|)
    ensures Below(LastN(shown, n), |h|)
    ensures CardsAt(h, LastN(shown, n)) == if |shown| <= n then CardsAt(h, shown) else CardsAt(h, shown)[..n]
  {
  }

  lemma AddEntryLaysOut(p: Page, h: seq<ObservabilityEntry>, shown: seq<nat>, i: nat)
    requires DistinctIds(h) && LaidOut(p, h, shown) && i < |h|
    ensures LaidOut(AddEntry(p, h[i]), h, Shown(shown, i))
  {
    AddEntryKeepsConsistent(p, h[i]);
    RecognisesPosition(p, h, shown, i);
    if i !in shown {
      CardsAtSnoc(h, shown, i);
      CardsAtLastN(h, shown + [i], MAX_CARDS_ON_PAGE);
      AddedCards(p, h[i]);
    }
  }

  lemma ShownDisplayable(h: seq<ObservabilityEntry>, shown: seq<nat>, i: nat)
    requires AllDisplayable(h, shown) && Good(h, i)
    ensures AllDisplayable(h, Shown(shown, i))
  {
    if i !in shown {
      var all := shown + [i];
      assert AllDisplayable(h, all);
      LastNDisplayable(h, all, MAX_CARDS_ON_PAGE);
    }
  }

  lemma LastNDisplayable(h: seq<ObservabilityEntry>, shown: seq<nat>, n: nat)
    requires AllDisplayable(h, shown)
    ensures AllDisplayable(h, LastN(shown, n))
  {
    var r := LastN(shown, n);
    forall k | 0 <= k < |r| ensures Good(h, r[k]) {
      assert r[k] == shown[|shown| - |r| + k];
    }
  }

  lemma ArrivalDisplays(p: Page, h: seq<ObservabilityEntry>, shown: seq<nat>, i: nat)
    requires DistinctIds(h) && Displays(p, h, shown) && i < |h|
    ensures Displays(AfterArrival(p, h[i]), h, if Good(h, i) then Shown(shown, i) else shown)
  {
    if Good(h, i) {
      AddEntryLaysOut(p, h, shown, i);
      ShownDisplayable(h, shown, i);
    }
  }

  lemma AddedCards(p: Page, e: ObservabilityEntry)
    requires Consistent(p) && e.requestId !in p.seenRequestIds
    ensures var cards := [e] + p.cards;
            AddEntry(p, e).cards == if |cards| <= MAX_CARDS_ON_PAGE then cards else cards[..MAX_CARDS_ON_PAGE]
  {
    IdsOfCons(e, p.cards);
    CappedConsistent(WithCard(p, e));
  }

  lemma MoreHistoryDisplays(p: Page, h: seq<ObservabilityEntry>, entry: ObservabilityEntry, shown: seq<nat>)
    requires Displays(p, h, shown)
    ensures Displays(p, h + [entry], shown)
  {
    assert CardsAt(h + [entry], shown) == CardsAt(h, shown);
    forall k | 0 <= k < |shown| ensures Good(h + [entry], shown[k]) {
      assert Good(h, shown[k]);
    }
  }

  // ---------------------------------------------------------------- what the page shows

  /**
   The positions on the page are increasing, lie below pos, and include every displayable position
   from the snapshot's start on that the cap leaves room for.
   */
  ghost predicate Tracked(tr: Trace, h: seq<ObservabilityEntry>) {
    && Increasing(tr.shown) && Below(tr.shown, tr.pos) && |tr.shown| <= MAX_CARDS_ON_PAGE
    && (forall i: nat :: tr.base <= i < tr.pos && i + MAX_CARDS_ON_PAGE >= tr.pos && Good(h, i) ==> i in tr.shown)
    && tr.base <= tr.pos <= |h|
  }

  /** A position the cap still leaves room for survives the arrival of position pos. */
  lemma StaysShown(tr: Trace, h: seq<ObservabilityEntry>, j: nat)
    requires Tracked(tr, h) && tr.base <= j < tr.pos && j + MAX_CARDS_ON_PAGE > tr.pos && Good(h, j)
    ensures j in LastN(tr.shown + [tr.pos], MAX_CARDS_ON_PAGE)
  {
    assert j in tr.shown;
    var k :| 0 <= k < |tr.shown| && tr.shown[k] == j;
    IncreasingGap(tr.shown, k, tr.pos);
    LastNKeeps(tr.shown + [tr.pos], MAX_CARDS_ON_PAGE, k);
  }

  lemma LastNKeeps(s: seq<nat>, n: nat, k: nat)
    requires k < |s| <= k + n
    ensures s[k] in LastN(s, n)
  {
    var r := LastN(s, n);
    assert r[k - (|s| - |r|)] == s[k];
  }

  lemma IncreasingSnoc(s: seq<nat>, x: nat)
    requires Increasing(s) && Below(s, x)
    ensures Increasing(s + [x]) && Below(s + [x], x + 1)
  {
  }

  lemma IncreasingLastN(s: seq<nat>, n: nat, bound: nat)
    requires Increasing(s) && Below(s, bound)
    ensures Increasing(LastN(s, n)) && Below(LastN(s, n), bound)
  {
  }

  /** Being told position pos next, or one the page still shows if it can, keeps the page tracked. */
  lemma NotedKeepsTracked(tr: Trace, h: seq<ObservabilityEntry>, i: nat, accepted: bool)
    requires Tracked(tr, h) && i < |h| && (i == tr.pos || (i < tr.pos && (Good(h, i) ==> i in tr.shown)))
    ensures Tracked(Noted(tr, i, Good(h, i), accepted), h)
  {
    if i == tr.pos && Good(h, i) {
      assert i !in tr.shown;
      NextKeepsTracked(tr, h, accepted);
    }
  }

  lemma NextKeepsTracked(tr: Trace, h: seq<ObservabilityEntry>, accepted: bool)
    requires Tracked(tr, h) && tr.pos < |h| && Good(h, tr.pos) && tr.pos !in tr.shown
    ensures Tracked(Noted(tr, tr.pos, true, accepted), h)
  {
    var i := tr.pos;
    IncreasingSnoc(tr.shown, i);
    IncreasingLastN(tr.shown + [i], MAX_CARDS_ON_PAGE, i + 1);
    var shown := LastN(tr.shown + [i], MAX_CARDS_ON_PAGE);
    forall j: nat | tr.base <= j < i + 1 && j + MAX_CARDS_ON_PAGE >= i + 1 && Good(h, j) ensures j in shown {
      if j == i {
        assert shown[|shown| - 1] == i;
      } else {
        StaysShown(tr, h, j);
      }
    }
  }

  /** In an increasing sequence below n, the element at index k leaves room for the ones after it. */
  lemma {:induction false} IncreasingGap(s: seq<nat>, k: nat, n: nat)
    requires Increasing(s) && Below(s, n) && k < |s|
    ensures s[k] + (|s| - k) <= n
    decreases |s| - k
  {
    if k + 1 < |s| {
      IncreasingGap(s, k + 1, n);
      assert s[k] < s[k + 1];
    }
  }

  /** The stretch from a to b can be shown as a whole. */
  ghost predicate AllGood(h: seq<ObservabilityEntry>, a: nat, b: nat) {
    forall i: nat :: a <= i < b ==> Good(h, i)
  }

  /**
   Told everything from a snapshot that covers the cap, the page shows precisely the newest positions,
   if all of these can be shown.
   */
  lemma TrackedShowsNewest(tr: Trace, h: seq<ObservabilityEntry>)
    requires Tracked(tr, h) && tr.base <= SnapshotStart(tr.pos) && AllGood(h, SnapshotStart(tr.pos), tr.pos)
    ensures tr.shown == Range(SnapshotStart(tr.pos), tr.pos)
  {
    var a, n := SnapshotStart(tr.pos), |tr.shown|;
    forall x: nat | a <= x < tr.pos ensures Among(tr.shown, n, x) {
      assert Good(h, x) && x in tr.shown;
    }
    CoversSuffix(tr.shown, n, a, tr.pos);
    if n > tr.pos - a {
      IncreasingGap(tr.shown, 0, tr.pos);
    }
  }

  ghost predicate Among(s: seq<nat>, n: nat, x: nat) {
    exists k :: 0 <= k < n && k < |s| && s[k] == x
  }

  lemma {:induction false} CoversSuffix(s: seq<nat>, n: nat, a: nat, b: nat)
    requires a <= b && n <= |s| && Increasing(s) && forall i :: 0 <= i < n ==> s[i] < b
    requires forall x: nat :: a <= x < b ==> Among(s, n, x)
    ensures n >= b - a && forall j :: n - (b - a) <= j < n ==> s[j] == b - (n - j)
    decreases b
  {
    if a < b {
      var last: nat := b - 1;
      assert Among(s, n, last);
      assert n > 0 && s[n - 1] == last;
      var m: nat := n - 1;
      forall x: nat | a <= x < last ensures Among(s, m, x) {
        assert Among(s, n, x);
      }
      CoversSuffix(s, m, a, last);
    }
  }

  // ---------------------------------------------------------------- the mirror

  /** The page when it mirrors the first k entries of the history: the newest 500 of them, newest first. */
  function Mirror(h: seq<ObservabilityEntry>, k: nat): seq<ObservabilityEntry>
    requires k <= |h|
  {
    Reverse(LastN(h[..k], MAX_CARDS_ON_PAGE))
  }

  lemma CardsAtNewest(h: seq<ObservabilityEntry>, k: nat)
    requires k <= |h|
    ensures Below(Range(SnapshotStart(k), k), |h|)
    ensures CardsAt(h, Range(SnapshotStart(k), k)) == Mirror(h, k)
  {
    var newest := LastN(h[..k], MAX_CARDS_ON_PAGE);
    forall i | 0 <= i < |newest| ensures newest[i] == h[SnapshotStart(k) + i] {
    }
  }

  /** A page shows the mirror exactly when it shows the newest positions and nothing else. */
  lemma MirrorIffNewest(p: Page, h: seq<ObservabilityEntry>, shown: seq<nat>, k: nat)
    requires DistinctIds(h) && Displays(p, h, shown) && k <= |h|
    ensures p.cards == Mirror(h, k) <==> shown == Range(SnapshotStart(k), k)
    ensures p.cards == Mirror(h, k) ==> AllGood(h, SnapshotStart(k), k)
  {
    var newest := Range(SnapshotStart(k), k);
    CardsAtNewest(h, k);
    if p.cards == Mirror(h, k) {
      assert |shown| == |newest|;
      forall i | 0 <= i < |shown| ensures shown[i] == newest[i] {
        SamePosition(h, shown, newest, i);
      }
      forall x: nat | SnapshotStart(k) <= x < k ensures Good(h, x) {
        assert shown[x - SnapshotStart(k)] == x;
      }
    }
  }

  lemma SamePosition(h: seq<ObservabilityEntry>, a: seq<nat>, b: seq<nat>, i: nat)
    requires DistinctIds(h) && Below(a, |h|) && Below(b, |h|) && CardsAt(h, a) == CardsAt(h, b)
    requires i < |a| && i < |b|
    ensures a[i] == b[i]
  {
    var j := |a| - 1 - i;
    assert |CardsAt(h, a)| == |a| && |CardsAt(h, b)| == |b|;
    assert CardsAt(h, a)[j] == h[a[i]] && CardsAt(h, b)[j] == h[b[i]];
  }

  /** In time, the page mirrors the history up to pos exactly if the newest 500 entries can all be shown. */
  lemma TrackedMirrorsIff(p: Page, tr: Trace, h: seq<ObservabilityEntry>)
    requires DistinctIds(h) && Displays(p, h, tr.shown) && Tracked(tr, h) && tr.base <= SnapshotStart(tr.pos)
    ensures p.cards == Mirror(h, tr.pos) <==> AllGood(h, SnapshotStart(tr.pos), tr.pos)
  {
    MirrorIffNewest(p, h, tr.shown, tr.pos);
    if AllGood(h, SnapshotStart(tr.pos), tr.pos) {
      TrackedShowsNewest(tr, h);
    }
  }

  // ---------------------------------------------------------------- the history grows

  lemma MoreHistoryGood(h: seq<ObservabilityEntry>, entry: ObservabilityEntry)
    ensures forall i: nat :: i < |h| ==> (Good(h + [entry], i) <==> Good(h, i))
  {
  }

  lemma MoreHistoryTracked(tr: Trace, h: seq<ObservabilityEntry>, entry: ObservabilityEntry)
    requires Tracked(tr, h)
    ensures Tracked(tr, h + [entry])
  {
    MoreHistoryGood(h, entry);
  }
}
