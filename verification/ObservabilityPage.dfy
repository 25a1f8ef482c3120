/** The live page: its cards, and the request ids by which it recognises entries it already shows. */
module ObservabilityPage {
  import opened Basics
  import opened Json
  import opened JsonReader
  import opened ObservabilityEntries

  const MAX_CARDS_ON_PAGE := 500

  /** Cards are listed as on the page, newest first. */
  datatype Page = Page(
    cards: seq<ObservabilityEntry>,
    seenRequestIds: set<string>,
    counts: map<Decision, nat>,
    totalEverReceived: nat)

  function EmptyPage(): Page {
    Page([], {}, map[ALLOWED := 0, REJECTED := 0, DB_ERROR := 0], 0)
  }

  function IdSet(e: ObservabilityEntry): set<string> {
    if e.requestId == "" then {} else {e.requestId}
  }

  /** Removes cards from the end, and their ids, until the cap is met. */
  function Capped(p: Page): Page
    decreases |p.cards|
  {
    if |p.cards| <= MAX_CARDS_ON_PAGE then p
    else Capped(p.(cards := p.cards[..|p.cards| - 1],
                   seenRequestIds := p.seenRequestIds - IdSet(p.cards[|p.cards| - 1])))
  }

  function Counted(counts: map<Decision, nat>, d: Decision): map<Decision, nat> {
    if d in counts then counts[d := counts[d] + 1] else counts
  }

  predicate IsRepeat(p: Page, e: ObservabilityEntry) {
    e.requestId != "" && e.requestId in p.seenRequestIds
  }

  /** The page with a new card on top, before the cap is applied. */
  function WithCard(p: Page, e: ObservabilityEntry): Page {
    Page([e] + p.cards, p.seenRequestIds + IdSet(e), Counted(p.counts, e.decision), p.totalEverReceived + 1)
  }

  function AddEntry(p: Page, e: ObservabilityEntry): Page {
    if IsRepeat(p, e) then p
    else Capped(WithCard(p, e))
  }

  function AfterMessage(p: Page, data: string): Page {
    if ReadEntry(data).None? then p else AddEntry(p, ReadEntry(data).value)
  }

  /** What a recorded entry does to the page when it arrives. */
  function AfterArrival(p: Page, e: ObservabilityEntry): Page {
    if Displayable(e) then AddEntry(p, e) else p
  }

  /** The text of an entry puts it on the page, unless some float among its cells is not finite. */
  lemma ArrivalOfText(p: Page, e: ObservabilityEntry)
    ensures AfterMessage(p, EntryText(e)) == AfterArrival(p, e)
  {
    EntryBackIff(e);
  }

  class LivePage {
    var cards: seq<ObservabilityEntry>
    var seenRequestIds: set<string>
    var counts: map<Decision, nat>
    var totalEverReceived: nat

    function State(): Page
      reads this
    {
      Page(cards, seenRequestIds, counts, totalEverReceived)
    }

    constructor ()
      ensures State() == EmptyPage()
    {
      cards, seenRequestIds, totalEverReceived := [], {}, 0;
      counts := map[ALLOWED := 0, REJECTED := 0, DB_ERROR := 0];
    }

    /** `onmessage`: a text that does not parse is ignored. */
    method OnMessage(data: string)
      modifies this
      ensures State() == AfterMessage(old(State()), data)
    {
      var entry := ReadEntry(data);
      if entry.Some? {
        AddEntryToPage(entry.value);
      }
    }

    method AddEntryToPage(entry: ObservabilityEntry)
      modifies this
      ensures State() == AddEntry(old(State()), entry)
    {
      var requestId := entry.requestId;
      if requestId != "" && requestId in seenRequestIds {
        return;
      }
      if requestId != "" {
        seenRequestIds := seenRequestIds + {requestId};
      }
      totalEverReceived := totalEverReceived + 1;
      if entry.decision in counts {
        counts := counts[entry.decision := counts[entry.decision] + 1];
      }
      cards := [entry] + cards;
      assert seenRequestIds == old(seenRequestIds) + IdSet(entry);
      EvictBeyondCap();
    }

    method EvictBeyondCap()
      modifies this
      ensures State() == Capped(old(State()))
    {
      while |cards| > MAX_CARDS_ON_PAGE
        invariant Capped(State()) == Capped(old(State()))
        decreases |cards|
      {
        var oldest := cards[|cards| - 1];
        ghost var seen := seenRequestIds;
        if oldest.requestId != "" {
          seenRequestIds := seenRequestIds - {oldest.requestId};
        }
        assert seenRequestIds == seen - IdSet(oldest);
        cards := cards[..|cards| - 1];
      }
    }
  }

  // ---------------------------------------------------------------- what holds after any entries whatsoever

  /** The ids on a list of cards; entries without an id contribute none. */
  function IdsOf(cards: seq<ObservabilityEntry>): set<string> {
    if cards == [] then {} else IdsOf(cards[..|cards| - 1]) + IdSet(cards[|cards| - 1])
  }

  /** No id occurs twice. */
  predicate IdsUnique(cards: seq<ObservabilityEntry>) {
    cards != [] ==>
      IdsUnique(cards[..|cards| - 1]) && IdsOf(cards[..|cards| - 1]) !! IdSet(cards[|cards| - 1])
  }

  /** The remembered ids are exactly those on the page. */
  predicate Consistent(p: Page) {
    && p.seenRequestIds == IdsOf(p.cards) && IdsUnique(p.cards)
    && |p.cards| <= MAX_CARDS_ON_PAGE
  }

  lemma {:induction false} IdsOfCons(e: ObservabilityEntry, cards: seq<ObservabilityEntry>)
    ensures IdsOf([e] + cards) == IdSet(e) + IdsOf(cards)
    ensures IdsUnique(cards) && IdSet(e) !! IdsOf(cards) ==> IdsUnique([e] + cards)
  {
    if cards == [] {
      assert [e] + cards == [e];
      assert [e][..0] == [];
      assert IdsOf([e]) == IdsOf([]) + IdSet(e);
    } else {
      var front := cards[..|cards| - 1];
      var all := [e] + cards;
      assert all[..|all| - 1] == [e] + front;
      assert all[|all| - 1] == cards[|cards| - 1];
      IdsOfCons(e, front);
    }
  }

  lemma {:induction false} CappedConsistent(p: Page)
    requires p.seenRequestIds == IdsOf(p.cards) && IdsUnique(p.cards)
    ensures Consistent(Capped(p)) && Capped(p).totalEverReceived == p.totalEverReceived
    ensures Capped(p).cards == if |p.cards| <= MAX_CARDS_ON_PAGE then p.cards else p.cards[..MAX_CARDS_ON_PAGE]
    decreases |p.cards|
  {
    if |p.cards| > MAX_CARDS_ON_PAGE {
      var front := p.cards[..|p.cards| - 1];
      var q := p.(cards := front, seenRequestIds := p.seenRequestIds - IdSet(p.cards[|p.cards| - 1]));
      assert q.seenRequestIds == IdsOf(front);
      CappedConsistent(q);
      assert front[..MAX_CARDS_ON_PAGE] == p.cards[..MAX_CARDS_ON_PAGE];
    }
  }

  lemma AddEntryKeepsConsistent(p: Page, e: ObservabilityEntry)
    requires Consistent(p)
    ensures Consistent(AddEntry(p, e))
  {
    IdsOfCons(e, p.cards);
    if !(e.requestId != "" && e.requestId in p.seenRequestIds) {
      CappedConsistent(WithCard(p, e));
    }
  }

  function Received(entries: seq<ObservabilityEntry>): Page {
    if entries == [] then EmptyPage() else AddEntry(Received(entries[..|entries| - 1]), entries[|entries| - 1])
  }

  /**
   After any sequence of entries, with repeated or missing ids too, the remembered ids are the ids
   of the cards, no id is shown twice, and the cap is kept.
   */
  lemma {:induction false} SeenIdsAreTheIdsOnThePage(entries: seq<ObservabilityEntry>)
    ensures Consistent(Received(entries))
  {
    if entries != [] {
      SeenIdsAreTheIdsOnThePage(entries[..|entries| - 1]);
      AddEntryKeepsConsistent(Received(entries[..|entries| - 1]), entries[|entries| - 1]);
    }
  }

  // ---------------------------------------------------------------- the counters

  /** What entry e adds to the count of decision d: nothing when it is recognised as a repeat. */
  function Contribution(p: Page, e: ObservabilityEntry, d: Decision): nat {
    if e.decision == d && !IsRepeat(p, e) then 1 else 0
  }

  /** How many of the entries put on the page had decision d; ones recognised as repeats do not count. */
  function Accepted(entries: seq<ObservabilityEntry>, d: Decision): nat {
    if entries == [] then 0
    else
      var before, e := entries[..|entries| - 1], entries[|entries| - 1];
      Accepted(before, d) + Contribution(Received(before), e, d)
  }

  lemma {:induction false} CappedKeepsCounters(p: Page)
    ensures Capped(p).counts == p.counts && Capped(p).totalEverReceived == p.totalEverReceived
    ensures |Capped(p).cards| == if |p.cards| <= MAX_CARDS_ON_PAGE then |p.cards| else MAX_CARDS_ON_PAGE
    decreases |p.cards|
  {
    if |p.cards| > MAX_CARDS_ON_PAGE {
      CappedKeepsCounters(p.(cards := p.cards[..|p.cards| - 1],
                             seenRequestIds := p.seenRequestIds - IdSet(p.cards[|p.cards| - 1])));
    }
  }

  lemma AddEntryCounters(p: Page, e: ObservabilityEntry)
    ensures IsRepeat(p, e) ==> AddEntry(p, e) == p
    ensures !IsRepeat(p, e) ==>
              && AddEntry(p, e).counts == Counted(p.counts, e.decision)
              && AddEntry(p, e).totalEverReceived == p.totalEverReceived + 1
              && |AddEntry(p, e).cards| == if |p.cards| < MAX_CARDS_ON_PAGE then |p.cards| + 1 else MAX_CARDS_ON_PAGE
  {
    CappedKeepsCounters(WithCard(p, e));
  }

  /** The chips read a, r and d, the tab counts their sum, and as many cards are shown as the cap allows. */
  predicate Reads(p: Page, a: nat, r: nat, d: nat) {
    && p.counts == map[ALLOWED := a, REJECTED := r, DB_ERROR := d]
    && p.totalEverReceived == a + r + d
    && |p.cards| == if a + r + d <= 500 then a + r + d else 500
  }

  lemma AddEntryReads(p: Page, e: ObservabilityEntry, a: nat, r: nat, d: nat)
    requires Reads(p, a, r, d)
    ensures Reads(AddEntry(p, e), a + Contribution(p, e, ALLOWED), r + Contribution(p, e, REJECTED),
                  d + Contribution(p, e, DB_ERROR))
  {
    AddEntryCounters(p, e);
    if !IsRepeat(p, e) {
      match e.decision
      case ALLOWED => assert p.counts[ALLOWED := a + 1] == map[ALLOWED := a + 1, REJECTED := r, DB_ERROR := d];
      case REJECTED => assert p.counts[REJECTED := r + 1] == map[ALLOWED := a, REJECTED := r + 1, DB_ERROR := d];
      case DB_ERROR => assert p.counts[DB_ERROR := d + 1] == map[ALLOWED := a, REJECTED := r, DB_ERROR := d + 1];
    }
  }

  /**
   The chips count every entry ever accepted, by decision, while the page holds at most 500 cards:
   their sum is the number of cards exactly as long as nothing was evicted.
   */
  lemma {:induction false} CountersCoverEverything(entries: seq<ObservabilityEntry>)
    ensures Reads(Received(entries), Accepted(entries, ALLOWED), Accepted(entries, REJECTED),
                  Accepted(entries, DB_ERROR))
  {
    if entries != [] {
      var before, e := entries[..|entries| - 1], entries[|entries| - 1];
      CountersCoverEverything(before);
      AddEntryReads(Received(before), e, Accepted(before, ALLOWED), Accepted(before, REJECTED),
                    Accepted(before, DB_ERROR));
    }
  }
}
