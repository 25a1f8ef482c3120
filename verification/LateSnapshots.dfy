/** What the page shows when a snapshot came so late that the stream goes on behind it. */
module LateSnapshots {
  import opened Basics
  import opened Broadcast
  import opened DeliveryOrder
  import opened ObservabilityEntries
  import opened ObservabilityPage
  import opened CardPositions

  // ---------------------------------------------------------------- displayable positions in order

  /** The displayable positions from a to b. */
  ghost function Goods(h: seq<ObservabilityEntry>, a: nat, b: nat): seq<nat>
    decreases b
  {
    if b <= a then [] else Goods(h, a, b - 1) + if Good(h, b - 1) then [b - 1] else []
  }

  ghost predicate SomeGood(h: seq<ObservabilityEntry>, a: nat, b: nat) {
    exists x: nat :: a <= x < b && Good(h, x)
  }

  lemma {:induction false} GoodsMember(h: seq<ObservabilityEntry>, a: nat, b: nat, x: nat)
    ensures x in Goods(h, a, b) <==> a <= x < b && Good(h, x)
    decreases b
  {
    if a < b {
      GoodsMember(h, a, b - 1, x);
    }
  }

  lemma {:induction false} GoodsSplit(h: seq<ObservabilityEntry>, a: nat, m: nat, b: nat)
    requires a <= m <= b
    ensures Goods(h, a, b) == Goods(h, a, m) + Goods(h, m, b)
    decreases b
  {
    if m < b {
      GoodsSplit(h, a, m, b - 1);
    }
  }

  lemma {:induction false} GoodsAll(h: seq<ObservabilityEntry>, a: nat, b: nat)
    requires a <= b && AllGood(h, a, b)
    ensures Goods(h, a, b) == Range(a, b)
    decreases b
  {
    if a < b {
      GoodsAll(h, a, b - 1);
      RangeSnoc(a, b - 1);
      assert Good(h, b - 1);
    }
  }

  lemma GoodsEmptyIff(h: seq<ObservabilityEntry>, a: nat, b: nat)
    ensures Goods(h, a, b) == [] <==> !SomeGood(h, a, b)
  {
    if Goods(h, a, b) != [] {
      GoodsMember(h, a, b, Goods(h, a, b)[0]);
    }
    if x: nat :| a <= x < b && Good(h, x) {
      GoodsMember(h, a, b, x);
    }
  }

  lemma {:induction false} GoodsIncreasing(h: seq<ObservabilityEntry>, a: nat, b: nat)
    ensures Increasing(Goods(h, a, b)) && Below(Goods(h, a, b), b) && AllFrom(Goods(h, a, b), a)
    decreases b
  {
    if a < b {
      GoodsIncreasing(h, a, b - 1);
      GoodLast(Goods(h, a, b - 1), if Good(h, b - 1) then [b - 1] else [], a, b - 1);
    }
  }

  ghost predicate AllFrom(s: seq<nat>, a: nat) {
    forall i :: 0 <= i < |s| ==> s[i] >= a
  }

  lemma GoodLast(s: seq<nat>, more: seq<nat>, a: nat, x: nat)
    requires Increasing(s) && Below(s, x) && AllFrom(s, a) && a <= x && (more == [] || more == [x])
    ensures Increasing(s + more) && Below(s + more, x + 1) && AllFrom(s + more, a)
  {
  }

  lemma IncreasingConcat(a: seq<nat>, b: seq<nat>, m: nat)
    requires Increasing(a) && Below(a, m) && Increasing(b) && AllFrom(b, m)
    ensures Increasing(a + b)
  {
  }

  /** Increasing sequences with the same members are the same. */
  lemma {:induction false} IncreasingUnique(a: seq<nat>, b: seq<nat>)
    requires Increasing(a) && Increasing(b) && forall x: nat :: x in a <==> x in b
    ensures a == b
    decreases |a|
  {
    if a != [] && b != [] {
      var m, n := |a| - 1, |b| - 1;
      assert a[m] in b && b[n] in a;
      assert a[m] == b[n];
      forall x: nat ensures x in a[..m] <==> x in b[..n] {
        FrontMembers(a, x);
        FrontMembers(b, x);
      }
      IncreasingUnique(a[..m], b[..n]);
    } else {
      HeadMember(a);
      HeadMember(b);
    }
  }

  lemma HeadMember(s: seq<nat>)
    ensures s != [] ==> s[0] in s
  {
  }

  lemma FrontMembers(s: seq<nat>, x: nat)
    requires Increasing(s) && s != []
    ensures x in s[..|s| - 1] <==> x in s && x != s[|s| - 1]
  {
    if x in s && x != s[|s| - 1] {
      var k :| 0 <= k < |s| && s[k] == x;
      assert s[..|s| - 1][k] == x;
    }
  }

  /** Where an increasing sequence passes b. */
  function CutAt(s: seq<nat>, b: nat): (k: nat)
    ensures k <= |s| && Below(s[..k], b) && (Increasing(s) ==> AllFrom(s[k..], b))
  {
    if s == [] then 0
    else if s[|s| - 1] < b then
      (if Increasing(s) then |s| else 0)
    else
      var k := CutAt(s[..|s| - 1], b);
      k
  }

  // ---------------------------------------------------------------- the shape of a late page

  /**
   What the live entries put on the page after the replay of a late snapshot of length t, when the
   next one is at position `next`. If more displayable entries than the page holds were recorded from
   the subscription to the snapshot, then each of them is pushed out before it is delivered again;
   otherwise those in the snapshot are still on the page when they come.
   */
  ghost function Live(h: seq<ObservabilityEntry>, from: nat, t: nat, next: nat): seq<nat> {
    if |Goods(h, from, t)| > MAX_CARDS_ON_PAGE then Goods(h, from, next)
    else Goods(h, from, Min(next, SnapshotStart(t))) + Goods(h, t, Max(t, next))
  }

  /** `older` was on the page before the replay. */
  ghost predicate LateFrom(
    older: seq<nat>, shown: seq<nat>, h: seq<ObservabilityEntry>, from: nat, t: nat, next: nat)
  {
    && Increasing(older) && Below(older, from)
    && shown == LastN(older + Goods(h, SnapshotStart(t), t) + Live(h, from, t, next), MAX_CARDS_ON_PAGE)
  }

  ghost predicate LateShape(shown: seq<nat>, h: seq<ObservabilityEntry>, from: nat, t: nat, next: nat) {
    && from + MAX_CARDS_ON_PAGE < t <= |h| && from <= next <= |h|
    && exists older :: LateFrom(older, shown, h, from, t, next)
  }

  /** An entry that the snapshot had left behind has been put on the page, which shows some of the snapshot. */
  ghost predicate Overtaken(h: seq<ObservabilityEntry>, from: nat, t: nat, next: nat) {
    SomeGood(h, from, Min(next, SnapshotStart(t))) && SomeGood(h, SnapshotStart(t), t)
  }

  /** The order is disturbed until the live entries have come past the snapshot, or have filled the page. */
  ghost predicate Displaced(h: seq<ObservabilityEntry>, from: nat, t: nat, next: nat) {
    && Overtaken(h, from, t, next)
    && if |Goods(h, from, t)| > MAX_CARDS_ON_PAGE then next < t
       else |Goods(h, t, Max(t, next))| < MAX_CARDS_ON_PAGE
  }

  /** What the page shows was told before the subscription, or belongs to the snapshot. */
  ghost predicate OldOrReplayed(shown: seq<nat>, from: nat, base: nat) {
    forall i :: 0 <= i < |shown| ==> shown[i] < from || shown[i] >= base
  }

  /** What is shown from the snapshot's start on are its displayable positions. */
  lemma TrackedTail(shown: seq<nat>, h: seq<ObservabilityEntry>, lo: nat, t: nat)
    requires AllDisplayable(h, shown) && Below(shown, t)
    requires forall i: nat :: lo <= i < t && Good(h, i) ==> i in shown
    ensures forall x: nat :: x in shown && x >= lo <==> x in Goods(h, lo, t)
  {
    forall x: nat ensures x in shown && x >= lo <==> x in Goods(h, lo, t) {
      GoodsMember(h, lo, t, x);
    }
  }

  lemma SuffixMembers(s: seq<nat>, k: nat, lo: nat, x: nat)
    requires Increasing(s) && k <= |s| && Below(s[..k], lo) && AllFrom(s[k..], lo)
    ensures x in s[k..] <==> x in s && x >= lo
  {
    forall j | 0 <= j < k ensures s[j] < lo {
      assert s[..k][j] == s[j];
    }
    if x in s && x >= lo {
      var i :| 0 <= i < |s| && s[i] == x;
      assert s[k..][i - k] == x;
    }
  }

  lemma TailIsGoods(shown: seq<nat>, h: seq<ObservabilityEntry>, lo: nat, t: nat, k: nat)
    requires Increasing(shown) && k <= |shown| && Below(shown[..k], lo) && AllFrom(shown[k..], lo)
    requires forall x: nat :: x in shown && x >= lo <==> x in Goods(h, lo, t)
    ensures shown[k..] == Goods(h, lo, t)
  {
    forall x: nat ensures x in shown[k..] <==> x in Goods(h, lo, t) {
      SuffixMembers(shown, k, lo, x);
    }
    GoodsIncreasing(h, lo, t);
    IncreasingUnique(shown[k..], Goods(h, lo, t));
  }

  lemma OlderBelow(older: seq<nat>, shown: seq<nat>, from: nat, lo: nat, k: nat)
    requires k <= |shown| && older == shown[..k] && Below(older, lo) && OldOrReplayed(shown, from, lo)
    ensures Below(older, from)
  {
    forall i | 0 <= i < |older| ensures older[i] < from {
      assert older[i] == shown[i];
    }
  }

  /** At the end of a late replay the page shows the snapshot's displayable entries behind older ones. */
  lemma LateShapeStarts(tr: Trace, h: seq<ObservabilityEntry>, from: nat, t: nat)
    requires Tracked(tr, h) && AllDisplayable(h, tr.shown) && tr.pos == t && tr.base == SnapshotStart(t)
    requires from + MAX_CARDS_ON_PAGE < t <= |h| && OldOrReplayed(tr.shown, from, SnapshotStart(t))
    ensures LateShape(tr.shown, h, from, t, from)
  {
    var lo := SnapshotStart(t);
    var k := CutAt(tr.shown, lo);
    TrackedTail(tr.shown, h, lo, t);
    TailIsGoods(tr.shown, h, lo, t, k);
    OlderBelow(tr.shown[..k], tr.shown, from, lo, k);
    LiveStarts(h, from, t);
    StartsFrom(k, tr.shown, h, from, t);
  }

  lemma LiveStarts(h: seq<ObservabilityEntry>, from: nat, t: nat)
    requires from <= t
    ensures Live(h, from, t, from) == []
  {
  }

  lemma StartsFrom(k: nat, shown: seq<nat>, h: seq<ObservabilityEntry>, from: nat, t: nat)
    requires k <= |shown| <= MAX_CARDS_ON_PAGE && Increasing(shown) && shown[k..] == Goods(h, SnapshotStart(t), t)
    requires Below(shown[..k], from) && from <= t && Live(h, from, t, from) == []
    ensures LateFrom(shown[..k], shown, h, from, t, from)
  {
    assert shown[..k] + shown[k..] + [] == shown;
  }

  // ---------------------------------------------------------------- one more live entry

  /** Among the last ones of a and b together are those of b, and those of a that b leaves room for. */
  lemma NotAmongLast(a: seq<nat>, b: seq<nat>, i: nat)
    requires i !in b && forall j :: 0 <= j < |a| && a[j] == i ==> |a| - j + |b| > MAX_CARDS_ON_PAGE
    ensures i !in LastN(a + b, MAX_CARDS_ON_PAGE)
  {
    var all := a + b;
    var r := LastN(all, MAX_CARDS_ON_PAGE);
    forall k | 0 <= k < |r| ensures r[k] != i {
      var j := |all| - |r| + k;
      assert r[k] == all[j];
      assert j >= |a| ==> all[j] == b[j - |a|];
    }
  }

  lemma AmongLast(a: seq<nat>, b: seq<nat>, j: nat)
    requires j < |a| && |a| - j + |b| <= MAX_CARDS_ON_PAGE
    ensures a[j] in LastN(a + b, MAX_CARDS_ON_PAGE)
  {
    LastNKeeps(a + b, MAX_CARDS_ON_PAGE, j);
  }

  /** Position i if it can be shown. */
  ghost function GoodAt(h: seq<ObservabilityEntry>, i: nat): seq<nat> {
    if Good(h, i) then [i] else []
  }

  lemma GoodsStep(h: seq<ObservabilityEntry>, a: nat, i: nat)
    ensures Goods(h, a, i + 1) == if a <= i then Goods(h, a, i) + GoodAt(h, i) else []
  {
  }

  lemma Regrouped(a: seq<nat>, b: seq<nat>, c: seq<nat>)
    ensures a + (b + c) == (a + b) + c && a + [] == a && [] + a == a
  {
  }

  lemma LiveStep(h: seq<ObservabilityEntry>, from: nat, t: nat, i: nat)
    requires from <= i && from + MAX_CARDS_ON_PAGE < t
    ensures Live(h, from, t, i + 1) == Live(h, from, t, i) +
            if |Goods(h, from, t)| > MAX_CARDS_ON_PAGE || i < SnapshotStart(t) || i >= t then GoodAt(h, i) else []
  {
    var lo := SnapshotStart(t);
    GoodsStep(h, from, i);
    if |Goods(h, from, t)| <= MAX_CARDS_ON_PAGE {
      if i < lo {
        Regrouped(Goods(h, from, i), [], GoodAt(h, i));
        Regrouped(Goods(h, from, i) + GoodAt(h, i), [], []);
      } else if i < t {
        Regrouped(Goods(h, from, lo), [], []);
      } else {
        GoodsStep(h, t, i);
        Regrouped(Goods(h, from, lo), Goods(h, t, i), GoodAt(h, i));
      }
    }
  }

  /** Whether the live entry at position i is still on the page. */
  lemma LateHitIff(
    older: seq<nat>, shown: seq<nat>, h: seq<ObservabilityEntry>, from: nat, t: nat, i: nat)
    requires LateFrom(older, shown, h, from, t, i) && from + MAX_CARDS_ON_PAGE < t && from <= i && Good(h, i)
    ensures i in shown <==> |Goods(h, from, t)| <= MAX_CARDS_ON_PAGE && SnapshotStart(t) <= i < t
  {
    var lo := SnapshotStart(t);
    var g, live := Goods(h, lo, t), Live(h, from, t, i);
    var a := older + g;
    LiveBelow(h, from, t, i);
    GoodsIncreasing(h, lo, t);
    GoodsSplit(h, from, lo, t);
    if lo <= i < t {
      GoodsMember(h, lo, t, i);
      var k :| 0 <= k < |g| && g[k] == i;
      GoodIndex(h, lo, t, k);
      GoodsSplit(h, from, lo, i);
      assert a[|older| + k] == i;
      if |Goods(h, from, t)| <= MAX_CARDS_ON_PAGE {
        assert |live| == |Goods(h, from, lo)|;
        AmongLast(a, live, |older| + k);
      } else {
        forall j | 0 <= j < |a| && a[j] == i ensures j == |older| + k {
          assert j >= |older| ==> a[j] == g[j - |older|];
        }
        NotAmongLast(a, live, i);
      }
    } else {
      forall j | 0 <= j < |a| ensures a[j] != i {
        assert j >= |older| ==> a[j] == g[j - |older|];
      }
      NotAmongLast(a, live, i);
    }
  }

  /** Live entries so far are those before the next one. */
  lemma LiveBelow(h: seq<ObservabilityEntry>, from: nat, t: nat, i: nat)
    requires from <= i
    ensures i !in Live(h, from, t, i)
  {
    GoodsMember(h, from, i, i);
    GoodsMember(h, from, Min(i, SnapshotStart(t)), i);
    GoodsMember(h, t, Max(t, i), i);
  }

  /** The k-th displayable position has k displayable ones before it. */
  lemma GoodIndex(h: seq<ObservabilityEntry>, a: nat, b: nat, k: nat)
    requires a <= b && k < |Goods(h, a, b)|
    ensures a <= Goods(h, a, b)[k] < b && |Goods(h, a, Goods(h, a, b)[k])| == k
  {
    var g := Goods(h, a, b);
    var x := g[k];
    GoodsMember(h, a, b, x);
    GoodsSplit(h, a, x, b);
    var front, back := Goods(h, a, x), Goods(h, x, b);
    GoodsIncreasing(h, a, x);
    GoodsIncreasing(h, x, b);
    GoodsIncreasing(h, a, b);
    GoodsMember(h, x, b, x);
    var j :| 0 <= j < |back| && back[j] == x;
    assert g[|front| + j] == x;
    assert j == 0;
  }

  /** One more live entry after a late replay. */
  lemma LateShapeStep(shown: seq<nat>, h: seq<ObservabilityEntry>, from: nat, t: nat, i: nat)
    requires LateShape(shown, h, from, t, i) && i < |h|
    ensures LateShape(if Good(h, i) then Shown(shown, i) else shown, h, from, t, i + 1)
    ensures Good(h, i) ==> (i in shown <==> |Goods(h, from, t)| <= MAX_CARDS_ON_PAGE && SnapshotStart(t) <= i < t)
  {
    var older :| LateFrom(older, shown, h, from, t, i);
    var a, live := older + Goods(h, SnapshotStart(t), t), Live(h, from, t, i);
    LiveStep(h, from, t, i);
    Regrouped(live, [], []);
    if Good(h, i) {
      LateHitIff(older, shown, h, from, t, i);
      if i !in shown {
        Regrouped(a, live, [i]);
        LastNSnoc(a + live, i, MAX_CARDS_ON_PAGE);
      }
    }
    assert LateFrom(older, if Good(h, i) then Shown(shown, i) else shown, h, from, t, i + 1);
  }

  // ---------------------------------------------------------------- before and after the disturbance

  lemma SuffixLast(a: seq<nat>, b: seq<nat>)
    requires |b| >= MAX_CARDS_ON_PAGE
    ensures LastN(a + b, MAX_CARDS_ON_PAGE) == LastN(b, MAX_CARDS_ON_PAGE)
  {
  }

  /** What the page shows are the last of all displayable positions from the snapshot's start on, behind older ones. */
  ghost predicate Settled(x: seq<nat>, shown: seq<nat>, h: seq<ObservabilityEntry>, lo: nat, pos: nat) {
    Increasing(x) && Below(x, lo) && shown == LastN(x + Goods(h, lo, pos), MAX_CARDS_ON_PAGE)
  }

  /** Nothing has been put on again that the snapshot had left behind: the order is undisturbed. */
  lemma UndisturbedSettled(
    older: seq<nat>, shown: seq<nat>, h: seq<ObservabilityEntry>, from: nat, t: nat, next: nat)
    requires LateFrom(older, shown, h, from, t, next) && from + MAX_CARDS_ON_PAGE < t && from <= next
    requires !SomeGood(h, from, Min(next, SnapshotStart(t)))
    ensures Settled(older, shown, h, SnapshotStart(t), Max(t, next))
  {
    var lo := SnapshotStart(t);
    var g := Goods(h, lo, t);
    GoodsEmptyIff(h, from, Min(next, lo));
    GoodsLength(h, lo, t);
    GoodsSplit(h, from, lo, t);
    if |Goods(h, from, t)| > MAX_CARDS_ON_PAGE {
      assert next < lo;
      assert Live(h, from, t, next) == [];
      Regrouped(older + g, [], []);
    } else {
      var added := Goods(h, t, Max(t, next));
      GoodsSplit(h, lo, t, Max(t, next));
      Regrouped(added, [], []);
      Regrouped(older, g, added);
    }
  }

  lemma {:induction false} GoodsLength(h: seq<ObservabilityEntry>, a: nat, b: nat)
    requires a <= b
    ensures |Goods(h, a, b)| <= b - a
    decreases b
  {
    if a < b {
      GoodsLength(h, a, b - 1);
    }
  }

  /** None of the snapshot is on the page: what was left behind stands in order behind older entries. */
  lemma EmptyReplaySettled(
    older: seq<nat>, shown: seq<nat>, h: seq<ObservabilityEntry>, from: nat, t: nat, next: nat)
    requires LateFrom(older, shown, h, from, t, next) && from + MAX_CARDS_ON_PAGE < t && from <= next
    requires !SomeGood(h, SnapshotStart(t), t)
    ensures Settled(older + Goods(h, from, Min(next, SnapshotStart(t))), shown, h, SnapshotStart(t), Max(t, next))
  {
    var lo, pos := SnapshotStart(t), Max(t, next);
    var left, added := Goods(h, from, Min(next, lo)), Goods(h, t, pos);
    GoodsEmptyIff(h, lo, t);
    GoodsSplit(h, lo, t, pos);
    GoodsIncreasing(h, from, Min(next, lo));
    IncreasingConcat(older, left, from);
    Regrouped(added, [], []);
    LiveWithoutReplay(h, from, t, next);
    Regrouped(older, left, added);
  }

  lemma LiveWithoutReplay(h: seq<ObservabilityEntry>, from: nat, t: nat, next: nat)
    requires from + MAX_CARDS_ON_PAGE < t && from <= next && Goods(h, SnapshotStart(t), t) == []
    ensures Live(h, from, t, next) == Goods(h, from, Min(next, SnapshotStart(t))) + Goods(h, t, Max(t, next))
  {
    var lo := SnapshotStart(t);
    if next <= lo {
      assert Goods(h, t, Max(t, next)) == [] && Goods(h, from, next) + [] == Goods(h, from, next);
    } else {
      GoodsSplit(h, from, lo, next);
      if next <= t {
        GoodsSplit(h, lo, next, t);
        assert Goods(h, from, lo) + [] == Goods(h, from, lo);
      } else {
        GoodsSplit(h, lo, t, next);
        assert [] + Goods(h, t, next) == Goods(h, t, next);
      }
    }
  }

  /** The live entries have come past the snapshot, or have filled the page: the disturbance is over. */
  lemma CaughtUpSettled(
    older: seq<nat>, shown: seq<nat>, h: seq<ObservabilityEntry>, from: nat, t: nat, next: nat)
    returns (x: seq<nat>)
    requires LateFrom(older, shown, h, from, t, next) && from + MAX_CARDS_ON_PAGE < t && from <= next
    requires if |Goods(h, from, t)| > MAX_CARDS_ON_PAGE then next >= t
             else |Goods(h, t, Max(t, next))| >= MAX_CARDS_ON_PAGE
    ensures Settled(x, shown, h, SnapshotStart(t), Max(t, next))
  {
    var lo, pos := SnapshotStart(t), Max(t, next);
    var a := older + Goods(h, lo, t);
    if |Goods(h, from, t)| > MAX_CARDS_ON_PAGE {
      x := Goods(h, from, lo);
      GoodsIncreasing(h, from, lo);
      GoodsSplit(h, from, lo, next);
      GoodsSplit(h, from, t, next);
      SuffixLast(a, Goods(h, from, next));
      SuffixLast([], Goods(h, from, next));
      assert [] + Goods(h, from, next) == Goods(h, from, next);
    } else {
      x := [];
      var added := Goods(h, t, pos);
      GoodsSplit(h, lo, t, pos);
      Regrouped(a, Goods(h, from, Min(next, lo)), added);
      SuffixLast(a + Goods(h, from, Min(next, lo)), added);
      SuffixLast(Goods(h, lo, t), added);
      assert [] + Goods(h, lo, pos) == Goods(h, lo, pos);
    }
  }

  /** Unless it is displaced, a late page is as settled as any other. */
  lemma Settles(shown: seq<nat>, h: seq<ObservabilityEntry>, from: nat, t: nat, next: nat) returns (x: seq<nat>)
    requires LateShape(shown, h, from, t, next) && !Displaced(h, from, t, next)
    ensures Settled(x, shown, h, SnapshotStart(t), Max(t, next))
  {
    var older :| LateFrom(older, shown, h, from, t, next);
    if !SomeGood(h, from, Min(next, SnapshotStart(t))) {
      UndisturbedSettled(older, shown, h, from, t, next);
      x := older;
    } else if !SomeGood(h, SnapshotStart(t), t) {
      EmptyReplaySettled(older, shown, h, from, t, next);
      x := older + Goods(h, from, Min(next, SnapshotStart(t)));
    } else {
      x := CaughtUpSettled(older, shown, h, from, t, next);
    }
  }

  lemma SettledTracked(x: seq<nat>, tr: Trace, h: seq<ObservabilityEntry>)
    requires Settled(x, tr.shown, h, tr.base, tr.pos) && tr.base <= tr.pos <= |h|
    ensures Tracked(tr, h)
  {
    var g := Goods(h, tr.base, tr.pos);
    var all := x + g;
    GoodsIncreasing(h, tr.base, tr.pos);
    IncreasingConcat(x, g, tr.base);
    IncreasingLastN(all, MAX_CARDS_ON_PAGE, tr.pos);
    forall i: nat | tr.base <= i < tr.pos && i + MAX_CARDS_ON_PAGE >= tr.pos && Good(h, i) ensures i in tr.shown {
      GoodsMember(h, tr.base, tr.pos, i);
      var k :| 0 <= k < |g| && g[k] == i;
      assert all[|x| + k] == i;
      IncreasingGap(all, |x| + k, tr.pos);
      LastNKeeps(all, MAX_CARDS_ON_PAGE, |x| + k);
    }
  }

  /** A late page that is not displaced is tracked like any other. */
  lemma LateTracked(tr: Trace, h: seq<ObservabilityEntry>, from: nat, t: nat, next: nat)
    requires LateShape(tr.shown, h, from, t, next) && !Displaced(h, from, t, next)
    requires tr.base == SnapshotStart(t) && tr.pos == Max(t, next)
    ensures Tracked(tr, h)
  {
    var x := Settles(tr.shown, h, from, t, next);
    SettledTracked(x, tr, h);
  }

  /** A displaced page shows an old entry where a newer one belongs. */
  lemma DisplacedShowsOld(shown: seq<nat>, h: seq<ObservabilityEntry>, from: nat, t: nat, next: nat)
    requires LateShape(shown, h, from, t, next) && Displaced(h, from, t, next)
    ensures shown != Range(SnapshotStart(Max(t, next)), Max(t, next))
  {
    var older :| LateFrom(older, shown, h, from, t, next);
    var lo, pos := SnapshotStart(t), Max(t, next);
    var a := older + Goods(h, lo, t);
    if |Goods(h, from, t)| > MAX_CARDS_ON_PAGE {
      var x: nat :| from <= x < Min(next, lo) && Good(h, x);
      GoodsMember(h, from, next, x);
      GoodsIncreasing(h, from, next);
      Regrouped(Goods(h, from, next), [], []);
      OldAtEnd(a, Goods(h, from, next), [], shown, next, pos);
    } else {
      var left, added := Goods(h, from, Min(next, lo)), Goods(h, t, pos);
      GoodsEmptyIff(h, from, Min(next, lo));
      GoodsIncreasing(h, from, Min(next, lo));
      GoodsLength(h, t, pos);
      OldAtEnd(a, left, added, shown, lo, pos);
    }
  }

  /** If fewer new entries follow than the page holds, the last of the old ones stands where it does not belong. */
  lemma OldAtEnd(a: seq<nat>, left: seq<nat>, added: seq<nat>, shown: seq<nat>, bound: nat, pos: nat)
    requires left != [] && Below(left, bound) && |added| < MAX_CARDS_ON_PAGE
    requires bound + |added| + 1 <= pos
    requires shown == LastN(a + (left + added), MAX_CARDS_ON_PAGE)
    ensures shown != Range(SnapshotStart(pos), pos)
  {
    var all := a + (left + added);
    var k := |all| - |added| - 1;
    assert all[k] == left[|left| - 1];
    var j := |shown| - |added| - 1;
    assert shown[j] == all[k];
    var newest := Range(SnapshotStart(pos), pos);
    assert |shown| == |newest| ==> newest[j] == pos - |added| - 1;
  }

  /** What is on the page while or after a late subscription catches up. */
  lemma LateShowsNewestIff(p: Page, tr: Trace, h: seq<ObservabilityEntry>, from: nat, t: nat, next: nat)
    requires DistinctIds(h) && Displays(p, h, tr.shown) && LateShape(tr.shown, h, from, t, next)
    requires tr.base == SnapshotStart(t) && tr.pos == Max(t, next)
    ensures p.cards == Mirror(h, tr.pos)
            <==> AllGood(h, SnapshotStart(tr.pos), tr.pos) && !Displaced(h, from, t, next)
  {
    MirrorIffNewest(p, h, tr.shown, tr.pos);
    if Displaced(h, from, t, next) {
      DisplacedShowsOld(tr.shown, h, from, t, next);
    } else {
      LateTracked(tr, h, from, t, next);
      TrackedMirrorsIff(p, tr, h);
    }
  }

  // ---------------------------------------------------------------- the history grows

  lemma {:induction false} MoreHistoryGoods(h: seq<ObservabilityEntry>, entry: ObservabilityEntry, a: nat, b: nat)
    requires b <= |h|
    ensures Goods(h + [entry], a, b) == Goods(h, a, b)
    ensures SomeGood(h + [entry], a, b) <==> SomeGood(h, a, b)
    decreases b
  {
    MoreHistoryGood(h, entry);
    if a < b {
      MoreHistoryGoods(h, entry, a, b - 1);
    }
    if x: nat :| a <= x < b && Good(h, x) {
      assert Good(h + [entry], x);
    }
    if x: nat :| a <= x < b && Good(h + [entry], x) {
      assert Good(h, x);
    }
  }

  lemma MoreHistoryOvertaken(
    h: seq<ObservabilityEntry>, entry: ObservabilityEntry, from: nat, t: nat, next: nat)
    requires t <= |h| && next <= |h|
    ensures Overtaken(h + [entry], from, t, next) <==> Overtaken(h, from, t, next)
    ensures Displaced(h + [entry], from, t, next) <==> Displaced(h, from, t, next)
  {
    MoreHistoryGoods(h, entry, from, Min(next, SnapshotStart(t)));
    MoreHistoryGoods(h, entry, SnapshotStart(t), t);
    MoreHistoryGoods(h, entry, from, t);
    MoreHistoryGoods(h, entry, t, Max(t, next));
  }

  lemma MoreHistoryLate(
    shown: seq<nat>, h: seq<ObservabilityEntry>, entry: ObservabilityEntry, from: nat, t: nat, next: nat)
    requires LateShape(shown, h, from, t, next)
    ensures LateShape(shown, h + [entry], from, t, next)
  {
    var older :| LateFrom(older, shown, h, from, t, next);
    MoreHistoryGoods(h, entry, from, t);
    MoreHistoryGoods(h, entry, from, next);
    MoreHistoryGoods(h, entry, SnapshotStart(t), t);
    MoreHistoryGoods(h, entry, from, Min(next, SnapshotStart(t)));
    MoreHistoryGoods(h, entry, t, Max(t, next));
    assert LateFrom(older, shown, h + [entry], from, t, next);
  }
}
