/** The registry of rule classes by dialect, with its cache of instances. */
module RuleRegistry {
  /** One rule object; `id` is its identity. */
  datatype Instance<C> = Instance(cls: C, id: nat)

  const SHARED_DIALECT_KEY := "_shared_"

  /** The two module-level dictionaries, and the number of rule objects made so far. */
  datatype RegistryState<C> = RegistryState(
    classesByDialect: map<string, seq<C>>,
    instanceCache: map<string, seq<Instance<C>>>,
    made: nat)

  function ClassesUnder<C>(classes: map<string, seq<C>>, key: string): seq<C> {
    if key in classes then classes[key] else []
  }

  /** `setdefault(key, []).append(cls)` */
  function Appended<C>(classes: map<string, seq<C>>, key: string, cls: C): map<string, seq<C>> {
    classes[key := ClassesUnder(classes, key) + [cls]]
  }

  function AppendedTo<C>(classes: map<string, seq<C>>, dialects: seq<string>, n: nat, cls: C): map<string, seq<C>>
    requires n <= |dialects|
  {
    if n == 0 then classes else Appended(AppendedTo(classes, dialects, n - 1, cls), dialects[n - 1], cls)
  }

  function Registered<C>(s: RegistryState<C>, cls: C, dialects: seq<string>): RegistryState<C> {
    var keys := if dialects == [] then [SHARED_DIALECT_KEY] else dialects;
    RegistryState(AppendedTo(s.classesByDialect, keys, |keys|, cls), map[], s.made)
  }

  function ApplicableClasses<C>(s: RegistryState<C>, dialect: string): seq<C> {
    ClassesUnder(s.classesByDialect, SHARED_DIALECT_KEY) + ClassesUnder(s.classesByDialect, dialect)
  }

  function Instantiated<C>(classes: seq<C>, from: nat): (r: seq<Instance<C>>)
    ensures |r| == |classes|
  {
    seq(|classes|, i requires 0 <= i < |classes| => Instance(classes[i], from + i))
  }

  /** The state after `rules_for(dialect)`; the result is then in the cache. */
  function LookedUp<C>(s: RegistryState<C>, dialect: string): (r: RegistryState<C>)
    ensures dialect in r.instanceCache
  {
    if dialect in s.instanceCache then s
    else
      var classes := ApplicableClasses(s, dialect);
      RegistryState(s.classesByDialect, s.instanceCache[dialect := Instantiated(classes, s.made)], s.made + |classes|)
  }

  class RuleRegistry<C(==)> {
    var classesByDialect: map<string, seq<C>>
    var instanceCache: map<string, seq<Instance<C>>>
    var made: nat

    function State(): RegistryState<C>
      reads this
    {
      RegistryState(classesByDialect, instanceCache, made)
    }

    constructor ()
      ensures State() == RegistryState(map[], map[], 0)
    {
      classesByDialect, instanceCache, made := map[], map[], 0;
    }

    /** `@sql_rule(dialects=...)`; no dialects means all of them. */
    method SqlRule(cls: C, dialects: seq<string>)
      modifies this
      ensures State() == Registered(old(State()), cls, dialects)
    {
      if dialects == [] {
        classesByDialect := Appended(classesByDialect, SHARED_DIALECT_KEY, cls);
        assert classesByDialect == AppendedTo(old(classesByDialect), [SHARED_DIALECT_KEY], 1, cls) by {
          assert AppendedTo(old(classesByDialect), [SHARED_DIALECT_KEY], 0, cls) == old(classesByDialect);
        }
      } else {
        for i := 0 to |dialects|
          invariant classesByDialect == AppendedTo(old(classesByDialect), dialects, i, cls)
          invariant made == old(made)
        {
          classesByDialect := Appended(classesByDialect, dialects[i], cls);
        }
      }
      instanceCache := map[];
    }

    method RulesFor(dialect: string) returns (rules: seq<Instance<C>>)
      modifies this
      ensures State() == LookedUp(old(State()), dialect)
      ensures rules == State().instanceCache[dialect]
    {
      if dialect !in instanceCache {
        var shared := ClassesUnder(classesByDialect, SHARED_DIALECT_KEY);
        var specific := ClassesUnder(classesByDialect, dialect);
        var freshRules := Instantiated(shared + specific, made);
        made := made + |freshRules|;
        instanceCache := instanceCache[dialect := freshRules];
      }
      rules := instanceCache[dialect];
    }
  }

  // ---------------------------------------------------------------- what the registrations say

  datatype Operation<C> = Register(cls: C, dialects: seq<string>) | Lookup(dialect: string)

  function Applied<C>(s: RegistryState<C>, op: Operation<C>): RegistryState<C> {
    match op
    case Register(cls, dialects) => Registered(s, cls, dialects)
    case Lookup(dialect) => LookedUp(s, dialect)
  }

  /** The state after a sequence of operations on an empty registry. */
  function After<C>(ops: seq<Operation<C>>): RegistryState<C> {
    if ops == [] then RegistryState(map[], map[], 0) else Applied(After(ops[..|ops| - 1]), ops[|ops| - 1])
  }

  /** How often a class is listed under a key by a decorator naming these dialects. */
  function Listings<C>(dialects: seq<string>, n: nat, key: string, cls: C): seq<C>
    requires n <= |dialects|
  {
    if n == 0 then [] else Listings(dialects, n - 1, key, cls) + if dialects[n - 1] == key then [cls] else []
  }

  function ListedBy<C>(op: Operation<C>, key: string): seq<C> {
    match op
    case Register(cls, dialects) =>
      if dialects == [] then (if key == SHARED_DIALECT_KEY then [cls] else [])
      else Listings(dialects, |dialects|, key, cls)
    case Lookup(_) => []
  }

  /** The classes registered under a key, in registration order, read off the history alone. */
  function RegisteredUnder<C>(ops: seq<Operation<C>>, key: string): seq<C> {
    if ops == [] then [] else RegisteredUnder(ops[..|ops| - 1], key) + ListedBy(ops[|ops| - 1], key)
  }

  function ClassesOf<C>(rules: seq<Instance<C>>): (r: seq<C>)
    ensures |r| == |rules|
  {
    seq(|rules|, i requires 0 <= i < |rules| => rules[i].cls)
  }

  lemma {:induction false} AppendedListings<C>(
    classes: map<string, seq<C>>, dialects: seq<string>, n: nat, cls: C, key: string)
    requires n <= |dialects|
    ensures ClassesUnder(AppendedTo(classes, dialects, n, cls), key)
         == ClassesUnder(classes, key) + Listings(dialects, n, key, cls)
  {
    if n > 0 {
      AppendedListings(classes, dialects, n - 1, cls, key);
    }
  }

  /** The dictionary of classes is what the history says, whatever lookups were interleaved. */
  lemma {:induction false} ClassesFollowHistory<C>(ops: seq<Operation<C>>, key: string)
    ensures ClassesUnder(After(ops).classesByDialect, key) == RegisteredUnder(ops, key)
  {
    if ops != [] {
      var before, op := ops[..|ops| - 1], ops[|ops| - 1];
      ClassesFollowHistory(before, key);
      if op.Register? {
        var keys := if op.dialects == [] then [SHARED_DIALECT_KEY] else op.dialects;
        AppendedListings(After(before).classesByDialect, keys, |keys|, op.cls, key);
        if op.dialects == [] {
          assert Listings([SHARED_DIALECT_KEY], 0, key, op.cls) == [];
        }
      }
    }
  }

  /** Every cached tuple matches the registered classes and holds one object per listing. */
  ghost predicate CacheCoherent<C>(s: RegistryState<C>) {
    forall d :: d in s.instanceCache ==>
      && ClassesOf(s.instanceCache[d]) == ApplicableClasses(s, d)
      && (forall i :: 0 <= i < |s.instanceCache[d]| ==> s.instanceCache[d][i].id < s.made)
      && (forall i, j :: 0 <= i < j < |s.instanceCache[d]| ==> s.instanceCache[d][i].id != s.instanceCache[d][j].id)
  }

  lemma {:induction false} RunKeepsCacheCoherent<C(!new)>(ops: seq<Operation<C>>)
    ensures CacheCoherent(After(ops))
  {
    if ops != [] {
      RunKeepsCacheCoherent(ops[..|ops| - 1]);
      var s := After(ops[..|ops| - 1]);
      match ops[|ops| - 1]
      case Register(_, _) =>
      case Lookup(d) =>
        if d !in s.instanceCache {
          var classes := ApplicableClasses(s, d);
          assert ClassesOf(Instantiated(classes, s.made)) == classes;
        }
    }
  }

  /**
   After any history of registrations and lookups, a lookup yields one object per registration,
   shared classes first and then the dialect's own, each group in registration order.
   */
  lemma LookupFollowsHistory<C(!new)>(ops: seq<Operation<C>>, dialect: string)
    ensures var rules := LookedUp(After(ops), dialect).instanceCache[dialect];
            && ClassesOf(rules) == RegisteredUnder(ops, SHARED_DIALECT_KEY) + RegisteredUnder(ops, dialect)
            && forall i, j :: 0 <= i < j < |rules| ==> rules[i].id != rules[j].id
  {
    var more := ops + [Lookup(dialect)];
    assert more[..|more| - 1] == ops;
    RunKeepsCacheCoherent(more);
    ClassesFollowHistory(ops, SHARED_DIALECT_KEY);
    ClassesFollowHistory(ops, dialect);
  }

  ghost predicate OnlyLookups<C>(ops: seq<Operation<C>>) {
    forall i :: 0 <= i < |ops| ==> ops[i].Lookup?
  }

  lemma {:induction false} LookupsKeepCached<C>(ops: seq<Operation<C>>, lookups: seq<Operation<C>>, d: string)
    requires OnlyLookups(lookups) && d in After(ops).instanceCache
    ensures d in After(ops + lookups).instanceCache
    ensures After(ops + lookups).instanceCache[d] == After(ops).instanceCache[d]
  {
    if lookups == [] {
      assert ops + lookups == ops;
    } else {
      var all := ops + lookups;
      assert all[..|all| - 1] == ops + lookups[..|lookups| - 1];
      LookupsKeepCached(ops, lookups[..|lookups| - 1], d);
    }
  }

  /** Two lookups with no registration between them return the very same objects. */
  lemma LookupsAreStable<C>(ops: seq<Operation<C>>, between: seq<Operation<C>>, d: string)
    requires OnlyLookups(between)
    ensures LookedUp(After(ops + [Lookup(d)] + between), d).instanceCache[d] == LookedUp(After(ops), d).instanceCache[d]
  {
    var first := ops + [Lookup(d)];
    assert first[..|first| - 1] == ops;
    LookupsKeepCached(first, between, d);
  }

  /** The shared key is an ordinary key: asking for it as a dialect lists the shared rules twice. */
  lemma SharedKeyAsDialect<C(!new)>(ops: seq<Operation<C>>)
    ensures var rules := LookedUp(After(ops), "_shared_").instanceCache["_shared_"];
            var shared := RegisteredUnder(ops, "_shared_");
            ClassesOf(rules) == shared + shared
  {
    LookupFollowsHistory(ops, SHARED_DIALECT_KEY);
  }
}
