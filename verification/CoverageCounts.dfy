/** Rule implementations as they register themselves, and the coverage report's counts over them, in ids and in
    distinct rules, with the checks it makes of itself. */
module CoverageCounts {
  import opened Wrappers

  type RuleId = string

  /** The pinned registry: every rule id, with the id it is an alias of if it is one. */
  type Registry = map<RuleId, Option<RuleId>>

  // ---------------------------------------------------------------- registration

  /** A rule class: its qualified name, the id it claims, whether it may share it, and whether it says it lacks
      a producer. */
  datatype RuleClass = RuleClass(name: string, ruleId: RuleId, shares: bool, cannotFire: bool)

  type Implementations = map<RuleId, RuleClass>

  predicate IsCanonical(registry: Registry, id: RuleId) {
    id in registry && registry[id] == None
  }

  predicate IsAlias(registry: Registry, alias: RuleId, id: RuleId) {
    alias in registry && registry[alias] == Some(id)
  }

  /** The ids a class registers under: its own and every alias of it. */
  function Claimed(registry: Registry, id: RuleId): set<RuleId> {
    {id} + set alias | alias in registry && IsAlias(registry, alias, id)
  }

  /** Another class holds the id and one of the two does not share. */
  predicate Taken(impls: Implementations, id: RuleId, cls: RuleClass) {
    id in impls && impls[id].name != cls.name && !(cls.shares && impls[id].shares)
  }

  /** The class may register: it names an id that is in the registry, is nobody's alias, and is free. */
  predicate Accepts(registry: Registry, impls: Implementations, cls: RuleClass) {
    cls.ruleId != "" && IsCanonical(registry, cls.ruleId) && !Taken(impls, cls.ruleId, cls)
  }

  /** The implementations with every one of `ids` held by `cls`. */
  function Holding(impls: Implementations, ids: set<RuleId>, cls: RuleClass): Implementations {
    impls + map id | id in ids :: cls
  }

  function Registered(registry: Registry, impls: Implementations, cls: RuleClass): Implementations {
    if Accepts(registry, impls, cls) then Holding(impls, Claimed(registry, cls.ruleId), cls) else impls
  }

  function RegisteredAll(registry: Registry, impls: Implementations, classes: seq<RuleClass>): Implementations
    decreases |classes|
  {
    if classes == [] then impls else RegisteredAll(registry, Registered(registry, impls, classes[0]), classes[1..])
  }

  /** Only registered ids are implemented; an implemented alias is implemented by its rule's class, which is no
      alias itself; and with a rule all its aliases are implemented, by the same class. */
  ghost predicate Faithful(registry: Registry, impls: Implementations) {
    && (forall id :: id in impls ==> id in registry)
    && (forall alias, id :: alias in impls && IsAlias(registry, alias, id) ==>
         IsCanonical(registry, id) && id in impls && impls[id] == impls[alias])
    && (forall alias, id :: id in impls && IsCanonical(registry, id) && IsAlias(registry, alias, id) ==>
         alias in impls && impls[alias] == impls[id])
  }

  function SetOf(ids: seq<RuleId>): set<RuleId> {
    set id | id in ids
  }

  class RuleBase {
    const registry: Registry
    var implementations: Implementations

    constructor (registry: Registry)
      ensures this.registry == registry && implementations == map[] && Faithful(registry, implementations)
    {
      this.registry := registry;
      implementations := map[];
    }

    /** `__init_subclass__`: raises for an id that is empty, unknown, an alias or taken, and otherwise registers the
        class under its id and then its aliases, `aliases` in the index's order. A refusal halfway would leave
        some of the ids behind; there is none, because an alias is never taken unless its rule is. */
    method Define(cls: RuleClass, aliases: seq<RuleId>) returns (ok: bool)
      requires Faithful(registry, implementations)
      requires SetOf([cls.ruleId] + aliases) == Claimed(registry, cls.ruleId)
      modifies this`implementations
      ensures ok <==> Accepts(registry, old(implementations), cls)
      ensures implementations == Registered(registry, old(implementations), cls)
      ensures Faithful(registry, implementations)
    {
      hide Faithful, Holding, Claimed, SetOf;
      RegisteredFaithful(registry, implementations, cls);
      if cls.ruleId == "" || cls.ruleId !in registry || registry[cls.ruleId].Some? {
        return false;
      }
      ghost var before := implementations;
      var claimed := [cls.ruleId] + aliases;
      HoldingNothing(before, claimed, cls);
      for i := 0 to |claimed|
        invariant implementations == Holding(before, SetOf(claimed[..i]), cls)
        invariant i == 0 ==> implementations == before
        invariant i > 0 ==> !Taken(before, cls.ruleId, cls)
      {
        var id := claimed[i];
        TakenWhileHolding(registry, before, cls, claimed, i);
        if id in implementations && implementations[id].name != cls.name &&
            !(cls.shares && implementations[id].shares) {
          return false;
        }
        implementations := implementations[id := cls];
      }
      assert claimed[..|claimed|] == claimed;
      ok := true;
    }
  }

  lemma HoldingNothing(impls: Implementations, claimed: seq<RuleId>, cls: RuleClass)
    ensures Holding(impls, SetOf(claimed[..0]), cls) == impls
  {
    assert SetOf(claimed[..0]) == {};
  }

  /** Halfway through the claimed ids the next one is taken exactly if the rule was to begin with, and taking it
      adds it to those held. */
  lemma TakenWhileHolding(registry: Registry, before: Implementations, cls: RuleClass, claimed: seq<RuleId>, i: nat)
    requires Faithful(registry, before) && IsCanonical(registry, cls.ruleId) && i < |claimed| &&
             SetOf(claimed) == Claimed(registry, cls.ruleId)
    requires i > 0 ==> !Taken(before, cls.ruleId, cls)
    ensures Taken(Holding(before, SetOf(claimed[..i]), cls), claimed[i], cls) <==> Taken(before, cls.ruleId, cls)
    ensures Holding(before, SetOf(claimed[..i]), cls)[claimed[i] := cls] ==
              Holding(before, SetOf(claimed[..i + 1]), cls)
  {
    assert claimed[i] in SetOf(claimed);
    AliasTakenWithRule(registry, before, cls, claimed[i]);
    hide Faithful, Claimed;
    assert claimed[..i + 1] == claimed[..i] + [claimed[i]];
    HoldingOneMore(before, SetOf(claimed[..i]), claimed[i], cls);
    assert SetOf(claimed[..i + 1]) == SetOf(claimed[..i]) + {claimed[i]};
    if i == 0 { HoldingNothing(before, claimed, cls); }
  }

  lemma HoldingOneMore(impls: Implementations, ids: set<RuleId>, id: RuleId, cls: RuleClass)
    ensures Holding(impls, ids, cls)[id := cls] == Holding(impls, ids + {id}, cls)
    ensures id !in ids ==> (Taken(Holding(impls, ids, cls), id, cls) <==> Taken(impls, id, cls))
    ensures id in ids ==> !Taken(Holding(impls, ids, cls), id, cls)
  {
  }

  lemma AliasTakenWithRule(registry: Registry, impls: Implementations, cls: RuleClass, id: RuleId)
    requires Faithful(registry, impls) && IsCanonical(registry, cls.ruleId) && id in Claimed(registry, cls.ruleId)
    ensures Taken(impls, id, cls) <==> Taken(impls, cls.ruleId, cls)
  {
    if id != cls.ruleId { assert IsAlias(registry, id, cls.ruleId); }
  }

  lemma RegisteredFaithful(registry: Registry, impls: Implementations, cls: RuleClass)
    requires Faithful(registry, impls)
    ensures Faithful(registry, Registered(registry, impls, cls))
  {
  }

  /** Who holds what once a class is defined. A class that names no id, an unknown one or an alias holds nothing new,
      and neither does one whose id is held under another name unless both share. Any other takes its id and every
      alias of it over, and nothing else changes hands. */
  lemma TakesExactly(registry: Registry, impls: Implementations, cls: RuleClass)
    requires Faithful(registry, impls)
    ensures var held := Registered(registry, impls, cls);
            var id := cls.ruleId;
            if id == "" || id !in registry || registry[id] != None ||
               (id in impls && impls[id].name != cls.name && (!cls.shares || !impls[id].shares))
            then held == impls
            else forall other ::
              if other == id || (other in registry && registry[other] == Some(id))
              then other in held && held[other] == cls
              else (other in held <==> other in impls) && (other in held ==> held[other] == impls[other])
  {
    var id := cls.ruleId;
    forall other ensures other in Claimed(registry, id) <==>
                           other == id || (other in registry && registry[other] == Some(id)) {
    }
  }

  /** An id held by a class that does not share stays under that name, whatever is defined after it. */
  lemma {:induction false} NeverTakenAway(registry: Registry, impls: Implementations, classes: seq<RuleClass>,
          id: RuleId)
    requires Faithful(registry, impls) && id in impls && !impls[id].shares
    requires forall k :: 0 <= k < |classes| && classes[k].name == impls[id].name ==> !classes[k].shares
    ensures var held := RegisteredAll(registry, impls, classes);
            id in held && held[id].name == impls[id].name && !held[id].shares
    decreases |classes|
  {
    if classes != [] {
      var cls := classes[0];
      TakesExactly(registry, impls, cls);
      RegisteredFaithful(registry, impls, cls);
      if id in registry && registry[id] == Some(cls.ruleId) {
        assert IsAlias(registry, id, cls.ruleId);
        assert impls[cls.ruleId] == impls[id];
      }
      NeverTakenAway(registry, Registered(registry, impls, cls), classes[1..], id);
    }
  }

  /** Whatever classes are defined, in whatever order, refused or not: what is implemented is registered, and
      closed under aliasing. */
  lemma {:induction false} AlwaysFaithful(registry: Registry, impls: Implementations, classes: seq<RuleClass>)
    requires Faithful(registry, impls)
    ensures Faithful(registry, RegisteredAll(registry, impls, classes))
    decreases |classes|
  {
    if classes != [] {
      RegisteredFaithful(registry, impls, classes[0]);
      AlwaysFaithful(registry, Registered(registry, impls, classes[0]), classes[1..]);
    }
  }

  // ---------------------------------------------------------------- counting

  function Canonical(id: RuleId, registry: Registry): RuleId {
    if id in registry && registry[id].Some? then registry[id].value else id
  }

  /** The distinct rules behind a set of registry ids. */
  function Collapse(ids: set<RuleId>, registry: Registry): set<RuleId> {
    set i | i in ids :: Canonical(i, registry)
  }

  datatype Report = Report(registry: Registry, impls: Implementations, hard: set<RuleId>)
  {
    function D(ids: set<RuleId>): set<RuleId> {
      Collapse(ids, registry)
    }

    function Implemented(): set<RuleId> {
      impls.Keys
    }

    /** The implemented ids whose class says it cannot fire. */
    function Blocked(): set<RuleId> {
      set id | id in impls && impls[id].cannotFire
    }

    /** The thirteen checks: a distinct count is no larger than its count of ids, for three counts; and five
        checks in each of the two spaces. */
    predicate Consistent() {
      && |D(registry.Keys)| <= |registry.Keys|
      && |D(Implemented())| <= |Implemented()|
      && |D(hard)| <= |hard|
      && SpaceConsistent(registry.Keys, Implemented(), hard, Blocked())
      && SpaceConsistent(D(registry.Keys), D(Implemented()), D(hard), D(Blocked()))
    }
  }

  /** No more implemented than there are, no more implemented hard rules than implemented ones, no more blocked
      than implemented, and effective coverage neither above implemented hard coverage nor below zero. */
  predicate SpaceConsistent(all: set<RuleId>, implemented: set<RuleId>, hard: set<RuleId>, blocked: set<RuleId>) {
    && |implemented| <= |all|
    && |implemented * hard| <= |implemented|
    && |blocked| <= |implemented|
    && |implemented * hard| - |blocked * implemented * hard| <= |implemented * hard|
    && |implemented * hard| - |blocked * implemented * hard| >= 0
  }

  lemma SubsetSize<T>(a: set<T>, b: set<T>)
    requires a <= b
    ensures |a| <= |b|
  {
    assert b == a + (b - a);
  }

  lemma {:induction false} CollapseSize(ids: set<RuleId>, registry: Registry)
    ensures |Collapse(ids, registry)| <= |ids|
    decreases ids
  {
    if ids != {} {
      var x :| x in ids;
      var rest := ids - {x};
      CollapseSize(rest, registry);
      assert Collapse(ids, registry) == Collapse(rest, registry) + {Canonical(x, registry)};
    }
  }

  /** The checks hold by construction: after any class definitions, all thirteen pass. */
  lemma {:induction false} AlwaysConsistent(registry: Registry, classes: seq<RuleClass>, hard: set<RuleId>)
    ensures var r := Report(registry, RegisteredAll(registry, map[], classes), hard);
            r.Consistent()
  {
    var r := Report(registry, RegisteredAll(registry, map[], classes), hard);
    AlwaysFaithful(registry, map[], classes);
    ImplementedIsConsistent(r);
  }

  lemma ImplementedIsConsistent(r: Report)
    requires r.Implemented() <= r.registry.Keys
    ensures r.Consistent()
  {
    hide Collapse, SpaceConsistent;
    CollapseSize(r.registry.Keys, r.registry);
    CollapseSize(r.Implemented(), r.registry);
    CollapseSize(r.hard, r.registry);
    CollapseMono(r.Implemented(), r.registry.Keys, r.registry);
    CollapseMono(r.Blocked(), r.Implemented(), r.registry);
    InSpace(r.registry.Keys, r.Implemented(), r.hard, r.Blocked());
    InSpace(r.D(r.registry.Keys), r.D(r.Implemented()), r.D(r.hard), r.D(r.Blocked()));
  }

  lemma InSpace(all: set<RuleId>, implemented: set<RuleId>, hard: set<RuleId>, blocked: set<RuleId>)
    requires blocked <= implemented <= all
    ensures SpaceConsistent(all, implemented, hard, blocked)
  {
    SubsetSize(implemented, all);
    SubsetSize(implemented * hard, implemented);
    SubsetSize(blocked, implemented);
    SubsetSize(blocked * implemented * hard, implemented * hard);
  }

  lemma CollapseMono(a: set<RuleId>, b: set<RuleId>, registry: Registry)
    requires a <= b
    ensures Collapse(a, registry) <= Collapse(b, registry)
  {
  }

  /** A distinct count counts every implemented rule once, under the one id that is not an alias. */
  lemma {:induction false} DistinctAreCanonical(registry: Registry, classes: seq<RuleClass>)
    ensures var impls := RegisteredAll(registry, map[], classes);
            Collapse(impls.Keys, registry) == set id | id in impls && IsCanonical(registry, id)
  {
    var impls := RegisteredAll(registry, map[], classes);
    AlwaysFaithful(registry, map[], classes);
    forall id | id in impls ensures IsCanonical(registry, Canonical(id, registry)) && Canonical(id, registry) in impls {
      if registry[id].Some? { assert IsAlias(registry, id, registry[id].value); }
    }
    forall id | id in impls && IsCanonical(registry, id) ensures id in Collapse(impls.Keys, registry) {
      assert Canonical(id, registry) == id;
    }
  }

  /** So is what cannot fire: once for every implemented rule whose class says it cannot, and for no other. */
  lemma {:induction false} BlockedAreCanonical(registry: Registry, classes: seq<RuleClass>, hard: set<RuleId>)
    ensures var impls := RegisteredAll(registry, map[], classes);
            Report(registry, impls, hard).D(Report(registry, impls, hard).Blocked()) ==
              set id | id in impls && id in registry && registry[id] == None && impls[id].cannotFire
  {
    var impls := RegisteredAll(registry, map[], classes);
    var r := Report(registry, impls, hard);
    AlwaysFaithful(registry, map[], classes);
    forall id | id in r.Blocked()
      ensures var c := Canonical(id, registry); c in impls && registry[c] == None && impls[c].cannotFire
    {
      if registry[id].Some? { assert IsAlias(registry, id, registry[id].value); }
    }
    forall id | id in impls && registry[id] == None && impls[id].cannotFire
      ensures id in Collapse(r.Blocked(), registry)
    {
      assert Canonical(id, registry) == id && id in r.Blocked();
    }
  }
}
