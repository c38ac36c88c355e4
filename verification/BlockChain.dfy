/** Following `CANNOT_FIRE_WITHOUT` from rule to rule, on any rule table, cycles included. */
module BlockChain {
  type RuleId = string

  /** An implementation and what it declares it cannot fire without, in order. */
  datatype Impl = Impl(blockers: seq<RuleId>)

  type Impls = map<RuleId, Impl>

  const CYCLE_MARK := " (CYCLE)"

  function Blockers(id: RuleId, impls: Impls): seq<RuleId> {
    if id in impls then impls[id].blockers else []
  }

  /** The walk goes on to `id`: it is implemented and registered. */
  predicate Followed(id: RuleId, impls: Impls, registry: set<RuleId>) {
    id in impls && id in registry
  }

  function ResolveBlockChain(id: RuleId, impls: Impls, registry: set<RuleId>, seen: seq<RuleId>): seq<string>
    decreases impls.Keys - Ids(seen)
  {
    if id in seen then seen + [id + CYCLE_MARK]
    else
      var blockers := Blockers(id, impls);
      if blockers == [] then seen + [id]
      else
        var next := blockers[0];
        if Followed(next, impls, registry) then
          assert id in impls.Keys - Ids(seen) && id !in impls.Keys - Ids(seen + [id]);
          ResolveBlockChain(next, impls, registry, seen + [id])
        else seen + [id, next]
  }

  function Ids(s: seq<RuleId>): set<RuleId> {
    set x | x in s
  }

  // ---------------------------------------------------------------- what the chain is

  /** The rule is implemented and declares a blocker. */
  ghost predicate Blocked(id: RuleId, impls: Impls) {
    id in impls && |impls[id].blockers| > 0
  }

  /** The first-blocker path: each rule is followed by the first blocker it declares. */
  ghost predicate Path(p: seq<RuleId>, impls: Impls) {
    forall i :: 0 <= i < |p| - 1 ==> Blocked(p[i], impls) && p[i + 1] == impls[p[i]].blockers[0]
  }

  ghost predicate Distinct(p: seq<RuleId>) {
    forall i, j :: 0 <= i < j < |p| ==> p[i] != p[j]
  }

  /** How the walk along `p` stops at its last rule: at a rule that declares no blocker, at a blocker the walk
      does not follow, or at a rule already on the path. */
  datatype End = Unblocked | NotFollowed | Repeat

  ghost predicate EndsAs(p: seq<RuleId>, end: End, impls: Impls, registry: set<RuleId>)
    requires p != []
  {
    var last, front := p[|p| - 1], p[..|p| - 1];
    match end
    case Unblocked => !Blocked(last, impls) && Distinct(p) && (front != [] ==> last in impls && last in registry)
    case NotFollowed => front != [] && !(last in impls && last in registry) && Distinct(front)
    case Repeat => front != [] && last in impls && last in registry && Distinct(front) && last in front
  }

  /** Every rule between the first and the last was followed. */
  ghost predicate AllFollowed(p: seq<RuleId>, impls: Impls, registry: set<RuleId>) {
    forall i :: 0 < i < |p| - 1 ==> p[i] in impls && p[i] in registry
  }

  ghost predicate IsChain(p: seq<RuleId>, end: End, id: RuleId, impls: Impls, registry: set<RuleId>) {
    p != [] && p[0] == id && Path(p, impls) && AllFollowed(p, impls, registry) && EndsAs(p, end, impls, registry)
  }

  /** What is printed for the path: its rules, the last one marked if it repeats. */
  function Rendered(p: seq<RuleId>, end: End): seq<string>
    requires p != []
  {
    if end == Repeat then p[..|p| - 1] + [p[|p| - 1] + " (CYCLE)"] else p
  }

  /** The walk returns the first-blocker path to its end, on every table. */
  lemma ChainIs(id: RuleId, impls: Impls, registry: set<RuleId>) returns (p: seq<RuleId>, end: End)
    ensures IsChain(p, end, id, impls, registry)
    ensures ResolveBlockChain(id, impls, registry, []) == Rendered(p, end)
  {
    hide ResolveBlockChain, Rendered, Path, AllFollowed, EndsAs;
    StartOfPath(id, impls, registry);
    p, end := WalkFrom(id, impls, registry, []);
    assert p[..1] == [id];
  }

  lemma StartOfPath(id: RuleId, impls: Impls, registry: set<RuleId>)
    ensures Path([] + [id], impls) && AllFollowed([] + [id], impls, registry)
  {
  }

  /** The walk with `seen` behind it. */
  lemma {:induction false} WalkFrom(id: RuleId, impls: Impls, registry: set<RuleId>, seen: seq<RuleId>)
    returns (p: seq<RuleId>, end: End)
    requires Distinct(seen) && Path(seen + [id], impls) && AllFollowed(seen + [id], impls, registry)
    requires seen != [] ==> Followed(id, impls, registry)
    ensures |seen| < |p| && p[..|seen| + 1] == seen + [id]
    ensures Path(p, impls) && AllFollowed(p, impls, registry) && EndsAs(p, end, impls, registry)
    ensures ResolveBlockChain(id, impls, registry, seen) == Rendered(p, end)
    decreases impls.Keys - Ids(seen)
  {
    var blockers := Blockers(id, impls);
    var here := seen + [id];
    assert here[..|seen|] == seen;
    if id in seen {
      p, end := here, Repeat;
    } else if blockers == [] {
      p, end := here, Unblocked;
    } else {
      var next := blockers[0];
      Onward(here, next, impls, registry);
      if Followed(next, impls, registry) {
        assert id in impls.Keys - Ids(seen) && id !in impls.Keys - Ids(here);
        p, end := WalkFrom(next, impls, registry, here);
        PrefixOf(p, here, next);
      } else {
        p, end := here + [next], NotFollowed;
        assert p == seen + [id, next];
      }
    }
  }

  lemma PrefixOf(p: seq<RuleId>, here: seq<RuleId>, next: RuleId)
    requires |here| < |p| && p[..|here| + 1] == here + [next]
    ensures p[..|here|] == here
  {
    assert p[..|here| + 1][..|here|] == p[..|here|];
  }

  lemma Onward(here: seq<RuleId>, next: RuleId, impls: Impls, registry: set<RuleId>)
    requires here != [] && Path(here, impls) && AllFollowed(here, impls, registry)
    requires |here| > 1 ==> Followed(here[|here| - 1], impls, registry)
    requires var b := Blockers(here[|here| - 1], impls); b != [] && next == b[0]
    ensures Path(here + [next], impls) && AllFollowed(here + [next], impls, registry)
    ensures (here + [next])[..|here|] == here
  {
  }

  /** There is only one such path, so the walk's result does not depend on how it is computed. */
  lemma {:induction false} ChainUnique(p: seq<RuleId>, pe: End, q: seq<RuleId>, qe: End, id: RuleId, impls: Impls,
          registry: set<RuleId>)
    requires IsChain(p, pe, id, impls, registry) && IsChain(q, qe, id, impls, registry)
    ensures p == q && pe == qe
  {
    if |p| <= |q| {
      Agree(p, q, impls, |p|);
      NoEarlierEnd(p, pe, q, qe, impls, registry);
    } else {
      Agree(q, p, impls, |q|);
      NoEarlierEnd(q, qe, p, pe, impls, registry);
    }
  }

  lemma {:induction false} Agree(p: seq<RuleId>, q: seq<RuleId>, impls: Impls, n: nat)
    requires p != [] && q != [] && p[0] == q[0] && Path(p, impls) && Path(q, impls) && n <= |p| <= |q|
    ensures p[..n] == q[..n]
  {
    if n > 1 {
      Agree(p, q, impls, n - 1);
      assert p[n - 2] == p[..n - 1][n - 2] == q[n - 2];
      assert p[n - 1] == q[n - 1];
    }
  }

  lemma NoEarlierEnd(p: seq<RuleId>, pe: End, q: seq<RuleId>, qe: End, impls: Impls, registry: set<RuleId>)
    requires p != [] && |p| <= |q| && p == q[..|p|]
    requires Path(q, impls) && AllFollowed(q, impls, registry) && EndsAs(p, pe, impls, registry) &&
             EndsAs(q, qe, impls, registry)
    ensures p == q && pe == qe
  {
  }

  /** A single-element chain means not blocked, and nothing else does. */
  lemma {:induction false} SingleMeansUnblocked(id: RuleId, impls: Impls, registry: set<RuleId>)
    ensures |ResolveBlockChain(id, impls, registry, [])| == 1 <==> !Blocked(id, impls)
  {
    var p, end := ChainIs(id, impls, registry);
    if |p| == 1 { assert p[0] == id; }
  }

  /** The chain is never longer than the number of implementations plus one. */
  lemma {:induction false} ChainBounded(id: RuleId, impls: Impls, registry: set<RuleId>)
    ensures |ResolveBlockChain(id, impls, registry, [])| <= |impls| + 1
  {
    var p, end := ChainIs(id, impls, registry);
    var front := p[..|p| - 1];
    forall x | x in front ensures x in impls {
      var i :| 0 <= i < |front| && front[i] == x;
      assert Blocked(p[i], impls);
    }
    assert Distinct(front);
    DistinctFits(front, impls.Keys);
  }

  lemma {:induction false} DistinctFits(p: seq<RuleId>, s: set<RuleId>)
    requires Distinct(p) && forall x :: x in p ==> x in s
    ensures |p| <= |s|
  {
    if p != [] {
      DistinctFits(p[1..], s - {p[0]});
    }
  }
}
