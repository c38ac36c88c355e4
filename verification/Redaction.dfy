/** The recursive redaction of a row before it is answered: a bounded walk over an object graph that may
    share objects and contain cycles. The redactor itself is any function on strings. */
module Redaction {
  const MAX_DEPTH: nat := 32
  const TRUNCATED := "[TRUNCATED: nested deeper than 32 levels]"
  const CYCLE := "[CYCLE]"

  /** A container's kind; a dict carries its keys, which are not redacted. */
  datatype Kind = List | Tuple | Set | FrozenSet | Dict(keys: seq<string>)

  /** A value written out: a leaf is anything that is neither a string nor a container, `plain` if it is a
      number, a bool or None; a cut is a place where the walk stops and leaves a marker. */
  datatype Tree = Str(s: string) | Leaf(plain: bool, v: int) | Box(kind: Kind, items: seq<Tree>) | Cut(marker: string)

  type Id = nat

  datatype Node = NStr(s: string) | NLeaf(plain: bool, v: int) | NBox(kind: Kind, kids: seq<Id>)

  /** Objects by identity. */
  type Heap = map<Id, Node>

  ghost predicate Closed(h: Heap) {
    forall id :: id in h && h[id].NBox? ==> forall i :: 0 <= i < |h[id].kids| ==> h[id].kids[i] in h
  }

  datatype Result<T> = Ok(value: T) | TypeError

  // ---------------------------------------------------------------- rebuilding a container

  predicate Hashable(t: Tree) {
    match t
    case Str(_) => true
    case Leaf(_, _) => true
    case Cut(_) => true
    case Box(kind, items) => kind == FrozenSet || (kind == Tuple && forall i :: 0 <= i < |items| ==> Hashable(items[i]))
  }

  /** The item types the code tests for before it rebuilds a set. */
  predicate Settable(t: Tree) {
    t.Str? || t.Cut? || (t.Leaf? && t.plain) || (t.Box? && t.kind == Tuple)
  }

  predicate IsSet(kind: Kind) {
    kind == Set || kind == FrozenSet
  }

  /** A container of the redacted items: of its own kind, except that a set with an item of another type comes
      back as a list. Building a set from something unhashable raises. */
  function Rebuild(kind: Kind, items: seq<Tree>): Result<Tree> {
    if !IsSet(kind) then Ok(Box(kind, items))
    else if !(forall i :: 0 <= i < |items| ==> Settable(items[i])) then Ok(Box(List, items))
    else if forall i :: 0 <= i < |items| ==> Hashable(items[i]) then Ok(Box(kind, items))
    else TypeError
  }

  // ---------------------------------------------------------------- the walk

  function Walk(h: Heap, id: Id, depth: nat, path: set<Id>, redact: string -> string): Result<Tree>
    requires Closed(h) && id in h && depth <= MAX_DEPTH
    decreases MAX_DEPTH - depth, 0
  {
    match h[id]
    case NStr(s) => Ok(Str(redact(s)))
    case NLeaf(plain, v) => Ok(Leaf(plain, v))
    case NBox(kind, kids) =>
      if depth >= MAX_DEPTH then Ok(Str(TRUNCATED))
      else if id in path then Ok(Str(CYCLE))
      else
        var items := WalkAll(h, kids, depth + 1, path + {id}, redact);
        if items.TypeError? then TypeError else Rebuild(kind, items.value)
  }

  function WalkAll(h: Heap, ids: seq<Id>, depth: nat, path: set<Id>, redact: string -> string): (r: Result<seq<Tree>>)
    requires Closed(h) && depth <= MAX_DEPTH && forall i :: 0 <= i < |ids| ==> ids[i] in h
    ensures r.Ok? ==> |r.value| == |ids|
    decreases MAX_DEPTH - depth, 1 + |ids|
  {
    if ids == [] then Ok([])
    else
      var first := Walk(h, ids[0], depth, path, redact);
      if first.TypeError? then TypeError
      else
        var rest := WalkAll(h, ids[1..], depth, path, redact);
        if rest.TypeError? then TypeError else Ok([first.value] + rest.value)
  }

  // ---------------------------------------------------------------- what the walk sees

  /** The part of the graph the walk reaches from `id`, written out: objects as they are, cut where the bound is
      reached and where an object is already on the path. */
  function Seen(h: Heap, id: Id, depth: nat, path: set<Id>): Tree
    requires Closed(h) && id in h && depth <= MAX_DEPTH
    decreases MAX_DEPTH - depth, 0
  {
    match h[id]
    case NStr(s) => Str(s)
    case NLeaf(plain, v) => Leaf(plain, v)
    case NBox(kind, kids) =>
      if depth >= MAX_DEPTH then Cut(TRUNCATED)
      else if id in path then Cut(CYCLE)
      else Box(kind, SeenAll(h, kids, depth + 1, path + {id}))
  }

  function SeenAll(h: Heap, ids: seq<Id>, depth: nat, path: set<Id>): (r: seq<Tree>)
    requires Closed(h) && depth <= MAX_DEPTH && forall i :: 0 <= i < |ids| ==> ids[i] in h
    ensures |r| == |ids|
    decreases MAX_DEPTH - depth, 1 + |ids|
  {
    if ids == [] then [] else [Seen(h, ids[0], depth, path)] + SeenAll(h, ids[1..], depth, path)
  }

  /** The object `id` written out is `t`; only an object on no cycle can be written out. */
  ghost predicate Unfolds(h: Heap, id: Id, t: Tree)
    decreases t
  {
    id in h &&
    match h[id]
    case NStr(s) => t == Str(s)
    case NLeaf(plain, v) => t == Leaf(plain, v)
    case NBox(kind, kids) =>
      && t.Box? && t.kind == kind && |t.items| == |kids|
      && forall i :: 0 <= i < |kids| ==> Unfolds(h, kids[i], t.items[i])
  }

  /** How many containers deep. */
  ghost predicate Within(t: Tree, depth: nat) {
    match t
    case Str(_) => true
    case Leaf(_, _) => true
    case Cut(_) => false
    case Box(_, items) => depth > 0 && forall i :: 0 <= i < |items| ==> Within(items[i], depth - 1)
  }

  /** Plain recursive redaction of a written-out value; a cut becomes its marker. */
  function Redact(t: Tree, redact: string -> string): Result<Tree> {
    match t
    case Str(s) => Ok(Str(redact(s)))
    case Leaf(plain, v) => Ok(t)
    case Cut(marker) => Ok(Str(marker))
    case Box(kind, items) =>
      var rs := RedactAll(items, redact);
      if rs.TypeError? then TypeError else Rebuild(kind, rs.value)
  }

  function RedactAll(ts: seq<Tree>, redact: string -> string): (r: Result<seq<Tree>>)
    ensures r.Ok? ==> |r.value| == |ts| && forall i :: 0 <= i < |ts| ==> Redact(ts[i], redact) == Ok(r.value[i])
    ensures r.TypeError? <==> exists i :: 0 <= i < |ts| && Redact(ts[i], redact).TypeError?
  {
    if ts == [] then Ok([])
    else
      var first := Redact(ts[0], redact);
      var rest := RedactAll(ts[1..], redact);
      assert forall i :: 1 <= i < |ts| ==> ts[i] == ts[1..][i - 1];
      if first.TypeError? then
        assert Redact(ts[0], redact).TypeError?;
        TypeError
      else if rest.TypeError? then
        assert exists i :: 0 <= i < |ts| && Redact(ts[i], redact).TypeError? by {
          var i :| 0 <= i < |ts[1..]| && Redact(ts[1..][i], redact).TypeError?;
          assert ts[i + 1] == ts[1..][i];
        }
        TypeError
      else Ok([first.value] + rest.value)
  }

  function Size(t: Tree): nat {
    match t
    case Str(_) => 1
    case Leaf(_, _) => 1
    case Cut(_) => 1
    case Box(_, items) => 1 + SizeAll(items)
  }

  function SizeAll(ts: seq<Tree>): nat {
    if ts == [] then 0 else Size(ts[0]) + SizeAll(ts[1..])
  }

  lemma {:induction false} ItemSmaller(ts: seq<Tree>, i: nat)
    requires i < |ts|
    ensures Size(ts[i]) <= SizeAll(ts)
    decreases |ts|
  {
    if i > 0 { ItemSmaller(ts[1..], i - 1); }
  }

  lemma {:induction false} UnfoldsUnique(h: Heap, id: Id, t: Tree, u: Tree)
    requires Unfolds(h, id, t) && Unfolds(h, id, u)
    ensures t == u
    decreases t
  {
    if h[id].NBox? {
      forall i | 0 <= i < |t.items| ensures t.items[i] == u.items[i] {
        UnfoldsUnique(h, h[id].kids[i], t.items[i], u.items[i]);
      }
    }
  }

  /** Every object on the path is written out only larger than `t`: none of them is `t`'s own object. */
  ghost predicate Above(h: Heap, path: set<Id>, t: Tree) {
    forall id, big :: id in path && Unfolds(h, id, big) ==> Size(t) < Size(big)
  }

  /** On any graph, shared, cyclic or as deep as can be, the walk is the plain redaction of what it sees. */
  lemma {:induction false} WalkIsRedactOfSeen(h: Heap, id: Id, depth: nat, path: set<Id>, redact: string -> string)
    requires Closed(h) && id in h && depth <= MAX_DEPTH
    ensures Walk(h, id, depth, path, redact) == Redact(Seen(h, id, depth, path), redact)
    decreases MAX_DEPTH - depth, 0
  {
    if h[id].NBox? && depth < MAX_DEPTH && id !in path {
      WalkAllIsRedactOfSeen(h, h[id].kids, depth + 1, path + {id}, redact);
    }
  }

  lemma {:induction false} WalkAllIsRedactOfSeen(h: Heap, ids: seq<Id>, depth: nat, path: set<Id>,
          redact: string -> string)
    requires Closed(h) && depth <= MAX_DEPTH && forall i :: 0 <= i < |ids| ==> ids[i] in h
    ensures WalkAll(h, ids, depth, path, redact) == RedactAll(SeenAll(h, ids, depth, path), redact)
    decreases MAX_DEPTH - depth, 1 + |ids|
  {
    if ids != [] {
      WalkIsRedactOfSeen(h, ids[0], depth, path, redact);
      WalkAllIsRedactOfSeen(h, ids[1..], depth, path, redact);
      assert SeenAll(h, ids, depth, path)[1..] == SeenAll(h, ids[1..], depth, path);
    }
  }

  /** A value that can be written out and nests no deeper than the bound is seen whole: sharing is invisible and
      nothing is cut. */
  lemma {:induction false} SeenWhole(h: Heap, id: Id, t: Tree, depth: nat, path: set<Id>)
    requires Closed(h) && depth <= MAX_DEPTH && Unfolds(h, id, t) && Within(t, MAX_DEPTH - depth) && Above(h, path, t)
    ensures Seen(h, id, depth, path) == t
    decreases MAX_DEPTH - depth, 0
  {
    if h[id].NBox? {
      var inner := path + {id};
      forall i | 0 <= i < |t.items| ensures Above(h, inner, t.items[i]) {
        ItemSmaller(t.items, i);
        forall k, big | k in inner && Unfolds(h, k, big) ensures Size(t.items[i]) < Size(big) {
          if k == id { UnfoldsUnique(h, id, t, big); }
        }
      }
      SeenAllWhole(h, h[id].kids, t.items, depth + 1, inner);
    }
  }

  lemma {:induction false} SeenAllWhole(h: Heap, ids: seq<Id>, ts: seq<Tree>, depth: nat, path: set<Id>)
    requires Closed(h) && depth <= MAX_DEPTH && |ids| == |ts|
    requires forall i :: 0 <= i < |ids| ==>
               ids[i] in h && Unfolds(h, ids[i], ts[i]) && Within(ts[i], MAX_DEPTH - depth) && Above(h, path, ts[i])
    ensures SeenAll(h, ids, depth, path) == ts
    decreases MAX_DEPTH - depth, 1 + |ids|
  {
    if ids != [] {
      SeenWhole(h, ids[0], ts[0], depth, path);
      SeenAllWhole(h, ids[1..], ts[1..], depth, path);
    }
  }

  /** So on such a value the walk is its plain recursive redaction. */
  lemma {:induction false} WalkIsRedact(h: Heap, id: Id, t: Tree, redact: string -> string)
    requires Closed(h) && Unfolds(h, id, t) && Within(t, MAX_DEPTH)
    ensures Walk(h, id, 0, {}, redact) == Redact(t, redact)
  {
    SeenWhole(h, id, t, 0, {});
    WalkIsRedactOfSeen(h, id, 0, {}, redact);
  }

  // ---------------------------------------------------------------- where it stops

  /** The item reached by going down `route`, the place taken in each container on the way. */
  function At(t: Tree, route: seq<nat>): Tree
    requires Leads(t, route)
    decreases |route|
  {
    if route == [] then t else At(t.items[route[0]], route[1..])
  }

  /** There is something to go down to at every step. */
  predicate Leads(t: Tree, route: seq<nat>)
    decreases |route|
  {
    route == [] || (t.Box? && route[0] < |t.items| && Leads(t.items[route[0]], route[1..]))
  }

  /** `ids` are the objects met going down `route` from `id`, `id` itself first. */
  ghost predicate Follows(h: Heap, id: Id, route: seq<nat>, ids: seq<Id>)
    decreases |route|
  {
    && |ids| == |route| + 1 && ids[0] == id && id in h && ids[|route|] in h
    && (route != [] ==>
          h[id].NBox? && route[0] < |h[id].kids| && Follows(h, h[id].kids[route[0]], route[1..], ids[1..]))
  }

  lemma {:induction false} SeenAllAt(h: Heap, ids: seq<Id>, depth: nat, path: set<Id>, i: nat)
    requires Closed(h) && depth <= MAX_DEPTH && (forall k :: 0 <= k < |ids| ==> ids[k] in h) && i < |ids|
    ensures SeenAll(h, ids, depth, path)[i] == Seen(h, ids[i], depth, path)
    decreases |ids|
  {
    if i > 0 { SeenAllAt(h, ids[1..], depth, path, i - 1); }
  }

  function SetOf(ids: seq<Id>): set<Id> {
    set id | id in ids
  }

  /** What is seen at the end of a route: the last object on it, below the bound as it is, entered unless it is
      one of those above it, and at the bound not entered at all. */
  ghost predicate Stops(h: Heap, ids: seq<Id>, path: set<Id>, depth: nat, t: Tree)
    requires ids != [] && ids[|ids| - 1] in h
  {
    var n, id := |ids| - 1, ids[|ids| - 1];
    match h[id]
    case NStr(s) => t == Str(s)
    case NLeaf(plain, v) => t == Leaf(plain, v)
    case NBox(kind, kids) =>
      if depth + n >= 32 then t == Cut("[TRUNCATED: nested deeper than 32 levels]")
      else if id in path || id in ids[..n] then t == Cut("[CYCLE]")
      else t.Box? && t.kind == kind && |t.items| == |kids|
  }

  lemma {:induction false} SeenStops(h: Heap, id: Id, depth: nat, path: set<Id>, route: seq<nat>, ids: seq<Id>)
    requires Closed(h) && depth <= MAX_DEPTH && Follows(h, id, route, ids) && Leads(Seen(h, id, depth, path), route)
    ensures Stops(h, ids, path, depth, At(Seen(h, id, depth, path), route))
    decreases |route|
  {
    if route != [] {
      var t := Seen(h, id, depth, path);
      var kid := h[id].kids[route[0]];
      SeenAllAt(h, h[id].kids, depth + 1, path + {id}, route[0]);
      SeenStops(h, kid, depth + 1, path + {id}, route[1..], ids[1..]);
      StopsAbove(h, ids, path, depth, At(t, route));
    }
  }

  lemma StopsAbove(h: Heap, ids: seq<Id>, path: set<Id>, depth: nat, t: Tree)
    requires |ids| > 1 && ids[|ids| - 1] in h && Stops(h, ids[1..], path + {ids[0]}, depth + 1, t)
    ensures Stops(h, ids, path, depth, t)
  {
    var n, id := |ids| - 1, ids[|ids| - 1];
    assert ids[1..][|ids[1..]| - 1] == id;
    assert id in ids[..n] <==> id == ids[0] || id in ids[1..][..n - 1] by {
      assert ids[..n] == [ids[0]] + ids[1..][..n - 1];
    }
  }

  ghost predicate AllDifferent(ids: seq<Id>) {
    forall i, j :: 0 <= i < j < |ids| ==> ids[i] != ids[j]
  }

  lemma {:induction false} OpenExactly(h: Heap, id: Id, depth: nat, path: set<Id>, route: seq<nat>, ids: seq<Id>)
    requires Closed(h) && depth <= MAX_DEPTH && Follows(h, id, route, ids)
    ensures Leads(Seen(h, id, depth, path), route) <==>
              route == [] || (depth + |route| <= 32 && AllDifferent(ids[..|route|]) && SetOf(ids[..|route|]) !! path)
    decreases |route|
  {
    if route != [] {
      assert ids[..|route|][0] == id;
      assert id in SetOf(ids[..|route|]);
      if depth < MAX_DEPTH && id !in path {
        var kids := h[id].kids;
        SeenAllAt(h, kids, depth + 1, path + {id}, route[0]);
        OpenExactly(h, kids[route[0]], depth + 1, path + {id}, route[1..], ids[1..]);
        OneMoreAbove(id, ids[1..][..|route| - 1], path);
        assert ids[..|route|] == [id] + ids[1..][..|route| - 1];
        assert |route| == 1 ==> ids[1..][..0] == [];
      }
    }
  }

  lemma OneMoreAbove(id: Id, ids: seq<Id>, path: set<Id>)
    requires id !in path
    ensures AllDifferent([id] + ids) && SetOf([id] + ids) !! path <==>
              AllDifferent(ids) && SetOf(ids) !! path + {id}
  {
    var all := [id] + ids;
    assert SetOf(all) == SetOf(ids) + {id};
    if AllDifferent(all) {
      assert forall i, j :: 0 <= i < j < |ids| ==> ids[i] == all[i + 1] && ids[j] == all[j + 1];
      assert forall i :: 0 <= i < |ids| ==> ids[i] == all[i + 1] != all[0];
    }
  }

  /** The walk never enters an object that is on its own path. Going down a route over different objects, no
      more than 32 of them, what comes back at its end is, for a container within the bound, the cycle marker
      exactly if it is one of the objects above it, and at level 32 the truncation marker; strings are redacted
      and all else is as it was. Any other route ends early, at a marker. */
  lemma {:induction false} CyclesCutExactly(h: Heap, id: Id, route: seq<nat>, ids: seq<Id>, redact: string -> string)
    requires Closed(h) && Follows(h, id, route, ids) && Walk(h, id, 0, {}, redact).Ok?
    ensures var r := Walk(h, id, 0, {}, redact).value; var n := |route|; var last := h[ids[n]];
            && (Leads(r, route) <==> n <= 32 && AllDifferent(ids[..n]))
            && (Leads(r, route) ==>
                  && (last.NStr? ==> At(r, route) == Str(redact(last.s)))
                  && (last.NLeaf? ==> At(r, route) == Leaf(last.plain, last.v))
                  && (last.NBox? && n == 32 ==> At(r, route) == Str("[TRUNCATED: nested deeper than 32 levels]"))
                  && (last.NBox? && n < 32 && ids[n] in ids[..n] ==> At(r, route) == Str("[CYCLE]"))
                  && (last.NBox? && n < 32 && ids[n] !in ids[..n] ==> At(r, route).Box?))
  {
    var seen, r := Seen(h, id, 0, {}), Walk(h, id, 0, {}, redact).value;
    OpenExactly(h, id, 0, {}, route, ids);
    WalkRaisesExactly(h, id, 0, {}, redact);
    WalkAnswers(h, id, 0, {}, redact);
    hide Walk, Seen, AnswersFor, Follows;
    LeadsAlike(seen, r, route, redact);
    if Leads(seen, route) {
      SeenStops(h, id, 0, {}, route, ids);
      AnswersAt(seen, r, route, redact);
      StopAnswered(h, ids, At(seen, route), At(r, route), redact);
    }
  }

  lemma {:induction false} StopAnswered(h: Heap, ids: seq<Id>, t: Tree, r: Tree, redact: string -> string)
    requires ids != [] && ids[|ids| - 1] in h && |ids| - 1 <= 32 && Stops(h, ids, {}, 0, t) && AnswersFor(t, r, redact)
    ensures var n := |ids| - 1; var last := h[ids[n]];
            && (last.NStr? ==> r == Str(redact(last.s)))
            && (last.NLeaf? ==> r == Leaf(last.plain, last.v))
            && (last.NBox? && n == 32 ==> r == Str("[TRUNCATED: nested deeper than 32 levels]"))
            && (last.NBox? && n < 32 && ids[n] in ids[..n] ==> r == Str("[CYCLE]"))
            && (last.NBox? && n < 32 && ids[n] !in ids[..n] ==> r.Box?)
  {
  }

  lemma {:induction false} LeadsAlike(t: Tree, r: Tree, route: seq<nat>, redact: string -> string)
    requires AnswersFor(t, r, redact)
    ensures Leads(t, route) <==> Leads(r, route)
    decreases |route|
  {
    if route != [] && t.Box? && route[0] < |t.items| {
      LeadsAlike(t.items[route[0]], r.items[route[0]], route[1..], redact);
    }
  }

  lemma {:induction false} AnswersAt(t: Tree, r: Tree, route: seq<nat>, redact: string -> string)
    requires AnswersFor(t, r, redact) && Leads(t, route)
    ensures Leads(r, route) && AnswersFor(At(t, route), At(r, route), redact)
    decreases |route|
  {
    if route != [] { AnswersAt(t.items[route[0]], r.items[route[0]], route[1..], redact); }
  }

  /** At most `n` containers deep, markers not counted. */
  ghost predicate Nested(t: Tree, n: nat) {
    match t
    case Str(_) => true
    case Leaf(_, _) => true
    case Cut(_) => true
    case Box(_, items) => n > 0 && forall i :: 0 <= i < |items| ==> Nested(items[i], n - 1)
  }

  function Containers(h: Heap): set<Id> {
    set id | id in h && h[id].NBox?
  }

  /** So what is seen of a graph nests no deeper than the graph has containers, and never deeper than 32. */
  lemma {:induction false} NestedBelowContainers(h: Heap, id: Id, depth: nat, path: set<Id>)
    requires Closed(h) && id in h && depth <= MAX_DEPTH
    ensures Nested(Seen(h, id, depth, path), |Containers(h) - path|)
    ensures Nested(Seen(h, id, depth, path), 32 - depth)
    decreases MAX_DEPTH - depth, 0
  {
    if h[id].NBox? && depth < MAX_DEPTH && id !in path {
      var inner := path + {id};
      assert Containers(h) - path == (Containers(h) - inner) + {id};
      AllNestedBelow(h, h[id].kids, depth + 1, inner);
    }
  }

  lemma {:induction false} AllNestedBelow(h: Heap, ids: seq<Id>, depth: nat, path: set<Id>)
    requires Closed(h) && depth <= MAX_DEPTH && forall i :: 0 <= i < |ids| ==> ids[i] in h
    ensures forall i :: 0 <= i < |ids| ==> Nested(SeenAll(h, ids, depth, path)[i], |Containers(h) - path|)
    ensures forall i :: 0 <= i < |ids| ==> Nested(SeenAll(h, ids, depth, path)[i], 32 - depth)
    decreases MAX_DEPTH - depth, 1 + |ids|
  {
    if ids != [] {
      NestedBelowContainers(h, ids[0], depth, path);
      AllNestedBelow(h, ids[1..], depth, path);
    }
  }

  const SELF: Heap := map[0 := NBox(Dict(["self"]), [0])]

  /** A row that holds itself is answered with one marker in its place. */
  lemma SelfReference(redact: string -> string)
    ensures Closed(SELF) && 0 in SELF
    ensures Walk(SELF, 0, 0, {}, redact) == Ok(Box(Dict(["self"]), [Str("[CYCLE]")]))
  {
    OneItem(SELF, 0, 1, {} + {0}, redact);
    assert Walk(SELF, 0, 1, {} + {0}, redact) == Ok(Str("[CYCLE]"));
    assert Walk(SELF, 0, 0, {}, redact) == Rebuild(Dict(["self"]), [Str("[CYCLE]")]);
  }

  lemma {:induction false} OneItem(h: Heap, id: Id, depth: nat, path: set<Id>, redact: string -> string)
    requires Closed(h) && id in h && depth <= MAX_DEPTH && Walk(h, id, depth, path, redact).Ok?
    ensures WalkAll(h, [id], depth, path, redact) == Ok([Walk(h, id, depth, path, redact).value])
  {
    assert [id][1..] == [];
    assert WalkAll(h, [], depth, path, redact) == Ok([]);
    var t := Walk(h, id, depth, path, redact).value;
    assert [t] + [] == [t];
  }

  // ---------------------------------------------------------------- when it raises

  /** The item is still hashable once redacted: a frozenset is only if it keeps its kind. */
  predicate StaysHashable(t: Tree) {
    match t
    case Str(_) => true
    case Leaf(_, _) => true
    case Cut(_) => true
    case Box(kind, items) =>
      if kind == Tuple then forall i :: 0 <= i < |items| ==> StaysHashable(items[i])
      else kind == FrozenSet && forall i :: 0 <= i < |items| ==> Settable(items[i])
  }

  /** Somewhere in the value a set, all of whose items are of the types tested for, has an item that does not
      stay hashable: a tuple holding, through tuples, something that comes back as a list or dict. */
  predicate Raises(t: Tree) {
    t.Box? && ((exists i :: 0 <= i < |t.items| && Raises(t.items[i])) ||
               (IsSet(t.kind) && (forall i :: 0 <= i < |t.items| ==> Settable(t.items[i])) &&
                exists i :: 0 <= i < |t.items| && !StaysHashable(t.items[i])))
  }

  /** Redacting a written-out value raises exactly when a set in it hides such an item. */
  lemma {:induction false} RaisesExactly(t: Tree, redact: string -> string)
    ensures Redact(t, redact).TypeError? <==> Raises(t)
    ensures Redact(t, redact).Ok? ==>
              var r := Redact(t, redact).value;
              (Settable(r) <==> Settable(t)) && (Hashable(r) <==> StaysHashable(t))
    decreases t
  {
    if t.Box? {
      forall i | 0 <= i < |t.items|
        ensures Redact(t.items[i], redact).TypeError? <==> Raises(t.items[i])
        ensures Redact(t.items[i], redact).Ok? ==>
                  var r := Redact(t.items[i], redact).value;
                  (Settable(r) <==> Settable(t.items[i])) && (Hashable(r) <==> StaysHashable(t.items[i]))
      {
        RaisesExactly(t.items[i], redact);
      }
      var rs := RedactAll(t.items, redact);
      if rs.Ok? {
        RebuildExactly(t, rs.value);
      }
    }
  }

  lemma {:induction false} RebuildExactly(t: Tree, rs: seq<Tree>)
    requires t.Box? && |rs| == |t.items|
    requires forall i :: 0 <= i < |rs| ==>
               !Raises(t.items[i]) && (Settable(rs[i]) <==> Settable(t.items[i])) &&
                   (Hashable(rs[i]) <==> StaysHashable(t.items[i]))
    ensures Rebuild(t.kind, rs).TypeError? <==> Raises(t)
    ensures Rebuild(t.kind, rs).Ok? ==>
              var r := Rebuild(t.kind, rs).value;
              (Settable(r) <==> Settable(t)) && (Hashable(r) <==> StaysHashable(t))
  {
  }

  /** The walk is meant always to answer, for a row 200 deep or one that refers to itself as for any other. On
      every graph it does, exactly when no set in what it sees hides such an item. */
  lemma {:induction false} WalkRaisesExactly(h: Heap, id: Id, depth: nat, path: set<Id>, redact: string -> string)
    requires Closed(h) && id in h && depth <= MAX_DEPTH
    ensures Walk(h, id, depth, path, redact).TypeError? <==> Raises(Seen(h, id, depth, path))
  {
    WalkIsRedactOfSeen(h, id, depth, path, redact);
    RaisesExactly(Seen(h, id, depth, path), redact);
  }

  /** Rows of dicts, lists and tuples are always answered, however deep or cyclic. */
  lemma {:induction false} WithoutSetsAnswers(h: Heap, id: Id, redact: string -> string)
    requires Closed(h) && id in h && forall k :: k in h && h[k].NBox? ==> !IsSet(h[k].kind)
    ensures Walk(h, id, 0, {}, redact).Ok?
  {
    WithoutSetsQuiet(h, id, 0, {});
    WalkRaisesExactly(h, id, 0, {}, redact);
  }

  lemma {:induction false} WithoutSetsQuiet(h: Heap, id: Id, depth: nat, path: set<Id>)
    requires Closed(h) && id in h && depth <= MAX_DEPTH && forall k :: k in h && h[k].NBox? ==> !IsSet(h[k].kind)
    ensures !Raises(Seen(h, id, depth, path))
    decreases MAX_DEPTH - depth, 0
  {
    if h[id].NBox? && depth < MAX_DEPTH && id !in path {
      WithoutSetsAllQuiet(h, h[id].kids, depth + 1, path + {id});
    }
  }

  lemma {:induction false} WithoutSetsAllQuiet(h: Heap, ids: seq<Id>, depth: nat, path: set<Id>)
    requires Closed(h) && depth <= MAX_DEPTH && forall i :: 0 <= i < |ids| ==> ids[i] in h
    requires forall k :: k in h && h[k].NBox? ==> !IsSet(h[k].kind)
    ensures forall i :: 0 <= i < |ids| ==> !Raises(SeenAll(h, ids, depth, path)[i])
    decreases MAX_DEPTH - depth, 1 + |ids|
  {
    if ids != [] {
      WithoutSetsQuiet(h, ids[0], depth, path);
      WithoutSetsAllQuiet(h, ids[1..], depth, path);
    }
  }

  const NESTED: Heap := map[
    0 := NBox(Set, [1]), 1 := NBox(Tuple, [2]), 2 := NBox(FrozenSet, [3]), 3 := NBox(FrozenSet, [4]),
    4 := NLeaf(true, 1)]

  /** A set holding a tuple holding a frozenset of a frozenset: redacting it raises. */
  lemma NestedFrozensetRaises(redact: string -> string)
    ensures Closed(NESTED) && 0 in NESTED && Walk(NESTED, 0, 0, {}, redact).TypeError?
  {
    var inner := Box(FrozenSet, [Leaf(true, 1)]);
    var middle := Box(FrozenSet, [inner]);
    var item := Box(Tuple, [middle]);
    var t := Box(Set, [item]);
    assert Unfolds(NESTED, 3, inner);
    assert Unfolds(NESTED, 2, middle);
    assert Unfolds(NESTED, 1, item);
    assert Unfolds(NESTED, 0, t);
    NestedFrozenset(inner, middle, item);
    RaisesExactly(t, redact);
    WalkIsRedact(NESTED, 0, t, redact);
  }

  lemma NestedFrozenset(inner: Tree, middle: Tree, item: Tree)
    requires inner == Box(FrozenSet, [Leaf(true, 1)]) && middle == Box(FrozenSet, [inner]) &&
             item == Box(Tuple, [middle])
    ensures Raises(Box(Set, [item])) && Within(Box(Set, [item]), MAX_DEPTH)
  {
    assert middle.items[0] == inner && !Settable(inner);
    assert !StaysHashable(middle);
    assert item.items[0] == middle && !StaysHashable(item);
    assert Box(Set, [item]).items[0] == item && Settable(item);
    assert Within(inner, 29) && Within(middle, 30) && Within(item, 31);
  }

  // ---------------------------------------------------------------- what comes back

  /** `r` answers `t`: a string by a redacted one, a cut by its marker, a leaf by itself, and a container by one
      of as many items that answer its own, of the same kind (with the same keys) or, for a set, a list. */
  ghost predicate AnswersFor(t: Tree, r: Tree, redact: string -> string) {
    match t
    case Str(s) => r == Str(redact(s))
    case Leaf(_, _) => r == t
    case Cut(marker) => r == Str(marker)
    case Box(kind, items) =>
      && r.Box? && |r.items| == |items| && (forall i :: 0 <= i < |items| ==> AnswersFor(items[i], r.items[i], redact))
      && (r.kind == kind || (IsSet(kind) && r.kind == List))
  }

  lemma {:induction false} RedactAnswers(t: Tree, redact: string -> string)
    requires Redact(t, redact).Ok?
    ensures AnswersFor(t, Redact(t, redact).value, redact)
    decreases t
  {
    if t.Box? {
      var rs := RedactAll(t.items, redact).value;
      forall i | 0 <= i < |t.items| ensures AnswersFor(t.items[i], rs[i], redact) {
        RedactAnswers(t.items[i], redact);
      }
    }
  }

  /** On any graph: unless it raises, what comes back answers what the walk sees, item by item. Every string is
      redacted or a marker, and every leaf the walk reaches comes back unchanged, in its place. */
  lemma {:induction false} WalkAnswers(h: Heap, id: Id, depth: nat, path: set<Id>, redact: string -> string)
    requires Closed(h) && id in h && depth <= MAX_DEPTH && !Raises(Seen(h, id, depth, path))
    ensures var r := Walk(h, id, depth, path, redact);
            r.Ok? && AnswersFor(Seen(h, id, depth, path), r.value, redact)
  {
    WalkRaisesExactly(h, id, depth, path, redact);
    WalkIsRedactOfSeen(h, id, depth, path, redact);
    RedactAnswers(Seen(h, id, depth, path), redact);
  }

  ghost predicate Redacted(s: string, h: Heap, redact: string -> string) {
    s == TRUNCATED || s == CYCLE || exists id :: id in h && h[id].NStr? && s == redact(h[id].s)
  }

  ghost predicate AllRedacted(t: Tree, h: Heap, redact: string -> string) {
    match t
    case Str(s) => Redacted(s, h, redact)
    case Leaf(_, _) => true
    case Cut(_) => false
    case Box(_, items) => forall i :: 0 <= i < |items| ==> AllRedacted(items[i], h, redact)
  }

  /** On any graph, whatever comes back is a finite tree in which every string is one of the graph's strings
      redacted, or one of the two markers. */
  lemma {:induction false} NoRawString(h: Heap, id: Id, depth: nat, path: set<Id>, redact: string -> string)
    requires Closed(h) && id in h && depth <= MAX_DEPTH
    ensures Walk(h, id, depth, path, redact).Ok? ==> AllRedacted(Walk(h, id, depth, path, redact).value, h, redact)
    decreases MAX_DEPTH - depth, 0
  {
    match h[id] {
      case NStr(s) => assert Redacted(redact(s), h, redact);
      case NLeaf(_, _) =>
      case NBox(_, kids) =>
        if depth < MAX_DEPTH && id !in path {
          NoRawStrings(h, kids, depth + 1, path + {id}, redact);
          var items := WalkAll(h, kids, depth + 1, path + {id}, redact);
          hide AllRedacted, Closed, WalkAll, Rebuild;
          if items.Ok? { RebuiltRedacted(h[id].kind, items.value, h, redact); }
        }
    }
  }

  lemma {:induction false} RebuiltRedacted(kind: Kind, items: seq<Tree>, h: Heap, redact: string -> string)
    requires forall i :: 0 <= i < |items| ==> AllRedacted(items[i], h, redact)
    ensures Rebuild(kind, items).Ok? ==> AllRedacted(Rebuild(kind, items).value, h, redact)
  {
  }

  lemma {:induction false} NoRawStrings(h: Heap, ids: seq<Id>, depth: nat, path: set<Id>, redact: string -> string)
    requires Closed(h) && depth <= MAX_DEPTH && forall i :: 0 <= i < |ids| ==> ids[i] in h
    ensures var r := WalkAll(h, ids, depth, path, redact);
            r.Ok? ==> forall i :: 0 <= i < |ids| ==> AllRedacted(r.value[i], h, redact)
    decreases MAX_DEPTH - depth, 1 + |ids|
  {
    if ids != [] {
      NoRawString(h, ids[0], depth, path, redact);
      NoRawStrings(h, ids[1..], depth, path, redact);
    }
  }

  /** A string or marker, a number, bool or None, or a tuple. */
  predicate StringPlainOrTuple(t: Tree) {
    match t
    case Str(_) => true
    case Cut(_) => true
    case Leaf(plain, _) => plain
    case Box(kind, _) => kind == Tuple
  }

  /** Lists, tuples and dicts keep their kind, their length and, item by item, their redacted contents; dicts
      their keys. A set keeps its kind exactly when all its items are strings, plain values or tuples, and is
      otherwise answered as a list. */
  lemma {:induction false} KindKeptExactly(t: Tree, redact: string -> string)
    requires t.Box? && Redact(t, redact).Ok?
    ensures var r := Redact(t, redact).value;
            && r.Box? && |r.items| == |t.items|
            && (forall i :: 0 <= i < |t.items| ==> Redact(t.items[i], redact) == Ok(r.items[i]))
            && (r.kind == t.kind <==>
                  t.kind !in {Set, FrozenSet} || forall i :: 0 <= i < |t.items| ==> StringPlainOrTuple(t.items[i]))
            && (r.kind != t.kind ==> r.kind == List)
  {
    var rs := RedactAll(t.items, redact).value;
    forall i | 0 <= i < |t.items| ensures Settable(rs[i]) <==> Settable(t.items[i]) {
      RaisesExactly(t.items[i], redact);
    }
  }
}
