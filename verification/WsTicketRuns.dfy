/** What the ticket store guarantees over whole runs of `mint` and `consume`. */
module WsTicketRuns {
  import opened WsTickets

  datatype Op = Mint(now: real, ticket: Ticket) | Consume(now: real, ticket: Ticket)

  function Apply(d: Table, op: Op): Table {
    match op
    case Mint(now, t) => AfterMint(d, now, t)
    case Consume(now, t) => AfterConsume(d, now, t)
  }

  function Run(d: Table, ops: seq<Op>): Table
    decreases ops
  {
    if ops == [] then d else Run(Apply(d, ops[0]), ops[1..])
  }

  function Mints(ops: seq<Op>): nat {
    if ops == [] then 0 else (if ops[0].Mint? then 1 else 0) + Mints(ops[1..])
  }

  /** The clock never goes back, starting from `from`. */
  ghost predicate Ticking(ops: seq<Op>, from: real) {
    ops == [] || (from <= ops[0].now && Ticking(ops[1..], ops[0].now))
  }

  ghost predicate MintedIn(ops: seq<Op>, t: Ticket) {
    exists i :: 0 <= i < |ops| && ops[i].Mint? && ops[i].ticket == t
  }

  ghost predicate ConsumedIn(ops: seq<Op>, t: Ticket) {
    exists i :: 0 <= i < |ops| && ops[i].Consume? && ops[i].ticket == t
  }

  /** The token generator never repeats itself, never returns a key of `d`, and never the empty string. */
  ghost predicate Fresh(d: Table, ops: seq<Op>) {
    && (forall i :: 0 <= i < |ops| && ops[i].Mint? ==> ops[i].ticket !in Keys(d) && ops[i].ticket != "")
    && (forall i, j :: 0 <= i < j < |ops| && ops[i].Mint? && ops[j].Mint? ==> ops[i].ticket != ops[j].ticket)
  }

  lemma {:induction false} RunAppend(d: Table, a: seq<Op>, b: seq<Op>)
    ensures Run(d, a + b) == Run(Run(d, a), b)
    decreases a
  {
    if a == [] {
      assert a + b == b;
    } else {
      assert (a + b)[1..] == a[1..] + b;
      RunAppend(Apply(d, a[0]), a[1..], b);
    }
  }

  // ---------------------------------------------------------------- bounds that need no assumption

  /** Whatever the tokens and whatever the clock, the table never outgrows its bound. */
  lemma {:induction false} BoundedAlways(d: Table, ops: seq<Op>)
    requires Distinct(d) && |d| <= 1000
    ensures Distinct(Run(d, ops)) && |Run(d, ops)| <= 1000
    decreases ops
  {
    if ops != [] {
      match ops[0] {
        case Mint(now, t) => MintBounded(d, now, t);
        case Consume(now, t) =>
      }
      BoundedAlways(Apply(d, ops[0]), ops[1..]);
    }
  }

  lemma MintBounded(d: Table, now: real, t: Ticket)
    requires Distinct(d) && |d| <= MAX_TICKETS
    ensures Distinct(AfterMint(d, now, t)) && |AfterMint(d, now, t)| <= MAX_TICKETS
  {
    var live := Live(d, now);
    if |live| >= MAX_TICKETS {
      WithoutShrinks(live, SoonestIndex(live));
    }
  }

  lemma {:induction false} WithoutShrinks(d: Table, i: nat)
    requires i < |d|
    ensures |Without(d, {d[i].ticket})| < |d|
  {
    if i > 0 && d[0].ticket != d[i].ticket {
      assert d[1..][i - 1] == d[i];
      WithoutShrinks(d[1..], i - 1);
    }
  }

  /** How often `t` is accepted during the run. */
  function Acceptances(d: Table, ops: seq<Op>, t: Ticket): nat
    decreases ops
  {
    if ops == [] then 0
    else (if ops[0].Consume? && ops[0].ticket == t && Accepts(d, ops[0].now, t) then 1 else 0)
         + Acceptances(Apply(d, ops[0]), ops[1..], t)
  }

  function MintsOf(ops: seq<Op>, t: Ticket): nat {
    if ops == [] then 0 else (if ops[0].Mint? && ops[0].ticket == t then 1 else 0) + MintsOf(ops[1..], t)
  }

  function Stock(d: Table, t: Ticket): nat {
    if t in Keys(d) then 1 else 0
  }

  /** Single use as a conservation law: acceptances of `t`, plus a ticket still in stock, never exceed the
      mints of `t`, plus the one that was in stock. */
  lemma {:induction false} SingleUse(d: Table, ops: seq<Op>, t: Ticket)
    requires Distinct(d)
    ensures Acceptances(d, ops, t) + Stock(Run(d, ops), t) <= MintsOf(ops, t) + Stock(d, t)
    decreases ops
  {
    if ops != [] {
      var next := Apply(d, ops[0]);
      match ops[0] {
        case Mint(now, u) => KeysAfterMint(d, now, u);
        case Consume(now, u) => KeysAfterConsume(d, now, u);
      }
      SingleUse(next, ops[1..], t);
    }
  }

  lemma KeysAfterMint(d: Table, now: real, t: Ticket)
    ensures Keys(AfterMint(d, now, t)) <= Keys(d) + {t}
  {
    assert Keys(Live(d, now)) <= Keys(d);
  }

  lemma KeysAfterConsume(d: Table, now: real, t: Ticket)
    ensures Keys(AfterConsume(d, now, t)) <= Keys(d)
    ensures t != "" ==> t !in Keys(AfterConsume(d, now, t))
  {
  }

  /** `e` was put into the table by a mint in `ops` after which its ticket was never presented again. */
  ghost predicate PutBy(ops: seq<Op>, e: Entry) {
    exists i :: 0 <= i < |ops| && ops[i] == Mint(e.expiry - TTL_SECONDS, e.ticket) &&
        !ConsumedIn(ops[i + 1..], e.ticket)
  }

  lemma ConsumedInCons(ops: seq<Op>, t: Ticket)
    requires ops != []
    ensures ConsumedIn(ops, t) <==> (ops[0].Consume? && ops[0].ticket == t) || ConsumedIn(ops[1..], t)
  {
    assert forall i :: 1 <= i < |ops| ==> ops[i] == ops[1..][i - 1];
  }

  lemma PutByCons(ops: seq<Op>, e: Entry)
    requires ops != [] && PutBy(ops[1..], e)
    ensures PutBy(ops, e)
  {
    var rest := ops[1..];
    var i :| 0 <= i < |rest| && rest[i] == Mint(e.expiry - TTL_SECONDS, e.ticket) &&
        !ConsumedIn(rest[i + 1..], e.ticket);
    assert ops[i + 1] == rest[i] && ops[i + 1 + 1..] == rest[i + 1..];
  }

  /** Every entry in the table after a run was put there by a mint after which its ticket was never
      presented again, and carries exactly that mint's expiry; or it was there from the start. */
  lemma {:induction false} Provenance(d: Table, ops: seq<Op>, e: Entry)
    requires Distinct(d) && e in Run(d, ops) && e.ticket != ""
    ensures PutBy(ops, e) || (e in d && !ConsumedIn(ops, e.ticket))
    decreases ops
  {
    if ops != [] {
      var op, rest := ops[0], ops[1..];
      Provenance(Apply(d, op), rest, e);
      ConsumedInCons(ops, e.ticket);
      if PutBy(rest, e) {
        PutByCons(ops, e);
      } else if op.Mint? {
        EntryAfterMint(d, op.now, op.ticket, e);
        assert ops[0 + 1..] == rest;
      }
    }
  }

  lemma EntryAfterMint(d: Table, now: real, t: Ticket, e: Entry)
    requires Distinct(d) && e in AfterMint(d, now, t)
    ensures (e in d && e.expiry >= now) || e == Entry(t, now + TTL_SECONDS)
  {
  }

  /** An accepted ticket was minted at most 30 seconds earlier on the store's clock and not presented since. */
  lemma {:induction false} AcceptedWithinTtl(ops: seq<Op>, c: real, t: Ticket)
    requires Accepts(Run([], ops), c, t)
    ensures exists i ::
              && 0 <= i < |ops| && ops[i].Mint? && ops[i].ticket == t && c <= ops[i].now + 30.0
              && !ConsumedIn(ops[i + 1..], t)
  {
    var e :| e in Run([], ops) && e.ticket == t && e.expiry >= c;
    Provenance([], ops, e);
  }

  // ---------------------------------------------------------------- with fresh tokens and a clock that never goes back

  /** Expiry order is insertion order. */
  ghost predicate Sorted(d: Table) {
    forall i, j :: 0 <= i < j < |d| ==> d[i].expiry <= d[j].expiry
  }

  /** Sorted, within bounds, and nothing expires later than a ticket minted now would. */
  ghost predicate Orderly(d: Table, now: real) {
    && Distinct(d) && |d| <= MAX_TICKETS && Sorted(d)
    && (forall i :: 0 <= i < |d| ==> d[i].expiry <= now + TTL_SECONDS)
  }

  /** In an orderly table pruning drops a prefix. */
  lemma {:induction false} LiveIsSuffix(d: Table, now: real) returns (k: nat)
    requires Sorted(d)
    ensures k <= |d| && Live(d, now) == d[k..]
    ensures forall i :: 0 <= i < |d| ==> (d[i].expiry >= now <==> k <= i)
  {
    if d == [] {
      k := 0;
    } else if d[0].expiry < now {
      var k1 := LiveIsSuffix(d[1..], now);
      k := k1 + 1;
      assert Live(d, now) == d[1..][k1..];
      hide Live, Sorted;
      forall i | 0 <= i < |d| ensures d[i].expiry >= now <==> k <= i {
        if i > 0 { assert d[i] == d[1..][i - 1]; }
      }
    } else {
      LiveIsAll(d, now);
      k := 0;
    }
  }

  lemma {:induction false} LiveIsAll(d: Table, now: real)
    requires forall i :: 0 <= i < |d| ==> d[i].expiry >= now
    ensures Live(d, now) == d
  {
    if d != [] { LiveIsAll(d[1..], now); }
  }

  lemma {:induction false} WithoutFirst(d: Table)
    requires d != [] && Distinct(d)
    ensures Without(d, {d[0].ticket}) == d[1..]
  {
    WithoutAbsent(d[1..], {d[0].ticket});
  }

  lemma {:induction false} WithoutAbsent(d: Table, ks: set<Ticket>)
    requires forall i :: 0 <= i < |d| ==> d[i].ticket !in ks
    ensures Without(d, ks) == d
  {
    if d != [] { WithoutAbsent(d[1..], ks); }
  }

  lemma {:induction false} LiveOrderly(d: Table, before: real, now: real)
    requires Orderly(d, before) && before <= now
    ensures Orderly(Live(d, now), now)
  {
    var k := LiveIsSuffix(d, now);
  }

  /** `room` is the table `mint` appends to: the expired prefix dropped, then the oldest survivor if still full. */
  function RoomMade(d: Table, now: real): Table {
    var live := Live(d, now);
    if |live| == MAX_TICKETS then live[1..] else live
  }

  lemma {:induction false} RoomOrderly(d: Table, before: real, now: real)
    requires Orderly(d, before) && before <= now
    ensures Orderly(RoomMade(d, now), now) && |RoomMade(d, now)| < MAX_TICKETS
    ensures forall e :: e in RoomMade(d, now) ==> e in Live(d, now)
  {
    LiveOrderly(d, before, now);
    if |Live(d, now)| == MAX_TICKETS { TailOrderly(Live(d, now), now); }
  }

  lemma TailOrderly(d: Table, now: real)
    requires Orderly(d, now) && d != []
    ensures Orderly(d[1..], now) && Keys(d[1..]) <= Keys(d)
  {
  }

  /** Eviction always removes the oldest: `mint` drops the expired prefix, then the first entry if the table
      is still full, and puts the new ticket last. */
  lemma MintEvictsOldest(d: Table, before: real, now: real, t: Ticket)
    requires Orderly(d, before) && before <= now && t !in Keys(d)
    ensures AfterMint(d, now, t) == RoomMade(d, now) + [Entry(t, now + TTL_SECONDS)]
    ensures Orderly(AfterMint(d, now, t), now)
  {
    RoomOrderly(d, before, now);
    LiveOrderly(d, before, now);
    assert AfterMint(d, now, t) == Assign(RoomMade(d, now), t, now + TTL_SECONDS) by {
      if |Live(d, now)| == MAX_TICKETS { SoonestIsFirst(Live(d, now)); }
    }
    forall e | e in RoomMade(d, now) ensures e.ticket != t {
      assert e in Live(d, now) && e in d;
    }
    AssignNew(RoomMade(d, now), t, now + TTL_SECONDS);
    AppendOrderly(RoomMade(d, now), now, t);
  }

  lemma {:induction false} SoonestIsFirst(d: Table)
    requires d != [] && Distinct(d) && Sorted(d)
    ensures Without(d, {d[SoonestIndex(d)].ticket}) == d[1..]
  {
    var s := SoonestIndex(d);
    assert s == 0 by { assert d[0].expiry <= d[s].expiry; }
    WithoutFirst(d);
  }

  lemma AssignNew(d: Table, t: Ticket, expiry: real)
    requires t !in Keys(d)
    ensures Assign(d, t, expiry) == d + [Entry(t, expiry)]
  {
  }

  lemma AppendOrderly(d: Table, now: real, t: Ticket)
    requires Orderly(d, now) && |d| < MAX_TICKETS && forall e :: e in d ==> e.ticket != t
    ensures Orderly(d + [Entry(t, now + TTL_SECONDS)], now)
  {
  }

  lemma ConsumeOrderly(d: Table, before: real, now: real, t: Ticket)
    requires Orderly(d, before) && before <= now
    ensures Orderly(AfterConsume(d, now, t), now)
  {
    if t != "" {
      LiveOrderly(d, before, now);
      WithoutOrderly(Live(d, now), now, {t});
    }
  }

  lemma {:induction false} WithoutOrderly(d: Table, now: real, ks: set<Ticket>)
    requires Orderly(d, now)
    ensures Orderly(Without(d, ks), now)
  {
    if d != [] {
      TailOrderly(d, now);
      WithoutOrderly(d[1..], now, ks);
      var r := Without(d[1..], ks);
      if d[0].ticket !in ks {
        forall e | e in r ensures d[0].expiry <= e.expiry && d[0].ticket != e.ticket {
          assert e in d[1..];
        }
        ConsOrderly(d[0], r, now);
      }
    }
  }

  lemma ConsOrderly(first: Entry, r: Table, now: real)
    requires Orderly(r, now) && |r| < MAX_TICKETS && first.expiry <= now + TTL_SECONDS
    requires forall e :: e in r ==> first.expiry <= e.expiry && first.ticket != e.ticket
    ensures Orderly([first] + r, now)
  {
  }

  /** Consuming one ticket invalidates no other: every other unexpired entry stays. */
  lemma ConsumeLeavesOthers(d: Table, now: real, t: Ticket, e: Entry)
    requires e in d && e.expiry >= now && e.ticket != t
    ensures e in AfterConsume(d, now, t)
  {
  }

  /** What a presentation leaves: of an empty ticket, everything; of any other, exactly the unexpired entries of the
      other tickets. */
  lemma ConsumeLeavesExactly(d: Table, now: real, t: Ticket)
    ensures t == "" ==> AfterConsume(d, now, t) == d && !Accepts(d, now, t)
    ensures t != "" ==> forall e :: e in AfterConsume(d, now, t) <==> e in d && e.expiry >= now && e.ticket != t
  {
  }

  /** What a mint leaves: the new ticket, good for 30 seconds, behind the unexpired entries, all of them unless that
      would make 1001. */
  lemma MintLeavesExactly(d: Table, before: real, now: real, t: Ticket)
    requires Orderly(d, before) && before <= now && t !in Keys(d)
    ensures var after := AfterMint(d, now, t); var last := |after| - 1;
            && last >= 0 && after[last] == Entry(t, now + 30.0)
            && (forall e :: e in after[..last] ==> e in d && e.expiry >= now)
            && (forall e :: e in d && e.expiry >= now && e !in after[..last] ==>
                 last == 999 && forall k :: 0 <= k < last ==> e.expiry <= after[k].expiry)
  {
    MintEvictsOldest(d, before, now, t);
    LiveOrderly(d, before, now);
    var after := AfterMint(d, now, t);
    assert after[..|after| - 1] == RoomMade(d, now);
  }

  // ---------------------------------------------------------------- survival

  /** How many entries stand behind `t` in the table. */
  function Behind(d: Table, t: Ticket): nat {
    if d == [] then 0 else if d[0].ticket == t then |d| - 1 else Behind(d[1..], t)
  }

  lemma {:induction false} BehindIndex(d: Table, t: Ticket, i: nat)
    requires Distinct(d) && i < |d| && d[i].ticket == t
    ensures Behind(d, t) == |d| - 1 - i
  {
    if i > 0 { BehindIndex(d[1..], t, i - 1); }
  }

  lemma {:induction false} BehindWithout(d: Table, ks: set<Ticket>, t: Ticket)
    requires t !in ks
    ensures Behind(Without(d, ks), t) <= Behind(d, t)
  {
    if d != [] {
      BehindWithout(d[1..], ks, t);
    }
  }

  /** Pruning keeps a live ticket and everything behind it. */
  lemma LiveKeeps(d: Table, before: real, now: real, e: Entry) returns (i: nat)
    requires Orderly(d, before) && e in d && now <= e.expiry
    ensures i < |Live(d, now)| && Live(d, now)[i] == e
    ensures Behind(d, e.ticket) == |Live(d, now)| - 1 - i
  {
    var k := LiveIsSuffix(d, now);
    var j :| 0 <= j < |d| && d[j] == e;
    BehindIndex(d, e.ticket, j);
    i := j - k;
  }

  /** A mint keeps an unexpired ticket that has fewer than `MAX_TICKETS - 1` entries behind it, and puts one more
      there. */
  lemma {:induction false} MintKeeps(d: Table, before: real, now: real, t: Ticket, e: Entry)
    requires Orderly(d, before) && before <= now <= e.expiry && e in d
    requires t !in Keys(d) && Behind(d, e.ticket) < MAX_TICKETS - 1
    ensures e in AfterMint(d, now, t) && Behind(AfterMint(d, now, t), e.ticket) == Behind(d, e.ticket) + 1
  {
    var at := RoomKeeps(d, before, now, e);
    MintEvictsOldest(d, before, now, t);
    BehindInRoom(RoomMade(d, now), Entry(t, now + TTL_SECONDS), AfterMint(d, now, t), at);
  }

  lemma RoomKeeps(d: Table, before: real, now: real, e: Entry) returns (at: nat)
    requires Orderly(d, before) && before <= now <= e.expiry && e in d && Behind(d, e.ticket) < MAX_TICKETS - 1
    ensures at < |RoomMade(d, now)| && RoomMade(d, now)[at] == e
    ensures Behind(d, e.ticket) == |RoomMade(d, now)| - 1 - at
  {
    var i := LiveKeeps(d, before, now, e);
    at := if |Live(d, now)| == MAX_TICKETS then i - 1 else i;
  }

  lemma {:induction false} BehindInRoom(room: Table, last: Entry, r: Table, at: nat)
    requires r == room + [last] && Distinct(r) && at < |room|
    ensures room[at] in r && Behind(r, room[at].ticket) == |room| - at
  {
    assert r[at] == room[at];
    BehindIndex(r, room[at].ticket, at);
  }

  lemma {:induction false} ConsumeKeeps(d: Table, before: real, now: real, t: Ticket, e: Entry)
    requires Orderly(d, before) && before <= now <= e.expiry && e in d && t != e.ticket
    ensures e in AfterConsume(d, now, t) && Behind(AfterConsume(d, now, t), e.ticket) <= Behind(d, e.ticket)
  {
    if t != "" {
      LiveOrderly(d, before, now);
      var i := LiveKeeps(d, before, now, e);
      BehindIndex(Live(d, now), e.ticket, i);
      BehindWithout(Live(d, now), {t}, e.ticket);
    }
  }

  lemma FreshStep(d: Table, ops: seq<Op>)
    requires ops != [] && Fresh(d, ops)
    ensures Fresh(Apply(d, ops[0]), ops[1..])
  {
    match ops[0] {
      case Mint(now, t) => KeysAfterMint(d, now, t);
      case Consume(now, t) => KeysAfterConsume(d, now, t);
    }
  }

  /** A ticket outlives every run in which it is not presented, not expired, and in which fewer mints happen
      than would fill the table behind it. */
  lemma {:induction false} Survives(d: Table, before: real, ops: seq<Op>, e: Entry)
    requires Orderly(d, before) && e in d
    requires Ticking(ops, before) && Fresh(d, ops) && !ConsumedIn(ops, e.ticket)
    requires forall i :: 0 <= i < |ops| ==> ops[i].now <= e.expiry
    requires Behind(d, e.ticket) + Mints(ops) < MAX_TICKETS
    ensures e in Run(d, ops)
    decreases ops
  {
    if ops != [] {
      var op, rest := ops[0], ops[1..];
      match op {
        case Mint(now, t) => MintKeeps(d, before, now, t, e); MintEvictsOldest(d, before, now, t);
        case Consume(now, t) => ConsumeKeeps(d, before, now, t, e); ConsumeOrderly(d, before, now, t);
      }
      ConsumedInCons(ops, e.ticket);
      FreshStep(d, ops);
      assert forall i :: 0 <= i < |rest| ==> rest[i] == ops[i + 1];
      Survives(Apply(d, op), op.now, rest, e);
    }
  }

  lemma {:induction false} StepOrderly(d: Table, before: real, ops: seq<Op>)
    requires ops != [] && Orderly(d, before) && Ticking(ops, before) && Fresh(d, ops)
    ensures before <= ops[0].now && Orderly(Apply(d, ops[0]), ops[0].now)
    ensures Ticking(ops[1..], ops[0].now) && Fresh(Apply(d, ops[0]), ops[1..])
  {
    match ops[0] {
      case Mint(now, t) => MintEvictsOldest(d, before, now, t);
      case Consume(now, t) => ConsumeOrderly(d, before, now, t);
    }
    FreshStep(d, ops);
  }

  lemma {:induction false} RunOrderly(d: Table, before: real, ops: seq<Op>) returns (after: real)
    requires Orderly(d, before) && Ticking(ops, before) && Fresh(d, ops)
    ensures before <= after && Orderly(Run(d, ops), after)
    ensures forall i :: 0 <= i < |ops| ==> ops[i].now <= after
    ensures ops != [] ==> after == ops[|ops| - 1].now
    ensures ops == [] ==> after == before
    decreases ops
  {
    if ops == [] {
      after := before;
    } else {
      StepOrderly(d, before, ops);
      hide Orderly, Fresh, Apply, Ticking;
      after := RunOrderly(Apply(d, ops[0]), ops[0].now, ops[1..]);
      assert forall i :: 1 <= i < |ops| ==> ops[i] == ops[1..][i - 1];
    }
  }

  lemma {:induction false} TickingSplit(a: seq<Op>, b: seq<Op>, from: real)
    requires Ticking(a + b, from)
    ensures Ticking(a, from)
    ensures Ticking(b, if a == [] then from else a[|a| - 1].now)
    ensures b != [] ==> forall i :: 0 <= i < |a| ==> a[i].now <= b[0].now
  {
    if a == [] {
      assert a + b == b;
    } else {
      assert (a + b)[1..] == a[1..] + b;
      TickingSplit(a[1..], b, a[0].now);
      assert forall i :: 1 <= i < |a| ==> a[i] == a[1..][i - 1];
      if b != [] && |a| == 1 { assert (a + b)[1..] == b; }
    }
  }

  /** The store, exactly: with fresh tokens and a clock that never goes back, a ticket minted at `m` and
      presented at `c` after at most 999 later mints is accepted if and only if it was not presented in
      between and no more than 30 seconds have passed. */
  lemma {:induction false} AcceptedExactly(pre: seq<Op>, m: real, t: Ticket, mid: seq<Op>, c: real, from: real)
    requires Ticking(pre + ([Mint(m, t)] + (mid + [Consume(c, t)])), from)
    requires Fresh([], pre + ([Mint(m, t)] + mid))
    requires Mints(mid) < 1000
    ensures Accepts(Run([], pre + ([Mint(m, t)] + mid)), c, t) <==> c <= m + 30.0 && !ConsumedIn(mid, t)
  {
    var minted := pre + ([Mint(m, t)] + mid);
    assert minted[|pre|] == Mint(m, t) && minted[|pre| + 1..] == mid;
    if Accepts(Run([], minted), c, t) {
      AcceptedWithinTtl(minted, c, t);
      var i :| 0 <= i < |minted| && minted[i].Mint? && minted[i].ticket == t && c <= minted[i].now + TTL_SECONDS &&
          !ConsumedIn(minted[i + 1..], t);
      assert i == |pre|;
    }
    if c <= m + TTL_SECONDS && !ConsumedIn(mid, t) {
      var tail := [Mint(m, t)] + (mid + [Consume(c, t)]);
      TickingSplit(pre, tail, from);
      assert tail[1..] == mid + [Consume(c, t)];
      TickingSplit(mid, [Consume(c, t)], m);
      FreshSplit([], pre, [Mint(m, t)] + mid);
      var at := RunOrderly([], from, pre);
      var d := Run([], pre);
      MintThenSurvives(d, at, m, t, mid);
      RunAppend([], pre, [Mint(m, t)] + mid);
    }
  }

  lemma {:induction false} MintThenSurvives(d: Table, before: real, m: real, t: Ticket, mid: seq<Op>)
    requires Orderly(d, before) && before <= m && Ticking(mid, m) && Fresh(d, [Mint(m, t)] + mid)
    requires Mints(mid) < MAX_TICKETS && !ConsumedIn(mid, t)
    requires forall i :: 0 <= i < |mid| ==> mid[i].now <= m + TTL_SECONDS
    ensures Entry(t, m + TTL_SECONDS) in Run(d, [Mint(m, t)] + mid)
  {
    var ops := [Mint(m, t)] + mid;
    assert ops[0] == Mint(m, t) && ops[1..] == mid;
    MintEvictsOldest(d, before, m, t);
    FreshStep(d, ops);
    var d1 := AfterMint(d, m, t);
    BehindIndex(d1, t, |d1| - 1);
    Survives(d1, m, mid, Entry(t, m + TTL_SECONDS));
  }

  lemma {:induction false} FreshSplit(d: Table, a: seq<Op>, b: seq<Op>)
    requires Fresh(d, a + b)
    ensures Fresh(d, a) && Fresh(Run(d, a), b)
  {
    var all := a + b;
    assert forall i :: 0 <= i < |a| ==> all[i] == a[i];
    assert forall i :: 0 <= i < |b| ==> all[|a| + i] == b[i];
    RunKeys(d, a);
  }

  lemma {:induction false} RunKeys(d: Table, ops: seq<Op>)
    ensures forall t :: t in Keys(Run(d, ops)) ==> t in Keys(d) || MintedIn(ops, t)
    decreases ops
  {
    if ops != [] {
      match ops[0] {
        case Mint(now, t) => KeysAfterMint(d, now, t);
        case Consume(now, t) => KeysAfterConsume(d, now, t);
      }
      RunKeys(Apply(d, ops[0]), ops[1..]);
      forall t | t in Keys(Run(d, ops)) ensures t in Keys(d) || MintedIn(ops, t) {
        if MintedIn(ops[1..], t) {
          var i :| 0 <= i < |ops[1..]| && ops[1..][i].Mint? && ops[1..][i].ticket == t;
          assert ops[i + 1] == ops[1..][i];
        } else if t !in Keys(d) {
          assert ops[0].Mint? && ops[0].ticket == t;
        }
      }
    }
  }

  // ---------------------------------------------------------------- the bound of 999 is tight

  ghost predicate AllMintsAt(ops: seq<Op>, now: real) {
    forall i :: 0 <= i < |ops| ==> ops[i].Mint? && ops[i].now == now
  }

  /** A thousand further mints at the very instant of its own mint do push a ticket out. */
  lemma {:induction false} SurvivalBoundTight(d: Table, before: real, now: real, t: Ticket, ops: seq<Op>)
    requires Orderly(d, before) && before <= now && Fresh(d, [Mint(now, t)] + ops)
    requires AllMintsAt(ops, now) && |ops| == 1000
    ensures t in Keys(AfterMint(d, now, t)) && t !in Keys(Run(AfterMint(d, now, t), ops))
  {
    var all := [Mint(now, t)] + ops;
    assert all[0] == Mint(now, t) && all[1..] == ops;
    MintEvictsOldest(d, before, now, t);
    var d1 := AfterMint(d, now, t);
    assert d1[|d1| - 1] in d1;
    var k := LiveIsSuffix(d, now);
    FreshStep(d, all);
    BehindIndex(d1, t, |d1| - 1);
    PushedBack(d1, now, t, ops);
  }

  ghost predicate AllLive(d: Table, now: real) {
    forall i :: 0 <= i < |d| ==> d[i].expiry >= now
  }

  lemma {:induction false} PushedBack(d: Table, now: real, t: Ticket, ops: seq<Op>)
    requires Orderly(d, now) && Fresh(d, ops) && AllMintsAt(ops, now) && AllLive(d, now)
    requires t in Keys(d) && Behind(d, t) + |ops| >= MAX_TICKETS
    ensures t !in Keys(Run(d, ops))
    decreases ops
  {
    BehindIndex(d, t, IndexOf(d, t));
    MintPushes(d, now, t, ops[0].ticket);
    FreshStep(d, ops);
    var d1 := Apply(d, ops[0]);
    if t in Keys(d1) {
      PushedBack(d1, now, t, ops[1..]);
    } else {
      RunKeys(d1, ops[1..]);
      NotMintedAgain(d, ops, t);
    }
  }

  lemma NotMintedAgain(d: Table, ops: seq<Op>, t: Ticket)
    requires ops != [] && Fresh(d, ops) && t in Keys(d)
    ensures !MintedIn(ops[1..], t)
  {
    assert forall i :: 0 <= i < |ops[1..]| ==> ops[1..][i] == ops[i + 1];
  }

  lemma {:induction false} MintPushes(d: Table, now: real, t: Ticket, u: Ticket)
    requires Orderly(d, now) && AllLive(d, now) && t in Keys(d) && u !in Keys(d)
    ensures Orderly(AfterMint(d, now, u), now) && AllLive(AfterMint(d, now, u), now)
    ensures t in Keys(AfterMint(d, now, u)) ==> Behind(AfterMint(d, now, u), t) == Behind(d, t) + 1
  {
    LiveIsAll(d, now);
    MintEvictsOldest(d, now, now, u);
    var room, r := RoomMade(d, now), AfterMint(d, now, u);
    RoomOfFull(d, now);
    assert r[..|r| - 1] == room;
    if t in Keys(r) {
      OneMoreBehind(d, t, r);
    }
  }

  lemma {:induction false} RoomOfFull(d: Table, now: real)
    requires Live(d, now) == d && AllLive(d, now)
    ensures RoomMade(d, now) == d || (d != [] && RoomMade(d, now) == d[1..])
    ensures AllLive(RoomMade(d, now), now)
  {
    hide Live;
  }

  lemma OneMoreBehind(d: Table, t: Ticket, d1: Table)
    requires Distinct(d) && Distinct(d1) && t in Keys(d) && t in Keys(d1) && d1 != []
    requires d1[..|d1| - 1] == d || (d != [] && d1[..|d1| - 1] == d[1..])
    requires d1[|d1| - 1].ticket !in Keys(d)
    ensures Behind(d1, t) == Behind(d, t) + 1
  {
    var at := IndexOf(d1, t);
    BehindIndex(d1, t, at);
    assert d1[at] == d1[..|d1| - 1][at];
    BehindIndex(d, t, if d1[..|d1| - 1] == d then at else at + 1);
  }
}
