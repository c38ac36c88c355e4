/** The single-use WebSocket ticket store: a bounded, expiring, insertion-ordered table.

    The Python dict is modelled as what it is, an insertion-ordered association list: assigning an
    existing key keeps its place, a new key goes last, and `min` over it returns the first minimum. */
module WsTickets {
  const TTL_SECONDS: real := 30.0
  const MAX_TICKETS: nat := 1000

  type Ticket = string

  datatype Entry = Entry(ticket: Ticket, expiry: real)

  type Table = seq<Entry>

  // ---------------------------------------------------------------- dict operations

  ghost predicate Distinct(d: Table) {
    forall i, j :: 0 <= i < j < |d| ==> d[i].ticket != d[j].ticket
  }

  function Keys(d: Table): set<Ticket> {
    set e | e in d :: e.ticket
  }

  function ToSet(ts: seq<Ticket>): set<Ticket> {
    set t | t in ts
  }

  function IndexOf(d: Table, t: Ticket): (i: nat)
    requires t in Keys(d)
    ensures i < |d| && d[i].ticket == t
  {
    if d[0].ticket == t then 0 else
      assert t in Keys(d[1..]) by {
        var e :| e in d && e.ticket == t;
        assert e in d[1..];
      }
      IndexOf(d[1..], t) + 1
  }

  /** `d` without the keys in `ks`, the rest in order. */
  function Without(d: Table, ks: set<Ticket>): (r: Table)
    ensures forall e :: e in r <==> e in d && e.ticket !in ks
    ensures |r| <= |d|
    ensures Distinct(d) ==> Distinct(r)
  {
    if d == [] then []
    else if d[0].ticket in ks then Without(d[1..], ks)
    else [d[0]] + Without(d[1..], ks)
  }

  /** `d[t] := expiry`. */
  function Assign(d: Table, t: Ticket, expiry: real): (r: Table)
    ensures Keys(r) == Keys(d) + {t}
    ensures Distinct(d) ==> Distinct(r)
  {
    if t in Keys(d) then
      var i := IndexOf(d, t);
      var r := d[i := Entry(t, expiry)];
      assert Keys(r) == Keys(d) + {t} by {
        forall u | u in Keys(d) ensures u in Keys(r) {
          var k := IndexOf(d, u);
          assert r[k].ticket == u && r[k] in r;
        }
        assert r[i] in r;
      }
      r
    else
      var r := d + [Entry(t, expiry)];
      assert forall e :: e in r <==> e in d || e == Entry(t, expiry);
      r
  }

  /** The entries not yet expired at `now`: an entry still counts at the instant it expires. */
  function Live(d: Table, now: real): (r: Table)
    ensures forall e :: e in r <==> e in d && e.expiry >= now
    ensures |r| <= |d|
    ensures Distinct(d) ==> Distinct(r)
  {
    if d == [] then []
    else if d[0].expiry < now then Live(d[1..], now)
    else [d[0]] + Live(d[1..], now)
  }

  /** Python's `min(d, key=d.get)`: the first entry with the least expiry. */
  function SoonestIndex(d: Table): (i: nat)
    requires d != []
    ensures i < |d|
    ensures forall k :: 0 <= k < |d| ==> d[i].expiry <= d[k].expiry
    ensures forall k :: 0 <= k < i ==> d[i].expiry < d[k].expiry
  {
    if |d| == 1 then 0
    else
      var i := SoonestIndex(d[1..]) + 1;
      assert d[1..][i - 1] == d[i];
      assert forall k :: 1 <= k < |d| ==> d[k] == d[1..][k - 1];
      if d[0].expiry <= d[i].expiry then 0 else i
  }

  // ---------------------------------------------------------------- what the two calls do

  function AfterMint(d: Table, now: real, t: Ticket): Table {
    var live := Live(d, now);
    var room := if |live| >= MAX_TICKETS then Without(live, {live[SoonestIndex(live)].ticket}) else live;
    Assign(room, t, now + TTL_SECONDS)
  }

  function AfterConsume(d: Table, now: real, t: Ticket): Table {
    if t == "" then d else Without(Live(d, now), {t})
  }

  /** Does the store accept `t` at `now`? */
  predicate Accepts(d: Table, now: real, t: Ticket) {
    t != "" && exists e :: e in d && e.ticket == t && e.expiry >= now
  }

  // ---------------------------------------------------------------- the module's functions

  class TicketStore {
    var tickets: Table

    constructor ()
      ensures tickets == []
    {
      tickets := [];
    }

    /** `_prune`: collect the expired keys first, then pop them one by one. */
    method Prune(now: real)
      requires Distinct(tickets)
      modifies this
      ensures tickets == Live(old(tickets), now)
    {
      ghost var d := tickets;
      var expired := ExpiredKeys(tickets, now);
      WithoutNothing(d);
      assert ToSet(expired[..0]) == {};
      for i := 0 to |expired|
        invariant tickets == Without(d, ToSet(expired[..i]))
      {
        WithoutTwice(d, ToSet(expired[..i]), {expired[i]});
        assert expired[..i + 1] == expired[..i] + [expired[i]];
        assert ToSet(expired[..i + 1]) == ToSet(expired[..i]) + {expired[i]};
        tickets := Without(tickets, {expired[i]});
      }
      assert expired[..|expired|] == expired;
      WithoutExpiredIsLive(d, now, ToSet(expired));
    }

    /** `mint`. `token` is what `secrets.token_urlsafe` returned, `now` what `time.monotonic` returned. */
    method Mint(now: real, token: Ticket) returns (ticket: Ticket)
      requires Distinct(tickets)
      modifies this
      ensures ticket == token
      ensures tickets == AfterMint(old(tickets), now, token)
      ensures Distinct(tickets)
    {
      Prune(now);
      if |tickets| >= MAX_TICKETS {
        var oldest := tickets[SoonestIndex(tickets)].ticket;
        tickets := Without(tickets, {oldest});
      }
      ticket := token;
      tickets := Assign(tickets, ticket, now + TTL_SECONDS);
    }

    /** `consume`: true only if the ticket was there and unexpired; it is gone afterwards either way. */
    method Consume(now: real, ticket: Ticket) returns (accepted: bool)
      requires Distinct(tickets)
      modifies this
      ensures accepted == Accepts(old(tickets), now, ticket)
      ensures tickets == AfterConsume(old(tickets), now, ticket)
      ensures Distinct(tickets)
    {
      if ticket == "" {
        return false;
      }
      Prune(now);
      var expiry: real := 0.0;
      var found := ticket in Keys(tickets);
      if found {
        expiry := tickets[IndexOf(tickets, ticket)].expiry;
      }
      tickets := Without(tickets, {ticket});
      accepted := found && expiry >= now;
    }
  }

  /** The list comprehension in `_prune`. */
  method ExpiredKeys(d: Table, now: real) returns (expired: seq<Ticket>)
    requires Distinct(d)
    ensures forall i :: 0 <= i < |d| ==> (d[i].ticket in ToSet(expired) <==> d[i].expiry < now)
    ensures forall t :: t in expired ==> t in Keys(d)
  {
    expired := [];
    for i := 0 to |d|
      invariant forall t :: t in expired ==> exists k :: 0 <= k < i && d[k].ticket == t
      invariant forall k :: 0 <= k < i ==> (d[k].ticket in expired <==> d[k].expiry < now)
    {
      if d[i].expiry < now {
        expired := expired + [d[i].ticket];
      }
    }
  }

  lemma {:induction false} WithoutNothing(d: Table)
    ensures Without(d, {}) == d
  {
    if d != [] { WithoutNothing(d[1..]); }
  }

  lemma {:induction false} WithoutTwice(d: Table, a: set<Ticket>, b: set<Ticket>)
    ensures Without(Without(d, a), b) == Without(d, a + b)
  {
    if d != [] {
      WithoutTwice(d[1..], a, b);
      if d[0].ticket !in a {
        assert Without(d, a)[1..] == Without(d[1..], a);
      }
    }
  }

  /** Popping exactly the keys of the expired entries leaves exactly the live entries. */
  lemma {:induction false} WithoutExpiredIsLive(d: Table, now: real, ks: set<Ticket>)
    requires forall i :: 0 <= i < |d| ==> (d[i].ticket in ks <==> d[i].expiry < now)
    ensures Without(d, ks) == Live(d, now)
  {
    if d != [] {
      assert forall i :: 0 <= i < |d[1..]| ==> d[1..][i] == d[i + 1];
      WithoutExpiredIsLive(d[1..], now, ks);
    }
  }
}
