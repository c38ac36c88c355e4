/** The AI circuit breaker, and the trace of calls that alone determines what it answers.

    Every reading of the clock is a parameter; `RecordFailure` reads it twice, as the source does. */
module CircuitBreaker {
  import opened Wrappers

  const FAILURE_THRESHOLD: nat := 5
  const OPEN_DURATION_SECONDS: real := 60.0

  datatype State = CLOSED | OPEN | HALF_OPEN

  datatype Event =
    | Success
    | Failure(at: real, reopened: real)
    | Request(now: real, admitted: bool)

  type Trace = seq<Event>

  // ---------------------------------------------------------------- the trace says everything

  /** Failures since the last success. */
  function Failures(h: Trace): nat {
    if h == [] then 0 else
      match Last(h)
      case Success => 0
      case Failure(_, _) => Failures(Front(h)) + 1
      case Request(_, _) => Failures(Front(h))
  }

  predicate Tripped(h: Trace) {
    Failures(h) >= FAILURE_THRESHOLD
  }

  /** A probe is out: since the trip, a request was admitted and nothing has been recorded after it. */
  predicate ProbeOut(h: Trace) {
    Tripped(h) && h != [] && Last(h).Request? && (Last(h).admitted || ProbeOut(Front(h)))
  }

  /** When the cooldown last began: at the tripping failure, and again at every failure that ends a probe. */
  function CooldownStart(h: Trace): real
    requires Tripped(h)
  {
    if Last(h).Failure? && (!Tripped(Front(h)) || ProbeOut(Front(h))) then Last(h).reopened
    else CooldownStart(Front(h))
  }

  /** The breaker's answer to a request at `now`, from the trace alone. */
  predicate Admits(h: Trace, now: real) {
    !Tripped(h) || (!ProbeOut(h) && now - CooldownStart(h) >= OPEN_DURATION_SECONDS)
  }

  function LastFailure(h: Trace): Option<real> {
    if h == [] then None else
      match Last(h)
      case Success => None
      case Failure(at, _) => Some(at)
      case Request(_, _) => LastFailure(Front(h))
  }

  function Last(h: Trace): Event
    requires h != []
  {
    h[|h| - 1]
  }

  function Front(h: Trace): Trace
    requires h != []
  {
    h[..|h| - 1]
  }

  lemma Snoc(h: Trace, e: Event)
    ensures h + [e] != [] && Last(h + [e]) == e && Front(h + [e]) == h
  {
  }

  // ---------------------------------------------------------------- the class

  class Breaker {
    var state: State
    var failureCount: nat
    var lastFailureTime: Option<real>
    var openedAt: Option<real>
    var probeInFlight: bool

    /** Every call made so far, with what it answered. */
    ghost var history: Trace

    /** The five fields are a function of the trace. */
    ghost predicate Valid()
      reads this
    {
      && failureCount == Failures(history)
      && lastFailureTime == LastFailure(history)
      && state == (if !Tripped(history) then CLOSED else if ProbeOut(history) then HALF_OPEN else OPEN)
      && openedAt == (if Tripped(history) then Some(CooldownStart(history)) else None)
      && probeInFlight == ProbeOut(history)
    }

    constructor ()
      ensures Valid() && history == []
    {
      state := CLOSED;
      failureCount := 0;
      lastFailureTime := None;
      openedAt := None;
      probeInFlight := false;
      history := [];
    }

    /** True while open with the cooldown still running; see `AllowRequest` for the authoritative answer. */
    method IsOpen(now: real) returns (open: bool)
      requires Valid()
      ensures open <==> !Admits(history, now) && !ProbeOut(history)
    {
      if state == OPEN {
        match openedAt {
          case Some(since) =>
            if now - since >= OPEN_DURATION_SECONDS {
              return false;
            }
          case None =>
        }
        return true;
      }
      return false;
    }

    method RecordSuccess()
      requires Valid()
      modifies this
      ensures Valid() && history == old(history) + [Success]
    {
      failureCount := 0;
      lastFailureTime := None;
      openedAt := None;
      probeInFlight := false;
      state := CLOSED;
      Snoc(history, Success);
      history := history + [Success];
    }

    method RecordFailure(at: real, reopened: real)
      requires Valid()
      modifies this
      ensures Valid() && history == old(history) + [Failure(at, reopened)]
    {
      Snoc(history, Failure(at, reopened));
      history := history + [Failure(at, reopened)];
      failureCount := failureCount + 1;
      lastFailureTime := Some(at);
      if state == HALF_OPEN {
        state := OPEN;
        openedAt := Some(reopened);
        probeInFlight := false;
        return;
      }
      if state == CLOSED && failureCount >= FAILURE_THRESHOLD {
        state := OPEN;
        openedAt := Some(reopened);
      }
    }

    method AllowRequest(now: real) returns (allowed: bool)
      requires Valid()
      modifies this
      ensures Valid() && allowed == Admits(old(history), now)
      ensures history == old(history) + [Request(now, allowed)]
    {
      Snoc(history, Request(now, true));
      Snoc(history, Request(now, false));
      if state == CLOSED {
        history := history + [Request(now, true)];
        return true;
      }
      if state == OPEN {
        if openedAt == None {
          assert false;  // an open breaker always knows when it opened
        }
        if now - openedAt.value >= OPEN_DURATION_SECONDS {
          state := HALF_OPEN;
          probeInFlight := true;
          history := history + [Request(now, true)];
          return true;
        }
        history := history + [Request(now, false)];
        return false;
      }
      if !probeInFlight {
        assert false;  // the source's defensive branch: unreachable, a half-open breaker always has its probe out
      }
      history := history + [Request(now, false)];
      return false;
    }
  }

  /** The failure remembered is the latest one, until a success forgets it; requests change nothing. */
  lemma {:induction false} RemembersLatest(h: Trace, e: Event, requests: Trace)
    requires forall i :: 0 <= i < |requests| ==> requests[i].Request?
    ensures e.Failure? ==> LastFailure(h + [e] + requests) == Some(e.at)
    ensures e.Success? ==> LastFailure(h + [e] + requests) == None
    decreases |requests|
  {
    if requests == [] {
      assert h + [e] + requests == h + [e];
      Snoc(h, e);
    } else {
      var last := |requests| - 1;
      RemembersLatest(h, e, requests[..last]);
      Snoc(h + [e] + requests[..last], requests[last]);
      assert h + [e] + requests == h + [e] + requests[..last] + [requests[last]];
    }
  }

  // ---------------------------------------------------------------- consecutive failures

  ghost predicate NoSuccess(h: Trace) {
    forall i :: 0 <= i < |h| ==> !h[i].Success?
  }

  function FailuresIn(h: Trace): nat {
    if h == [] then 0 else FailuresIn(h[1..]) + if h[0].Failure? then 1 else 0
  }

  lemma {:induction false} FailuresInSnoc(h: Trace, e: Event)
    ensures FailuresIn(h + [e]) == FailuresIn(h) + if e.Failure? then 1 else 0
  {
    if h == [] {
      assert h + [e] == [e] && [e][1..] == [];
    } else {
      assert (h + [e])[1..] == h[1..] + [e];
      FailuresInSnoc(h[1..], e);
    }
  }

  /** A trace that starts over: nothing has happened yet, or the last thing recorded is a success. */
  predicate StartsOver(h: Trace) {
    h == [] || Last(h) == Success
  }

  lemma {:induction false} CountsFromStart(h: Trace, more: Trace)
    requires StartsOver(h) && NoSuccess(more)
    ensures Failures(h + more) == FailuresIn(more)
    decreases |more|
  {
    if more == [] {
      assert h + more == h;
    } else {
      var front := Front(more);
      assert more == front + [Last(more)];
      assert Front(h + more) == h + front && Last(h + more) == Last(more);
      CountsFromStart(h, front);
      FailuresInSnoc(front, Last(more));
    }
  }

  /** Only consecutive failures count: from the start or after a success, and whatever came before it, every
      request is admitted, at any time, as long as fewer than five failures have been recorded since. */
  lemma {:induction false} AdmitsUpToFive(h: Trace, more: Trace, now: real)
    requires StartsOver(h) && NoSuccess(more) && FailuresIn(more) < 5
    ensures Admits(h + more, now)
  {
    CountsFromStart(h, more);
  }

  /** The fifth trips it: whatever requests have been refused since, one is admitted exactly if it comes 60
      seconds or more after that failure. */
  lemma {:induction false} FifthTrips(h: Trace, more: Trace, at: real, reopened: real, refused: Trace, now: real)
    requires StartsOver(h) && NoSuccess(more) && FailuresIn(more) == 4
    requires forall i :: 0 <= i < |refused| ==> refused[i].Request? && !refused[i].admitted
    ensures Admits(h + more + [Failure(at, reopened)] + refused, now) <==> now - reopened >= 60.0
    decreases |refused|
  {
    var g := h + more + [Failure(at, reopened)];
    if refused == [] {
      CountsFromStart(h, more);
      Snoc(h + more, Failure(at, reopened));
      assert g + refused == g;
    } else {
      FifthTrips(h, more, at, reopened, Front(refused), now);
      assert Front(g + refused) == g + Front(refused) && Last(g + refused) == Last(refused);
    }
  }

  /** What changes nothing: a refused request at any time, an admitted one while the breaker is closed, and a
      failure while it is open, which neither prolongs nor restarts the cooldown. */
  lemma {:induction false} ChangesNothing(h: Trace, e: Event, now: real)
    requires || (e.Request? && !e.admitted)
             || (e.Request? && forall t: real :: Admits(h, t))
             || (e.Failure? && Tripped(h) && !ProbeOut(h))
    ensures Admits(h + [e], now) <==> Admits(h, now)
  {
    Snoc(h, e);
    assert Tripped(h) ==> !Admits(h, CooldownStart(h) - 1.0);
  }

  // ---------------------------------------------------------------- whole runs

  /** The requests in the trace were answered by the breaker. */
  ghost predicate Answered(h: Trace) {
    h == [] || (Answered(Front(h)) && (Last(h).Request? ==> Last(h).admitted == Admits(Front(h), Last(h).now)))
  }

  function EarliestReading(e: Event, otherwise: real): real {
    match e
    case Success => otherwise
    case Failure(at, _) => at
    case Request(now, _) => now
  }

  function LatestReading(e: Event, otherwise: real): real {
    match e
    case Success => otherwise
    case Failure(_, reopened) => reopened
    case Request(now, _) => now
  }

  /** The last clock reading in the trace, `from` if there is none. */
  function Clock(h: Trace, from: real): real {
    if h == [] then from else LatestReading(Last(h), Clock(Front(h), from))
  }

  /** The clock never goes back. */
  ghost predicate Ticking(h: Trace, from: real) {
    h == [] || (&& Ticking(Front(h), from)
                && Clock(Front(h), from) <= EarliestReading(Last(h), Clock(Front(h), from))
                && (Last(h).Failure? ==> Last(h).at <= Last(h).reopened))
  }

  /** When the failure count last reached the threshold. */
  function TripTime(h: Trace): real
    requires Tripped(h)
  {
    if Last(h).Failure? && !Tripped(Front(h)) then Last(h).reopened else TripTime(Front(h))
  }

  /** The times of the requests admitted since the trip, in order. */
  function Probes(h: Trace): seq<real> {
    if !Tripped(h) then []
    else if Last(h).Request? && Last(h).admitted then Probes(Front(h)) + [Last(h).now]
    else Probes(Front(h))
  }

  /** The probe rate over whole runs: after the breaker trips at time T and with no success recorded since,
      the k-th admitted request (counting from one) comes no earlier than T + 60k. */
  lemma {:induction false} ProbeRate(h: Trace, from: real)
    requires Answered(h) && Ticking(h, from) && Tripped(h)
    ensures forall k :: 0 <= k < |Probes(h)| ==> Probes(h)[k] >= TripTime(h) + 60.0 * (k + 1) as real
    ensures !ProbeOut(h) ==> CooldownStart(h) >= TripTime(h) + OPEN_DURATION_SECONDS * |Probes(h)| as real
    ensures Clock(h, from) >= TripTime(h) + OPEN_DURATION_SECONDS * |Probes(h)| as real
  {
    var g := Front(h);
    if Tripped(g) {
      ProbeRate(g, from);
    } else {
      NoProbesYet(g);
    }
  }

  lemma {:induction false} NoProbesYet(h: Trace)
    requires !Tripped(h)
    ensures Probes(h) == []
  {
  }

  /** Hence at most floor(D / 60) requests are admitted in the first D seconds after the trip. */
  lemma {:induction false} ProbeCount(h: Trace, from: real, d: real)
    requires Answered(h) && Ticking(h, from) && Tripped(h)
    requires d >= 0.0 && Clock(h, from) <= TripTime(h) + d
    ensures |Probes(h)| <= (d / 60.0).Floor
  {
    ProbeRate(h, from);
  }

  /** Half-open is sticky: whatever the clock says, every request is refused until something is recorded. */
  lemma {:induction false} StuckUntilRecorded(h: Trace, more: Trace)
    requires ProbeOut(h) && Answered(h + more)
    requires forall i :: 0 <= i < |more| ==> more[i].Request?
    ensures ProbeOut(h + more) && forall i :: 0 <= i < |more| ==> !more[i].admitted
    ensures forall now: real :: !Admits(h + more, now)
  {
    if more == [] {
      assert h + more == h;
    } else {
      var front := Front(more);
      assert Front(h + more) == h + front && Last(h + more) == Last(more);
      StuckUntilRecorded(h, front);
    }
  }

  /** One record releases it: after a success everything is admitted, after a failure whatever comes at
      least 60 seconds later, and nothing sooner. */
  lemma {:induction false} ReleasedByRecord(h: Trace, at: real, reopened: real, now: real)
    requires ProbeOut(h)
    ensures Admits(h + [Success], now)
    ensures Admits(h + [Failure(at, reopened)], now) <==> now >= reopened + 60.0
  {
    Snoc(h, Success);
    Snoc(h, Failure(at, reopened));
  }

  // ---------------------------------------------------------------- the rate is attained

  function Burst(t: real, n: nat): Trace {
    if n == 0 then [] else Burst(t, n - 1) + [Failure(t, t)]
  }

  /** Trip at `t`, then fail each probe the moment it is admitted. */
  function Fastest(t: real, k: nat): Trace {
    if k == 0 then Burst(t, FAILURE_THRESHOLD)
    else var now := t + OPEN_DURATION_SECONDS * k as real;
      Fastest(t, k - 1) + [Request(now, true)] + [Failure(now, now)]
  }

  /** `h` has tripped at `t` and failed `k` probes since, each at the earliest moment. */
  ghost predicate AttainsRate(h: Trace, t: real, k: nat) {
    && Answered(h) && Ticking(h, t) && Tripped(h) && !ProbeOut(h)
    && TripTime(h) == t && |Probes(h)| == k
    && Clock(h, t) == CooldownStart(h) == t + OPEN_DURATION_SECONDS * k as real
  }

  /** `ProbeRate` cannot be improved: for every number of probes some run meets it with equality. */
  lemma {:induction false} ProbeRateAttained(t: real, k: nat)
    ensures AttainsRate(Fastest(t, k), t, k)
  {
    if k == 0 {
      BurstTrips(t, FAILURE_THRESHOLD);
    } else {
      ProbeRateAttained(t, k - 1);
      AttainOneMore(Fastest(t, k - 1), t, k - 1);
    }
  }

  lemma {:induction false} BurstTrips(t: real, n: nat)
    requires n <= FAILURE_THRESHOLD
    ensures var h := Burst(t, n);
      && Failures(h) == n && Answered(h) && Ticking(h, t) && Clock(h, t) == t && Probes(h) == [] && !ProbeOut(h)
      && (n == FAILURE_THRESHOLD ==> TripTime(h) == t && CooldownStart(h) == t)
  {
    if n > 0 {
      BurstTrips(t, n - 1);
      Snoc(Burst(t, n - 1), Failure(t, t));
    }
  }

  lemma AttainOneMore(h: Trace, t: real, k: nat)
    requires AttainsRate(h, t, k)
    ensures var now := t + OPEN_DURATION_SECONDS * (k + 1) as real;
            AttainsRate(h + [Request(now, true)] + [Failure(now, now)], t, k + 1)
  {
    var now := t + OPEN_DURATION_SECONDS * (k + 1) as real;
    var probing := h + [Request(now, true)];
    Snoc(h, Request(now, true));
    assert Probes(probing) == Probes(h) + [now] && ProbeOut(probing) && Answered(probing) && Ticking(probing, t);
    Snoc(probing, Failure(now, now));
  }

  /** A run that ends stuck: after any number of failed probes the next one is admitted and never recorded, and
      from then on every request is refused, at any time. */
  lemma {:induction false} StuckRun(t: real, k: nat, now: real)
    ensures var h := Fastest(t, k) + [Request(t + OPEN_DURATION_SECONDS * (k + 1) as real, true)];
            Answered(h) && Ticking(h, t) && Tripped(h) && ProbeOut(h) && !Admits(h, now)
  {
    var probe := Request(t + OPEN_DURATION_SECONDS * (k + 1) as real, true);
    ProbeRateAttained(t, k);
    Snoc(Fastest(t, k), probe);
  }
}
