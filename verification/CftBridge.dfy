/** The CFT bridge: one logged-in browser session behind a lock, a retry rule, and a write guard.

    Everything outside the process is arbitrary: the clock, what a login does and what a fetch answers.
    `log` records what the browser was made to do. Handlers run one at a time, as the lock makes them. */
module CftBridge {
  import opened CftGuard
  import opened UrlResolution
  import opened Wrappers

  // ---------------------------------------------------------------- what happens in the browser

  datatype FetchOutcome = Answered(status: int, body: string) | Raised

  /** What the browser is made to do. */
  datatype Act =
    | Login(ok: bool)
    | Fetch(verb: string, path: string, url: string, token: string, uuid: Uuid, outcome: FetchOutcome)

  datatype LoginOutcome = LoggedIn(token: string, uuid: Uuid) | LoginFails(pageUp: bool)

  predicate Denied(o: FetchOutcome) {
    o.Answered? && (o.status == 401 || o.status == 403)
  }

  // ---------------------------------------------------------------- the protocol of one call

  /** Making sure of a session, then fetching with it. A login happens, fails or is not needed; nothing is
      fetched without a session. */
  ghost predicate IsAttempt(acts: seq<Act>, forced: bool, verb: Option<string>, path: string, outcome: FetchOutcome) {
    if LoginFailed(acts) then outcome == Raised
    else
      var rest := if acts != [] && acts[0] == Login(true) then acts[1..] else acts;
      && (forced ==> acts != [] && acts[0] == Login(true))
      && if verb == None then rest == [] && outcome == Raised
         else |rest| == 1 && IsFetch(rest[0], verb.value, path, outcome)
  }

  predicate LoginFailed(acts: seq<Act>) {
    acts == [Login(false)]
  }

  predicate IsFetch(act: Act, verb: string, path: string, outcome: FetchOutcome) {
    act.Fetch? && act.verb == Upper(verb) && act.path == path && act.url == Url(path, act.uuid) &&
        act.outcome == outcome
  }

  /** The attempts of one call and what each came to: an attempt that raised is repeated once, with a forced
      login, and so is one that was denied; a login that fails, or a second exception, ends the call. */
  ghost predicate CallTrace(attempts: seq<seq<Act>>, outcomes: seq<FetchOutcome>, verb: Option<string>, path: string) {
    && |attempts| == |outcomes| && 1 <= |attempts| <= 3
    && (forall i :: 0 <= i < |attempts| ==> IsAttempt(attempts[i], i > 0, verb, path, outcomes[i]))
    && (forall i :: 0 <= i < |attempts| - 1 ==>
         !LoginFailed(attempts[i]) && (Denied(outcomes[i]) || (i == 0 && outcomes[i] == Raised)))
    && var last := |attempts| - 1;
       && (Denied(outcomes[last]) ==> last > 0 && Denied(outcomes[last - 1]))
       && (last == 0 && outcomes[0] == Raised ==> LoginFailed(attempts[0]))
       && (last == 2 ==> outcomes[0] == Raised)
  }

  function Flat(attempts: seq<seq<Act>>): seq<Act> {
    if attempts == [] then [] else Flat(attempts[..|attempts| - 1]) + attempts[|attempts| - 1]
  }

  function Fetches(acts: seq<Act>): nat {
    if acts == [] then 0 else Fetches(acts[..|acts| - 1]) + if acts[|acts| - 1].Fetch? then 1 else 0
  }

  function Logins(acts: seq<Act>): nat {
    if acts == [] then 0 else Logins(acts[..|acts| - 1]) + if acts[|acts| - 1].Login? then 1 else 0
  }

  lemma {:induction false} CountsAppend(a: seq<Act>, b: seq<Act>)
    ensures Fetches(a + b) == Fetches(a) + Fetches(b) && Logins(a + b) == Logins(a) + Logins(b)
  {
    if b == [] {
      assert a + b == a;
    } else {
      assert (a + b)[..|a + b| - 1] == a + b[..|b| - 1];
      CountsAppend(a, b[..|b| - 1]);
    }
  }

  lemma {:induction false} AttemptCounts(acts: seq<Act>, forced: bool, verb: Option<string>, path: string,
          outcome: FetchOutcome)
    requires IsAttempt(acts, forced, verb, path, outcome)
    ensures Fetches(acts) <= 1 && Logins(acts) <= 1
    ensures forced ==> Logins(acts) == 1
  {
    if |acts| == 2 {
      assert acts == [acts[0]] + [acts[1]];
      CountsAppend([acts[0]], [acts[1]]);
    }
  }

  /** One call makes at most three fetches and three logins, and never fewer forced logins than repeats. */
  lemma {:induction false} CallBounded(attempts: seq<seq<Act>>, outcomes: seq<FetchOutcome>, verb: Option<string>,
          path: string)
    requires CallTrace(attempts, outcomes, verb, path)
    ensures Fetches(Flat(attempts)) <= 3 && Logins(Flat(attempts)) <= 3
    ensures Logins(Flat(attempts)) >= |attempts| - 1
  {
    FlatBounded(attempts, outcomes, verb, path, |attempts|);
    assert attempts[..|attempts|] == attempts;
  }

  lemma {:induction false} FlatBounded(attempts: seq<seq<Act>>, outcomes: seq<FetchOutcome>, verb: Option<string>,
          path: string, n: nat)
    requires n <= |attempts| == |outcomes|
    requires forall i :: 0 <= i < n ==> IsAttempt(attempts[i], i > 0, verb, path, outcomes[i])
    ensures Fetches(Flat(attempts[..n])) <= n && n - 1 <= Logins(Flat(attempts[..n])) <= n
  {
    if n > 0 {
      FlatBounded(attempts, outcomes, verb, path, n - 1);
      assert attempts[..n][..n - 1] == attempts[..n - 1];
      AttemptCounts(attempts[n - 1], n > 1, verb, path, outcomes[n - 1]);
      CountsAppend(Flat(attempts[..n - 1]), attempts[n - 1]);
    }
  }

  /** A call returns 401 or 403 only after a denied fetch, a forced login that worked, and a second denial. */
  lemma {:induction false} DeniedOnlyAfterRetry(attempts: seq<seq<Act>>, outcomes: seq<FetchOutcome>,
          verb: Option<string>, path: string)
    requires CallTrace(attempts, outcomes, verb, path)
    requires outcomes[|outcomes| - 1].Answered? && outcomes[|outcomes| - 1].status in {401, 403}
    ensures var acts := Flat(attempts); var n := |acts|;
            && n >= 3 && acts[n - 1].Fetch? && acts[n - 2] == Login(true) && acts[n - 3].Fetch?
            && acts[n - 3].outcome.Answered? && acts[n - 3].outcome.status in {401, 403}
  {
    var last := |attempts| - 1;
    DeniedAttempt(attempts[last - 1], last - 1 > 0, verb, path, outcomes[last - 1]);
    DeniedAttempt(attempts[last], true, verb, path, outcomes[last]);
    hide CallTrace, IsAttempt;
    var init := attempts[..last];
    assert Flat(attempts) == Flat(init) + attempts[last];
    assert Flat(init) == Flat(init[..last - 1]) + attempts[last - 1];
  }

  /** A call goes on to another attempt only after an exception on the first one, or a 401 or 403; and a 401 or
      403 on the first attempt always gets one. */
  lemma RepeatedExactly(attempts: seq<seq<Act>>, outcomes: seq<FetchOutcome>, verb: Option<string>, path: string)
    requires CallTrace(attempts, outcomes, verb, path)
    ensures forall i :: 0 <= i < |outcomes| - 1 ==>
              (i == 0 && outcomes[i] == Raised) || (outcomes[i].Answered? && outcomes[i].status in {401, 403})
    ensures outcomes[0].Answered? ==> (|outcomes| > 1 <==> outcomes[0].status in {401, 403})
  {
  }

  /** An attempt that is denied ends with its fetch, after the login if one was forced. */
  lemma DeniedAttempt(acts: seq<Act>, forced: bool, verb: Option<string>, path: string, outcome: FetchOutcome)
    requires IsAttempt(acts, forced, verb, path, outcome) && Denied(outcome)
    ensures acts != [] && acts[|acts| - 1].Fetch? && acts[|acts| - 1].outcome == outcome
    ensures forced ==> |acts| == 2 && acts[0] == Login(true)
  {
  }

  /** Every fetch of a call is the request that was asked for. */
  lemma {:induction false} FetchesAreTheRequest(attempts: seq<seq<Act>>, outcomes: seq<FetchOutcome>,
          verb: Option<string>, path: string, n: nat)
    requires n <= |attempts| == |outcomes|
    requires forall i :: 0 <= i < n ==> IsAttempt(attempts[i], i > 0, verb, path, outcomes[i])
    ensures forall act :: act in Flat(attempts[..n]) && act.Fetch? ==>
              verb.Some? && IsFetch(act, verb.value, path, act.outcome)
  {
    if n > 0 {
      FetchesAreTheRequest(attempts, outcomes, verb, path, n - 1);
      assert attempts[..n][..n - 1] == attempts[..n - 1];
      AttemptFetches(attempts[n - 1], n > 1, verb, path, outcomes[n - 1]);
    }
  }

  lemma AttemptFetches(acts: seq<Act>, forced: bool, verb: Option<string>, path: string, outcome: FetchOutcome)
    requires IsAttempt(acts, forced, verb, path, outcome)
    ensures forall act :: act in acts && act.Fetch? ==> verb.Some? && IsFetch(act, verb.value, path, act.outcome)
  {
    if acts != [] && acts[0] == Login(true) {
      assert acts == [acts[0]] + acts[1..];
    }
  }

  // ---------------------------------------------------------------- the session

  class CFTSession {
    const maxAge: real
    const configured: bool

    var token: Option<string>
    var uuid: Option<Uuid>
    var loggedInAt: real
    var pageUp: bool
    var loginCount: nat
    var callCount: nat
    var lastError: bool

    ghost var log: seq<Act>

    /** Token and uuid are set together, and only while there is a page to use them in. */
    ghost predicate Valid()
      reads this
    {
      (token.Some? <==> uuid.Some?) && (token.Some? ==> pageUp)
    }

    constructor (maxAge: real, configured: bool)
      ensures Valid() && log == [] && token == None
    {
      this.maxAge, this.configured := maxAge, configured;
      token, uuid, loggedInAt, pageUp := None, None, 0.0, false;
      loginCount, callCount, lastError := 0, 0, false;
      log := [];
    }

    method Teardown()
      modifies this`token, this`uuid, this`pageUp
      ensures token == None && uuid == None && !pageUp
    {
      pageUp := false;
      token, uuid := None, None;
    }

    /** `_login`: drives the form; succeeds only with both a token and a uuid in hand. */
    method DoLogin() returns (ok: bool, ghost at: real)
      requires token == None && uuid == None
      modifies this`token, this`uuid, this`pageUp, this`loggedInAt, this`loginCount, this`log
      ensures Valid() && log == old(log) + [Login(ok)]
      ensures ok <==> token.Some?
      ensures loginCount == old(loginCount) + if ok then 1 else 0
      ensures loggedInAt == if ok then at else old(loggedInAt)
    {
      var outcome: LoginOutcome := *;
      var now: real := *;
      at := now;
      if !configured {
        outcome := LoginFails(pageUp);
      }
      match outcome {
        case LoggedIn(t, u) =>
          pageUp := true;
          token, uuid := Some(t), Some(u);
          loggedInAt := now;
          loginCount := loginCount + 1;
          ok := true;
        case LoginFails(up) =>
          pageUp := up;
          ok := false;
      }
      log := log + [Login(ok)];
    }

    /** `_ensure`: a login if forced, without a session, or past the session's age on the clock read first. */
    method Ensure(force: bool) returns (ok: bool, ghost read: real)
      requires Valid()
      modifies this`token, this`uuid, this`pageUp, this`loggedInAt, this`loginCount, this`log
      ensures Valid() && (ok <==> token.Some?)
      ensures if force || old(token) == None || read - old(loggedInAt) > maxAge then log == old(log) + [Login(ok)]
              else ok && log == old(log) && token == old(token) && uuid == old(uuid) && loggedInAt == old(loggedInAt)
    {
      var now: real := *;
      read := now;
      var stale := now - loggedInAt > maxAge;
      ok := true;
      if force || token == None || stale {
        Teardown();
        ghost var at;
        ok, at := DoLogin();
      }
    }

    /** `_fetch`. With no verb there is nothing to upper-case: it raises before the browser is touched. */
    method DoFetch(verb: Option<string>, path: string) returns (outcome: FetchOutcome)
      requires Valid() && token.Some?
      modifies this`log
      ensures verb == None ==> outcome == Raised && log == old(log)
      ensures verb.Some? ==>
        log == old(log) + [Fetch(Upper(verb.value), path, Url(path, uuid.value), token.value, uuid.value, outcome)]
    {
      if verb == None {
        return Raised;
      }
      var url := Url(path, uuid.value);
      outcome := *;
      log := log + [Fetch(Upper(verb.value), path, url, token.value, uuid.value, outcome)];
    }

    method Attempt(force: bool, verb: Option<string>, path: string)
      returns (outcome: FetchOutcome, ok: bool, ghost acts: seq<Act>)
      requires Valid()
      modifies this`token, this`uuid, this`pageUp, this`loggedInAt, this`loginCount, this`log
      ensures Valid() && log == old(log) + acts && IsAttempt(acts, force, verb, path, outcome)
      ensures ok <==> !LoginFailed(acts)
    {
      outcome := Raised;
      ghost var read;
      ok, read := Ensure(force);
      if ok {
        outcome := DoFetch(verb, path);
      }
      acts := log[|old(log)|..];
    }

    /** The first half of `call`: one attempt, repeated with a forced login if it raised. */
    method TryTwice(verb: Option<string>, path: string)
      returns (outcome: FetchOutcome, ghost attempts: seq<seq<Act>>, ghost outcomes: seq<FetchOutcome>)
      requires Valid()
      modifies this`token, this`uuid, this`pageUp, this`loggedInAt, this`loginCount, this`log
      ensures Valid() && log == old(log) + Flat(attempts)
      ensures |outcomes| > 0 && FirstHalf(attempts, outcomes, verb, path) && outcome == outcomes[|outcomes| - 1]
    {
      hide IsAttempt, FirstHalf, Flat;
      var ok;
      ghost var acts;
      outcome, ok, acts := Attempt(false, verb, path);
      attempts, outcomes := [acts], [outcome];
      FlatOne(acts);
      if !ok || outcome.Answered? {
        FirstTry(acts, outcome, verb, path);
      } else {
        ghost var again;
        outcome, ok, again := Attempt(true, verb, path);
        FlatTwo(acts, again);
        SecondTry(acts, again, outcome, verb, path);
        attempts, outcomes := [acts, again], [Raised, outcome];
      }
    }

    /** `call`: one request, repeated once after an exception and once after a 401 or 403, each time with a
        fresh login. `Raised` is the exception the caller sees. */
    method Call(verb: Option<string>, path: string)
      returns (outcome: FetchOutcome, ghost attempts: seq<seq<Act>>, ghost outcomes: seq<FetchOutcome>)
      requires Valid()
      modifies this`token, this`uuid, this`pageUp, this`loggedInAt, this`loginCount, this`callCount, this`log
      ensures Valid() && log == old(log) + Flat(attempts)
      ensures |outcomes| > 0 && CallTrace(attempts, outcomes, verb, path) && outcome == outcomes[|outcomes| - 1]
      ensures callCount == old(callCount) + if outcome.Answered? then 1 else 0
    {
      hide IsAttempt, FirstHalf, Flat, CallTrace;
      outcome, attempts, outcomes := TryTwice(verb, path);
      if outcome == Raised {
        NoRetry(attempts, outcomes, verb, path);
        return;
      }
      if outcome.status == 401 || outcome.status == 403 {
        ghost var acts;
        var ok;
        var again;
        again, ok, acts := Attempt(true, verb, path);
        FlatSnoc(attempts, acts);
        RetryDenied(attempts, outcomes, acts, again, verb, path);
        outcome, attempts, outcomes := again, attempts + [acts], outcomes + [again];
        if outcome == Raised {
          return;
        }
      } else {
        NoRetry(attempts, outcomes, verb, path);
      }
      callCount := callCount + 1;
    }
  }

  ghost predicate FirstHalf(attempts: seq<seq<Act>>, outcomes: seq<FetchOutcome>, verb: Option<string>, path: string) {
    && |attempts| == |outcomes| && 1 <= |attempts| <= 2
    && (forall i :: 0 <= i < |attempts| ==> IsAttempt(attempts[i], i > 0, verb, path, outcomes[i]))
    && (|attempts| == 1 ==> (outcomes[0] == Raised <==> LoginFailed(attempts[0])))
    && (|attempts| == 2 ==> outcomes[0] == Raised && !LoginFailed(attempts[0]))
  }

  lemma FirstTry(acts: seq<Act>, outcome: FetchOutcome, verb: Option<string>, path: string)
    requires IsAttempt(acts, false, verb, path, outcome) && (LoginFailed(acts) || outcome.Answered?)
    ensures FirstHalf([acts], [outcome], verb, path)
  {
  }

  lemma SecondTry(acts: seq<Act>, again: seq<Act>, outcome: FetchOutcome, verb: Option<string>, path: string)
    requires IsAttempt(acts, false, verb, path, Raised) && !LoginFailed(acts) &&
             IsAttempt(again, true, verb, path, outcome)
    ensures FirstHalf([acts, again], [Raised, outcome], verb, path)
  {
  }

  lemma NoRetry(attempts: seq<seq<Act>>, outcomes: seq<FetchOutcome>, verb: Option<string>, path: string)
    requires FirstHalf(attempts, outcomes, verb, path) && !Denied(outcomes[|outcomes| - 1])
    ensures CallTrace(attempts, outcomes, verb, path)
  {
  }

  lemma FlatOne(acts: seq<Act>)
    ensures Flat([acts]) == acts
  {
    FlatSnoc([], acts);
  }

  lemma FlatTwo(acts: seq<Act>, again: seq<Act>)
    ensures Flat([acts, again]) == acts + again
  {
    FlatOne(acts);
    FlatSnoc([acts], again);
  }

  lemma {:induction false} FlatSnoc(attempts: seq<seq<Act>>, acts: seq<Act>)
    ensures Flat(attempts + [acts]) == Flat(attempts) + acts
  {
    assert (attempts + [acts])[..|attempts|] == attempts;
  }

  /** The last retry: a denied outcome of the first half is tried once more. */
  lemma RetryDenied(attempts: seq<seq<Act>>, outcomes: seq<FetchOutcome>, acts: seq<Act>, outcome: FetchOutcome,
          verb: Option<string>, path: string)
    requires FirstHalf(attempts, outcomes, verb, path) && Denied(outcomes[|outcomes| - 1])
    requires IsAttempt(acts, true, verb, path, outcome)
    ensures CallTrace(attempts + [acts], outcomes + [outcome], verb, path)
  {
  }

  // ---------------------------------------------------------------- the handlers

  datatype Payload = InvalidJson | Payload(path: string, verb: Option<string>)

  /** With trading off, the browser has only been made to fetch GETs of paths without a write fragment. What it
      requested for them carried one exactly if the path reaches a write path under any account; for a plain
      path, exactly if it lacked its slash. (A verb given as the empty string passes the guard as GET and
      reaches the browser empty, naming no method.) */
  ghost predicate OnlyReads(log: seq<Act>) {
    forall act :: act in log && act.Fetch? ==> GuardedRead(act)
  }

  predicate GuardedRead(act: Act)
    requires act.Fetch?
  {
    && (act.verb == "GET" || act.verb == "") && !HasWriteFragment(act.path)
    && (HasWriteFragment(Resolved(act.url)) <==> ReachesWrite(act.path))
    && (PlainPath(act.path) ==> (HasWriteFragment(Resolved(act.url)) <==> LacksItsSlash(act.path)))
  }

  class Bridge {
    const session: CFTSession
    const allowTrading: bool

    ghost predicate Valid()
      reads this, session
    {
      session.Valid() && (!allowTrading ==> OnlyReads(session.log))
    }

    constructor (maxAge: real, configured: bool, allowTrading: bool)
      ensures Valid() && fresh(session) && session.log == [] && this.allowTrading == allowTrading
    {
      session := new CFTSession(maxAge, configured);
      this.allowTrading := allowTrading;
    }

    /** A request with a path that is let through: any with trading on, one that only asks to read otherwise. */
    predicate LetThrough(payload: Payload) {
      payload.Payload? && payload.path != "" && (allowTrading || OnlyAsksToRead(payload.verb, payload.path))
    }

    /** `handle_call`, answering the HTTP status. A write with trading off is refused before the browser is
        touched, every other request with a path is made, and nothing else touches the browser. */
    method HandleCall(authorized: bool, payload: Payload) returns (status: int)
      requires Valid()
      modifies session
      ensures Valid()
      ensures status == 401 <==> !authorized
      ensures status == 400 <==> authorized && (payload.InvalidJson? || payload.path == "")
      ensures status in {200, 502} <==> authorized && LetThrough(payload)
      ensures status == 403 ==> !allowTrading
      ensures status in {400, 401, 403} ==> session.log == old(session.log) && session.token == old(session.token)
      ensures status in {200, 502} ==> exists attempts: seq<seq<Act>>, outcomes: seq<FetchOutcome> ::
                && CallTrace(attempts, outcomes, payload.verb, payload.path)
                && session.log == old(session.log) + Flat(attempts)
                && (status == 200 <==> outcomes[|outcomes| - 1].Answered?)
      ensures status in {200, 400, 401, 403, 502}
      ensures status == 200 ==> !session.lastError
      ensures status == 502 ==> session.lastError
    {
      if !authorized {
        return 401;
      }
      if payload.InvalidJson? || payload.path == "" {
        return 400;
      }
      GuardTripsExactly(payload.verb, payload.path);
      if IsWriteRequest(payload.verb, payload.path) && !allowTrading {
        return 403;
      }
      ghost var before := session.log;
      var outcome;
      ghost var attempts, outcomes;
      outcome, attempts, outcomes := session.Call(payload.verb, payload.path);
      FetchesAreTheRequest(attempts, outcomes, payload.verb, payload.path, |attempts|);
      assert attempts[..|attempts|] == attempts;
      assert !allowTrading ==> OnlyReads(session.log) by {
        if !allowTrading {
          GuardedStaysReads(before, Flat(attempts), payload.verb, payload.path);
        }
      }
      session.lastError := outcome == Raised;
      status := if outcome == Raised then 502 else 200;
    }

    /** `handle_reconnect`: one forced login, and no fetch. */
    method HandleReconnect(authorized: bool) returns (status: int)
      requires Valid()
      modifies session
      ensures Valid()
      ensures !authorized ==> status == 401 && session.log == old(session.log)
      ensures authorized ==> status in {200, 502} && session.log == old(session.log) + [Login(status == 200)]
    {
      if !authorized {
        return 401;
      }
      var ok;
      ghost var read;
      ok, read := session.Ensure(true);
      status := if ok then 200 else 502;
    }
  }

  lemma GuardedStaysReads(before: seq<Act>, acts: seq<Act>, verb: Option<string>, path: string)
    requires OnlyReads(before) && !IsWriteRequest(verb, path)
    requires forall act :: act in acts && act.Fetch? ==> verb.Some? && IsFetch(act, verb.value, path, act.outcome)
    ensures OnlyReads(before + acts)
  {
    hide HasWriteFragment, Resolved, ReachesWrite, PlainPath, LacksItsSlash, Url;
    forall act | act in acts && act.Fetch? ensures GuardedRead(act) {
      GuardMissesExactly(path, act.uuid);
    }
  }
}
