/** The shared token refresh of api-client.ts as a protocol. Any number of calls are under way; each
  * event is one continuation, run up to its next `await`. `fetch` settles asynchronously, in any order.
  * P identifies the refresh promises, because the calls that wait on one share it.
  */
module TokenRefresh {
  import opened Wrappers

  /** Waiting for the first response, for the refresh p, for the response to the retry, or finished. */
  datatype Phase<P> = First | Waiting(p: P) | Second | Done

  /** sent counts the main requests; result is what the awaited refresh `waitedOn` gave. */
  datatype Call<P> = Call(
    endpoint: string, phase: Phase<P>, sent: nat, got401: bool, waitedOn: Option<P>, result: Option<bool>)

  datatype Refresh = Outstanding | Settled(ok: bool)

  /** refreshes are the promises made so far, active is the module variable `activeRefreshPromise`. */
  datatype State<P> = State(calls: seq<Call<P>>, refreshes: map<P, Refresh>, active: Option<P>)

  function Idle<P>(): State<P> {
    State([], map[], None)
  }

  /** The endpoints whose 401 is final. */
  predicate MayRefresh(endpoint: string) {
    endpoint != "/auth/login" && endpoint != "/auth/refresh" && endpoint != "/auth/mfa/complete"
  }

  /** `made` is the promise that the first response makes, if it sends a refresh. */
  datatype Event<P> =
    | Start(endpoint: string)
    | FirstResponse(c: nat, is401: bool, made: Option<P>)
    | RefreshSettles(p: P, ok: bool)
    | Continue(c: nat)
    | SecondResponse(c: nat)

  ghost predicate Enabled<P>(s: State<P>, e: Event<P>) {
    match e
    case Start(_) => true
    case FirstResponse(c, is401, made) =>
      c < |s.calls| && s.calls[c].phase == First &&
      (made.Some? <==> is401 && MayRefresh(s.calls[c].endpoint) && s.active.None?) &&
      (made.Some? ==> made.value !in s.refreshes)
    case RefreshSettles(p, _) => p in s.refreshes && s.refreshes[p] == Outstanding
    case Continue(c) =>
      c < |s.calls| && s.calls[c].phase.Waiting? && s.calls[c].phase.p in s.refreshes &&
      s.refreshes[s.calls[c].phase.p].Settled?
    case SecondResponse(c) => c < |s.calls| && s.calls[c].phase == Second
  }

  /** requestTokenRefresh: share the active refresh, or send one. */
  function RequestTokenRefresh<P>(s: State<P>, made: Option<P>): State<P>
    requires made.Some? <==> s.active.None?
  {
    if s.active.Some? then s
    else s.(refreshes := s.refreshes[made.value := Outstanding], active := made)
  }

  function Next<P>(s: State<P>, e: Event<P>): State<P>
    requires Enabled(s, e)
  {
    match e
    case Start(endpoint) => s.(calls := s.calls + [Call(endpoint, First, 1, false, None, None)])
    case FirstResponse(c, is401, made) =>
      var call := s.calls[c];
      if is401 && MayRefresh(call.endpoint) then
        var s' := RequestTokenRefresh(s, made);
        var p := s'.active.value;
        s'.(calls := s.calls[c := call.(phase := Waiting(p), got401 := true, waitedOn := Some(p))])
      else s.(calls := s.calls[c := call.(phase := Done, got401 := is401)])
    case RefreshSettles(p, ok) => s.(refreshes := s.refreshes[p := Settled(ok)], active := None)
    case Continue(c) =>
      var call := s.calls[c];
      var ok := s.refreshes[call.phase.p].ok;
      s.(calls := s.calls[c :=
        if ok then call.(phase := Second, sent := call.sent + 1, result := Some(ok))
        else call.(phase := Done, result := Some(ok))])
    case SecondResponse(c) => s.(calls := s.calls[c := s.calls[c].(phase := Done)])
  }

  // ---------- safety ----------

  /** The shared promise is set exactly while a refresh is outstanding; so at most one is. */
  ghost predicate SingleFlight<P>(s: State<P>) {
    (s.active.Some? ==> s.active.value in s.refreshes) &&
    forall p | p in s.refreshes :: s.refreshes[p] == Outstanding <==> s.active == Some(p)
  }

  ghost predicate SoundCall<P>(s: State<P>, call: Call<P>) {
    && (call.waitedOn.Some? <==> call.got401 && MayRefresh(call.endpoint))
    && (call.waitedOn.Some? ==> call.waitedOn.value in s.refreshes)
    && (call.result.Some? ==>
         call.waitedOn.Some? && s.refreshes[call.waitedOn.value] == Settled(call.result.value))
    && (call.sent == if call.result == Some(true) then 2 else 1)
    && match call.phase
       case First => !call.got401
       case Waiting(p) => call.waitedOn == Some(p) && call.result.None?
       case Second => call.result == Some(true)
       case Done => call.waitedOn.Some? ==> call.result.Some?
  }

  function Count401<P>(calls: seq<Call<P>>): nat {
    if calls == [] then 0
    else Count401(calls[..|calls| - 1]) + if calls[|calls| - 1].got401 then 1 else 0
  }

  /** Some call saw a 401 and waits, or waited, for the refresh p. */
  ghost predicate HasWaiter<P>(s: State<P>, p: P) {
    exists c | 0 <= c < |s.calls| :: s.calls[c].waitedOn == Some(p)
  }

  ghost predicate Sound<P>(s: State<P>) {
    && SingleFlight(s)
    && (forall p | p in s.refreshes :: HasWaiter(s, p))
    && (forall c | 0 <= c < |s.calls| :: SoundCall(s, s.calls[c]))
    && |s.refreshes| <= Count401(s.calls)
  }

  lemma {:induction false} Count401Update<P>(calls: seq<Call<P>>, c: nat, call: Call<P>)
    requires c < |calls|
    ensures Count401(calls[c := call]) ==
            Count401(calls) + (if call.got401 then 1 else 0) - (if calls[c].got401 then 1 else 0)
  {
    var n := |calls| - 1;
    if c < n {
      Count401Update(calls[..n], c, call);
      assert calls[c := call][..n] == calls[..n][c := call];
    } else {
      assert calls[c := call][..n] == calls[..n];
    }
  }

  lemma StepKeepsSound<P>(s: State<P>, e: Event<P>)
    requires Sound(s) && Enabled(s, e)
    ensures Sound(Next(s, e))
  {
    match e {
      case Start(endpoint) => StartKeepsSound(s, endpoint);
      case FirstResponse(c, is401, made) => FirstResponseKeepsSound(s, c, is401, made);
      case RefreshSettles(p, ok) => RefreshKeepsSound(s, p, ok);
      case Continue(c) => ContinueKeepsSound(s, c);
      case SecondResponse(c) => SecondResponseKeepsSound(s, c);
    }
  }

  lemma StartKeepsSound<P>(s: State<P>, endpoint: string)
    requires Sound(s)
    ensures Sound(Next(s, Start(endpoint)))
  {
    hide HasWaiter;
    var s' := Next(s, Start(endpoint));
    assert s'.calls[..|s.calls|] == s.calls;
    SoundWithMoreRefreshes(s, s');
    WaitersStay(s, s');
  }

  lemma FirstResponseKeepsSound<P>(s: State<P>, c: nat, is401: bool, made: Option<P>)
    requires Sound(s) && Enabled(s, FirstResponse(c, is401, made))
    ensures Sound(Next(s, FirstResponse(c, is401, made)))
  {
    hide Count401, HasWaiter;
    var s' := Next(s, FirstResponse(c, is401, made));
    assert SoundCall(s, s.calls[c]);
    if made.Some? {
      RefreshMade(s, c, made.value, s');
    } else {
      OneCallGoesOn(s, c, s'.calls[c]);
    }
  }

  lemma RefreshMade<P>(s: State<P>, c: nat, p: P, s': State<P>)
    requires Sound(s) && c < |s.calls| && s.active.None? && p !in s.refreshes
    requires !s.calls[c].got401 && s.calls[c].waitedOn.None?
    requires s'.refreshes == s.refreshes[p := Outstanding] && s'.active == Some(p)
    requires |s'.calls| == |s.calls| && s'.calls == s.calls[c := s'.calls[c]]
    requires s'.calls[c].got401 && s'.calls[c].waitedOn == Some(p) && SoundCall(s', s'.calls[c])
    ensures Sound(s')
  {
    hide Count401;
    Count401Update(s.calls, c, s'.calls[c]);
    SoundWithMoreRefreshes(s, s');
    WaitersStay(s, s');
    assert HasWaiter(s', p);
  }

  lemma RefreshKeepsSound<P>(s: State<P>, p: P, ok: bool)
    requires Sound(s) && Enabled(s, RefreshSettles(p, ok))
    ensures Sound(Next(s, RefreshSettles(p, ok)))
  {
    var s' := Next(s, RefreshSettles(p, ok));
    assert s.active == Some(p);
    WaitersStay(s, s');
    forall c | 0 <= c < |s.calls| ensures SoundCall(s', s'.calls[c]) {
      assert SoundCall(s, s.calls[c]);
    }
  }

  lemma ContinueKeepsSound<P>(s: State<P>, c: nat)
    requires Sound(s) && Enabled(s, Continue(c))
    ensures Sound(Next(s, Continue(c)))
  {
    hide Count401, HasWaiter;
    assert SoundCall(s, s.calls[c]);
    OneCallGoesOn(s, c, Next(s, Continue(c)).calls[c]);
  }

  lemma SecondResponseKeepsSound<P>(s: State<P>, c: nat)
    requires Sound(s) && Enabled(s, SecondResponse(c))
    ensures Sound(Next(s, SecondResponse(c)))
  {
    hide Count401, HasWaiter;
    assert SoundCall(s, s.calls[c]);
    OneCallGoesOn(s, c, Next(s, SecondResponse(c)).calls[c]);
  }

  lemma OneCallGoesOn<P>(s: State<P>, c: nat, call: Call<P>)
    requires Sound(s) && c < |s.calls| && SoundCall(s, call)
    requires s.calls[c].got401 ==> call.got401
    requires s.calls[c].waitedOn.Some? ==> call.waitedOn == s.calls[c].waitedOn
    ensures Sound(s.(calls := s.calls[c := call]))
  {
    hide Count401, HasWaiter;
    var s' := s.(calls := s.calls[c := call]);
    Count401Update(s.calls, c, call);
    SoundWithMoreRefreshes(s, s');
    WaitersStay(s, s');
  }

  /** Waiters stay when calls keep what they waited on. */
  lemma WaitersStay<P>(s: State<P>, s': State<P>)
    requires |s.calls| <= |s'.calls|
    requires forall c | 0 <= c < |s.calls| && s.calls[c].waitedOn.Some? ::
               s'.calls[c].waitedOn == s.calls[c].waitedOn
    ensures forall p | HasWaiter(s, p) :: HasWaiter(s', p)
  {
    forall p | HasWaiter(s, p) ensures HasWaiter(s', p) {
      var c :| 0 <= c < |s.calls| && s.calls[c].waitedOn == Some(p);
      assert s'.calls[c].waitedOn == Some(p);
    }
  }

  /** Calls stay sound when a refresh is added. */
  lemma SoundWithMoreRefreshes<P>(s: State<P>, s': State<P>)
    requires forall c | 0 <= c < |s.calls| :: SoundCall(s, s.calls[c])
    requires forall p | p in s.refreshes :: p in s'.refreshes && s'.refreshes[p] == s.refreshes[p]
    ensures forall c | 0 <= c < |s.calls| :: SoundCall(s', s.calls[c])
  {
    forall c | 0 <= c < |s.calls| ensures SoundCall(s', s.calls[c]) {
      assert SoundCall(s, s.calls[c]);
    }
  }

  // ---------- runs ----------

  ghost predicate IsRun<P>(s: State<P>, events: seq<Event<P>>)
    decreases |events|
  {
    events == [] || (Enabled(s, events[0]) && IsRun(Next(s, events[0]), events[1..]))
  }

  ghost function After<P>(s: State<P>, events: seq<Event<P>>): State<P>
    requires IsRun(s, events)
    decreases |events|
  {
    if events == [] then s else After(Next(s, events[0]), events[1..])
  }

  lemma {:induction false} RunsStaySound<P>(s: State<P>, events: seq<Event<P>>)
    requires Sound(s) && IsRun(s, events)
    ensures Sound(After(s, events))
    decreases |events|
  {
    if events != [] {
      StepKeepsSound(s, events[0]);
      RunsStaySound(Next(s, events[0]), events[1..]);
    }
  }

  /** Over every interleaving: one refresh at a time, and the shared variable is set exactly while it is
    * outstanding; every refresh has a call that saw a 401 waiting for it, and refreshes never outnumber
    * first-attempt 401s.
    */
  lemma OneRefreshAtATime<P>(events: seq<Event<P>>)
    requires IsRun(Idle<P>(), events)
    ensures var s := After(Idle<P>(), events);
            && (forall p, q | p in s.refreshes && q in s.refreshes ::
                  s.refreshes[p] == Outstanding && s.refreshes[q] == Outstanding ==> p == q)
            && (s.active.Some? <==> Outstanding in s.refreshes.Values)
            && (forall p | p in s.refreshes :: HasWaiter(s, p))
            && |s.refreshes| <= Count401(s.calls)
  {
    RunsStaySound(Idle<P>(), events);
    var s := After(Idle<P>(), events);
    if s.active.Some? { assert s.refreshes[s.active.value] == Outstanding; }
    if p :| p in s.refreshes && s.refreshes[p] == Outstanding { assert s.active == Some(p); }
  }

  /** Over every interleaving: a call sends one main request, or two exactly if it saw a 401 on an
    * endpoint that may refresh and the refresh it waited for succeeded; and all waiters of a refresh get
    * the same result.
    */
  lemma AtMostOneRetry<P>(events: seq<Event<P>>, c: nat, d: nat)
    requires IsRun(Idle<P>(), events)
    requires c < |After(Idle<P>(), events).calls| && d < |After(Idle<P>(), events).calls|
    ensures var s := After(Idle<P>(), events);
            var call, other := s.calls[c], s.calls[d];
            && 1 <= call.sent <= 2
            && (call.sent == 2 <==> call.result == Some(true))
            && (call.result.Some? ==> call.got401 && MayRefresh(call.endpoint))
            && (call.result.Some? && other.result.Some? && call.waitedOn == other.waitedOn ==>
                  call.result == other.result)
  {
    RunsStaySound(Idle<P>(), events);
    var s := After(Idle<P>(), events);
    assert SoundCall(s, s.calls[c]) && SoundCall(s, s.calls[d]);
  }

  /** What the first response of a call does. On the three authentication endpoints, or without a 401, the
    * call is finished and no refresh is touched. After a 401 on any other endpoint the call waits for the
    * refresh that is active, or for the one it makes if there is none.
    */
  lemma FirstResponseEffect<P>(s: State<P>, c: nat, is401: bool, made: Option<P>)
    requires Sound(s) && Enabled(s, FirstResponse(c, is401, made))
    ensures var s' := Next(s, FirstResponse(c, is401, made));
            var endpoint := s.calls[c].endpoint;
            var final := endpoint == "/auth/login" || endpoint == "/auth/refresh" || endpoint == "/auth/mfa/complete";
            && |s'.calls| == |s.calls| && s'.calls[c].endpoint == endpoint && s'.calls[c].got401 == is401
            && (!is401 || final ==>
                  s'.calls[c].phase == Done && s'.calls[c].waitedOn == None && s'.calls[c].sent == 1 &&
                  s'.refreshes == s.refreshes && s'.active == s.active)
            && (is401 && !final ==>
                  s'.active.Some? && s'.calls[c].phase == Waiting(s'.active.value) &&
                  s'.calls[c].waitedOn == s'.active && s'.refreshes[s'.active.value] == Outstanding &&
                  if s.active.Some? then s'.active == s.active && s'.refreshes == s.refreshes
                  else s'.active.value !in s.refreshes && s'.refreshes.Keys == s.refreshes.Keys + {s'.active.value})
  {
    assert SoundCall(s, s.calls[c]);
    StepKeepsSound(s, FirstResponse(c, is401, made));
  }

  ghost predicate Saw401<P>(s: State<P>, c: nat) {
    c < |s.calls| && s.calls[c].got401
  }

  lemma {:induction false} Saw401InRun<P>(s: State<P>, events: seq<Event<P>>, c: nat)
    requires Sound(s) && IsRun(s, events)
    ensures Saw401(After(s, events), c) <==>
            Saw401(s, c) || exists i | 0 <= i < |events| ::
              events[i].FirstResponse? && events[i].c == c && events[i].is401
    decreases |events|
  {
    if events != [] {
      var e, s', later := events[0], Next(s, events[0]), events[1..];
      StepKeepsSound(s, e);
      Saw401InRun(s', later, c);
      Saw401Step(s, e, c);
      hide Next, Sound, After, Enabled, Saw401;
      if i :| 0 <= i < |events| && events[i].FirstResponse? && events[i].c == c && events[i].is401 {
        assert i > 0 ==> later[i - 1] == events[i];
      }
      if i :| 0 <= i < |later| && later[i].FirstResponse? && later[i].c == c && later[i].is401 {
        assert events[i + 1] == later[i];
      }
    }
  }

  lemma Saw401Step<P>(s: State<P>, e: Event<P>, c: nat)
    requires Sound(s) && Enabled(s, e)
    ensures Saw401(Next(s, e), c) <==> Saw401(s, c) || (e.FirstResponse? && e.c == c && e.is401)
  {
    if e.FirstResponse? { assert SoundCall(s, s.calls[e.c]); }
  }

  /** Over every interleaving: a call waits, or waited, for a refresh exactly if its first response was a 401
    * and its endpoint is none of the three authentication endpoints; calls on those send one request.
    */
  lemma WhoRefreshes<P>(events: seq<Event<P>>, c: nat)
    requires IsRun(Idle<P>(), events) && c < |After(Idle<P>(), events).calls|
    ensures var call := After(Idle<P>(), events).calls[c];
            var final := call.endpoint in {"/auth/login", "/auth/refresh", "/auth/mfa/complete"};
            && (call.waitedOn.Some? <==>
                  !final && exists i | 0 <= i < |events| ::
                    events[i].FirstResponse? && events[i].c == c && events[i].is401)
            && (final ==> call.waitedOn.None? && call.result.None? && call.sent == 1)
  {
    RunsStaySound(Idle<P>(), events);
    var s := After(Idle<P>(), events);
    assert Sound(s) && !Saw401(Idle<P>(), c) && (Saw401(s, c) <==> s.calls[c].got401);
    hide *;
    Saw401InRun(Idle<P>(), events, c);
    WaitsAfter401(s, c);
    MayRefreshIffNotFinal(s.calls[c].endpoint);
  }

  lemma WaitsAfter401<P>(s: State<P>, c: nat)
    requires Sound(s) && c < |s.calls|
    ensures var call := s.calls[c];
            && (call.waitedOn.Some? <==> call.got401 && MayRefresh(call.endpoint))
            && (call.waitedOn.None? ==> call.result.None? && call.sent == 1)
  {
    hide MayRefresh, HasWaiter, Count401, SingleFlight;
    assert SoundCall(s, s.calls[c]);
  }

  lemma MayRefreshIffNotFinal(endpoint: string)
    ensures MayRefresh(endpoint) <==> endpoint !in {"/auth/login", "/auth/refresh", "/auth/mfa/complete"}
  {}

  // ---------- progress ----------

  function Weight<P>(phase: Phase<P>): nat {
    match phase
    case First => 4
    case Waiting(_) => 2
    case Second => 1
    case Done => 0
  }

  function Pending<P>(calls: seq<Call<P>>): nat {
    if calls == [] then 0 else Pending(calls[..|calls| - 1]) + Weight(calls[|calls| - 1].phase)
  }

  /** A bound on the events that are still to come if no call is started. */
  function Work<P>(s: State<P>): nat {
    Pending(s.calls) + if s.active.Some? then 1 else 0
  }

  lemma {:induction false} PendingUpdate<P>(calls: seq<Call<P>>, c: nat, call: Call<P>)
    requires c < |calls|
    ensures Pending(calls[c := call]) == Pending(calls) + Weight(call.phase) - Weight(calls[c].phase)
  {
    var n := |calls| - 1;
    if c < n {
      PendingUpdate(calls[..n], c, call);
      assert calls[c := call][..n] == calls[..n][c := call];
    } else {
      assert calls[c := call][..n] == calls[..n];
    }
  }

  lemma EventsUseWork<P>(s: State<P>, e: Event<P>)
    requires Sound(s) && Enabled(s, e) && !e.Start?
    ensures Work(Next(s, e)) < Work(s)
  {
    hide HasWaiter, Count401, SoundCall;
    var s' := Next(s, e);
    match e {
      case FirstResponse(c, _, _) => PendingUpdate(s.calls, c, s'.calls[c]);
      case RefreshSettles(p, _) => assert s.active == Some(p);
      case Continue(c) => PendingUpdate(s.calls, c, s'.calls[c]);
      case SecondResponse(c) => PendingUpdate(s.calls, c, s'.calls[c]);
    }
  }

  /** Once no call is started any more, only a bounded number of events can follow. */
  lemma {:induction false} RunsEnd<P>(s: State<P>, events: seq<Event<P>>)
    requires Sound(s) && IsRun(s, events) && forall e | e in events :: !e.Start?
    ensures |events| + Work(After(s, events)) <= Work(s)
    decreases |events|
  {
    if events != [] {
      assert events[0] in events;
      StepKeepsSound(s, events[0]);
      EventsUseWork(s, events[0]);
      RunsEnd(Next(s, events[0]), events[1..]);
    }
  }

  ghost predicate AllDone<P>(s: State<P>) {
    s.active.None? && forall c | 0 <= c < |s.calls| :: s.calls[c].phase == Done
  }

  /** No call is ever stuck: as long as one is unfinished, some event can happen. */
  lemma NoDeadlock<P>(s: State<P>)
    requires Sound(s)
    ensures AllDone(s) <==> forall e | Enabled(s, e) :: e.Start?
  {
    if s.active.Some? {
      assert Enabled(s, RefreshSettles(s.active.value, true));
    } else if !AllDone(s) {
      var c :| 0 <= c < |s.calls| && s.calls[c].phase != Done;
      assert SoundCall(s, s.calls[c]);
      match s.calls[c].phase {
        case First => assert Enabled(s, FirstResponse(c, false, None));
        case Second => assert Enabled(s, SecondResponse(c));
        case Waiting(p) => assert s.refreshes[p].Settled?; assert Enabled(s, Continue(c));
      }
    }
  }
}
