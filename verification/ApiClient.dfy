/** The module variable of api-client.ts, set and cleared in place, and its refinement of the protocol. */
module ApiClient {
  import opened Wrappers
  import opened TokenRefresh

  /** The promise of one refresh: every call that waits holds a reference to it. */
  class RefreshPromise {
    var result: Option<bool>

    constructor ()
      ensures result == None
    {
      result := None;
    }

    ghost function View(): Refresh
      reads this
    {
      if result.Some? then Settled(result.value) else Outstanding
    }
  }

  class Client {
    var activeRefreshPromise: RefreshPromise?
    var calls: seq<Call<RefreshPromise>>
    /** Every refresh promise made so far. */
    ghost var Repr: set<RefreshPromise>

    ghost function View(): State<RefreshPromise>
      reads this, Repr
    {
      State(calls, map p | p in Repr :: p.View(), Active())
    }

    ghost function Active(): Option<RefreshPromise>
      reads this
    {
      if activeRefreshPromise == null then None else Some(activeRefreshPromise)
    }

    ghost predicate Valid()
      reads this, Repr
    {
      Sound(View())
    }

    constructor ()
      ensures Valid() && View() == Idle<RefreshPromise>() && fresh(Repr)
    {
      activeRefreshPromise, calls, Repr := null, [], {};
    }

    /** apiFetch, up to its first `await`. */
    method ApiFetch(endpoint: string) returns (c: nat)
      requires Valid()
      modifies this
      ensures Valid() && Repr == old(Repr) && c == |old(calls)|
      ensures View() == Next(old(View()), Start(endpoint))
    {
      hide Sound;
      ghost var before := View();
      StepKeepsSound(before, Start(endpoint));
      c := |calls|;
      calls := calls + [Call(endpoint, First, 1, false, None, None)];
      assert View().refreshes == before.refreshes;
    }

    /** requestTokenRefresh: the promise the caller waits on, shared with the other waiting calls. */
    method RequestTokenRefresh() returns (p: RefreshPromise)
      requires Valid()
      modifies this`activeRefreshPromise, this`Repr
      ensures activeRefreshPromise == p
      ensures if old(activeRefreshPromise) == null then fresh(p) && Repr == old(Repr) + {p}
              else p == old(activeRefreshPromise) && Repr == old(Repr)
      ensures var made := if old(activeRefreshPromise) == null then Some(p) else None;
              View() == TokenRefresh.RequestTokenRefresh(old(View()), made)
    {
      if activeRefreshPromise == null {
        activeRefreshPromise := new RefreshPromise();
        Repr := Repr + {activeRefreshPromise};
      }
      p := activeRefreshPromise;
    }

    /** The first response of call c; `made` is the promise it makes, if it sends a refresh. */
    method OnFirstResponse(c: nat, is401: bool) returns (ghost made: Option<RefreshPromise>)
      requires Valid() && c < |calls| && calls[c].phase == First
      modifies this
      ensures Valid() && fresh(Repr - old(Repr))
      ensures Enabled(old(View()), FirstResponse(c, is401, made))
      ensures View() == Next(old(View()), FirstResponse(c, is401, made))
    {
      hide Sound;
      ghost var before := View();
      var call := calls[c];
      made := None;
      if is401 && MayRefresh(call.endpoint) {
        var p := RequestTokenRefresh();
        made := if before.active.None? then Some(p) else None;
        ghost var sent := View();
        calls := calls[c := call.(phase := Waiting(p), got401 := true, waitedOn := Some(p))];
        assert View().refreshes == sent.refreshes;
      } else {
        calls := calls[c := call.(phase := Done, got401 := is401)];
        assert View().refreshes == before.refreshes;
      }
      StepKeepsSound(before, FirstResponse(c, is401, made));
    }

    /** The refresh request settles: its promise gets the result, for every call that waits on it, and its
      * `finally` clears the shared variable.
      */
    method OnRefreshSettled(p: RefreshPromise, ok: bool)
      requires Valid() && Enabled(View(), RefreshSettles(p, ok))
      modifies this`activeRefreshPromise, p
      ensures Valid() && View() == Next(old(View()), RefreshSettles(p, ok))
    {
      hide Sound;
      ghost var before := View();
      StepKeepsSound(before, RefreshSettles(p, ok));
      p.result := Some(ok);
      activeRefreshPromise := null;
      assert View().refreshes == before.refreshes[p := Settled(ok)];
    }

    /** Call c learns the result of the refresh it waited for, and retries once if it succeeded. */
    method OnRefreshed(c: nat)
      requires Valid() && Enabled(View(), Continue(c))
      modifies this`calls
      ensures Valid() && View() == Next(old(View()), Continue(c))
    {
      hide Sound;
      ghost var before := View();
      StepKeepsSound(before, Continue(c));
      var call := calls[c];
      var refreshed := call.phase.p.result.value;
      if refreshed {
        calls := calls[c := call.(phase := Second, sent := call.sent + 1, result := Some(true))];
      } else {
        calls := calls[c := call.(phase := Done, result := Some(false))];
      }
      assert View().refreshes == before.refreshes;
    }

    /** The response to the retry, whatever its status. */
    method OnSecondResponse(c: nat)
      requires Valid() && Enabled(View(), SecondResponse(c))
      modifies this`calls
      ensures Valid() && View() == Next(old(View()), SecondResponse(c))
    {
      hide Sound;
      ghost var before := View();
      StepKeepsSound(before, SecondResponse(c));
      calls := calls[c := calls[c].(phase := Done)];
      assert View().refreshes == before.refreshes;
    }
  }
}
