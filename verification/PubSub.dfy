/** The refcounted subscriptions of redis.service.ts as a protocol. A call runs up to its first
  * `await` in one step; the commands it sends are answered by the server in order; a rejected
  * SUBSCRIBE resumes the call that sent it in a later step. S identifies the `Set` objects, because a
  * call keeps the one it found while it waits.
  */
module PubSub {

  type Channel = string
  type Callback = nat

  datatype Command<S> =
    | Subscribe(channel: Channel, callbacks: S, callback: Callback)
    | Unsubscribe(channel: Channel)

  /** table is `channelSubscribers`, sets the contents of every `Set` made so far, queue the commands
    * that were sent and not answered, server the channels Redis has subscribed, rejected the
    * SUBSCRIBE calls that failed and have not resumed.
    */
  datatype State<S> = State(
    table: map<Channel, S>,
    sets: map<S, set<Callback>>,
    queue: seq<Command<S>>,
    server: set<Channel>,
    rejected: seq<Command<S>>)

  function Empty<S>(): State<S> {
    State(map[], map[], [], {}, [])
  }

  // ---------- steps ----------

  /** `newSet` is the `Set` the call makes if the channel has none. */
  function SubscribeStep<S>(s: State<S>, ch: Channel, cb: Callback, newSet: S): State<S>
    requires ch in s.table ==> s.table[ch] in s.sets
  {
    var callbacks := if ch in s.table then s.table[ch] else newSet;
    var before := if ch in s.table then s.sets[callbacks] else {};
    s.(table := s.table[ch := callbacks],
       sets := s.sets[callbacks := before + {cb}],
       queue := s.queue + if before == {} then [Subscribe(ch, callbacks, cb)] else [])
  }

  function UnsubscribeStep<S>(s: State<S>, ch: Channel, cb: Callback): State<S>
    requires ch in s.table ==> s.table[ch] in s.sets
  {
    if ch !in s.table then s
    else
      var left := s.sets[s.table[ch]] - {cb};
      var s' := s.(sets := s.sets[s.table[ch] := left]);
      if left == {} then s'.(table := s.table - {ch}, queue := s.queue + [Unsubscribe(ch)]) else s'
  }

  function Apply<S>(c: Command<S>, server: set<Channel>): set<Channel> {
    if c.Subscribe? then server + {c.channel} else server - {c.channel}
  }

  /** The server carries out the oldest command. */
  function AcceptStep<S>(s: State<S>): State<S>
    requires s.queue != []
  {
    s.(queue := s.queue[1..], server := Apply(s.queue[0], s.server))
  }

  /** The oldest command fails. A failed UNSUBSCRIBE is only logged. */
  function RejectStep<S>(s: State<S>): State<S>
    requires s.queue != []
  {
    s.(queue := s.queue[1..],
       rejected := s.rejected + if s.queue[0].Subscribe? then [s.queue[0]] else [])
  }

  /** The `catch` of a failed subscribe call, on the `Set` it kept. */
  function ResumeStep<S>(s: State<S>, i: nat): State<S>
    requires i < |s.rejected| && s.rejected[i].Subscribe? && s.rejected[i].callbacks in s.sets
  {
    var c := s.rejected[i];
    var left := s.sets[c.callbacks] - {c.callback};
    State(if left == {} then s.table - {c.channel} else s.table,
          s.sets[c.callbacks := left],
          s.queue, s.server, s.rejected[..i] + s.rejected[i + 1..])
  }

  datatype Event<S> =
    | SubscribeCall(ch: Channel, cb: Callback, newSet: S)
    | UnsubscribeCall(ch: Channel, cb: Callback)
    | Accept
    | Reject
    | Resume(i: nat)

  ghost predicate Enabled<S>(s: State<S>, e: Event<S>) {
    match e
    case SubscribeCall(ch, cb, newSet) => ch in s.table || newSet !in s.sets
    case UnsubscribeCall(ch, cb) => true
    case Accept => s.queue != []
    case Reject => s.queue != []
    case Resume(i) => i < |s.rejected|
  }

  // ---------- no channel maps to an empty set ----------

  ghost predicate Refers<S>(s: State<S>, c: Command<S>) {
    c.Subscribe? && c.callbacks in s.sets &&
    forall ch | ch in s.table && s.table[ch] == c.callbacks :: ch == c.channel
  }

  ghost predicate Sound<S>(s: State<S>) {
    && (forall ch | ch in s.table :: s.table[ch] in s.sets && s.sets[s.table[ch]] != {})
    && (forall a, b | a in s.table && b in s.table && s.table[a] == s.table[b] :: a == b)
    && (forall i | 0 <= i < |s.queue| && s.queue[i].Subscribe? :: Refers(s, s.queue[i]))
    && (forall i | 0 <= i < |s.rejected| :: Refers(s, s.rejected[i]))
  }

  function Next<S>(s: State<S>, e: Event<S>): State<S>
    requires Sound(s) && Enabled(s, e)
  {
    match e
    case SubscribeCall(ch, cb, newSet) => SubscribeStep(s, ch, cb, newSet)
    case UnsubscribeCall(ch, cb) => UnsubscribeStep(s, ch, cb)
    case Accept => AcceptStep(s)
    case Reject => RejectStep(s)
    case Resume(i) => assert Refers(s, s.rejected[i]); ResumeStep(s, i)
  }

  /** At every await boundary, failures included: no channel has an empty set of listeners. */
  lemma StepKeepsSound<S>(s: State<S>, e: Event<S>)
    requires Sound(s) && Enabled(s, e)
    ensures Sound(Next(s, e))
  {
    match e
    case SubscribeCall(ch, cb, newSet) => SubscribeKeepsSound(s, ch, cb, newSet);
    case UnsubscribeCall(ch, cb) => UnsubscribeKeepsSound(s, ch, cb);
    case Resume(i) => ResumeKeepsSound(s, i);
    case Accept =>
    case Reject =>
  }

  lemma SubscribeKeepsSound<S>(s: State<S>, ch: Channel, cb: Callback, newSet: S)
    requires Sound(s) && (ch in s.table || newSet !in s.sets)
    ensures Sound(SubscribeStep(s, ch, cb, newSet))
  {
    var s' := SubscribeStep(s, ch, cb, newSet);
    forall i | 0 <= i < |s.queue| && s.queue[i].Subscribe? ensures Refers(s', s.queue[i]) {
      assert Refers(s, s.queue[i]);
    }
    forall i | 0 <= i < |s.rejected| ensures Refers(s', s.rejected[i]) {
      assert Refers(s, s.rejected[i]);
    }
  }

  lemma UnsubscribeKeepsSound<S>(s: State<S>, ch: Channel, cb: Callback)
    requires Sound(s)
    ensures Sound(UnsubscribeStep(s, ch, cb))
  {
    var s' := UnsubscribeStep(s, ch, cb);
    forall i | 0 <= i < |s.queue| && s.queue[i].Subscribe? ensures Refers(s', s.queue[i]) {
      assert Refers(s, s.queue[i]);
    }
    forall i | 0 <= i < |s.rejected| ensures Refers(s', s.rejected[i]) {
      assert Refers(s, s.rejected[i]);
    }
  }

  lemma ResumeKeepsSound<S>(s: State<S>, i: nat)
    requires Sound(s) && i < |s.rejected|
    ensures Refers(s, s.rejected[i])
    ensures Sound(ResumeStep(s, i))
  {
    assert Refers(s, s.rejected[i]);
    var s' := ResumeStep(s, i);
    forall j | 0 <= j < |s'.queue| && s'.queue[j].Subscribe? ensures Refers(s', s'.queue[j]) {
      assert Refers(s, s.queue[j]);
    }
    forall j | 0 <= j < |s'.rejected| ensures Refers(s', s'.rejected[j]) {
      assert Refers(s, s.rejected[if j < i then j else j + 1]);
    }
  }

  // ---------- agreement with the server ----------

  /** The server's channels after the pending commands. */
  function Replay<S>(queue: seq<Command<S>>, server: set<Channel>): set<Channel> {
    if queue == [] then server else Replay(queue[1..], Apply(queue[0], server))
  }

  /** Every pending command will change something: no channel is subscribed or unsubscribed twice. */
  ghost predicate Effective<S>(queue: seq<Command<S>>, server: set<Channel>) {
    queue == [] ||
    (Apply(queue[0], server) != server && Effective(queue[1..], Apply(queue[0], server)))
  }

  /** A pending SUBSCRIBE is the last command for its channel exactly when its set is still in use. */
  ghost predicate LatestIsCurrent<S>(s: State<S>) {
    forall i | 0 <= i < |s.queue| && s.queue[i].Subscribe? ::
      var c := s.queue[i];
      (c.channel in s.table && s.table[c.channel] == c.callbacks) <==> NoneAfter(s.queue, i, c.channel)
  }

  ghost predicate NoneAfter<S>(queue: seq<Command<S>>, i: int, ch: Channel)
    requires -1 <= i
  {
    forall j | i < j < |queue| :: queue[j].channel != ch
  }

  /** Sets that left the table are empty. */
  ghost predicate OrphansEmpty<S>(s: State<S>) {
    forall x | x in s.sets && s.sets[x] != {} :: exists ch | ch in s.table :: s.table[ch] == x
  }

  /** Once the pending commands are carried out, exactly the channels with a listener are subscribed. */
  ghost predicate InStep<S>(s: State<S>) {
    Replay(s.queue, s.server) == s.table.Keys
  }

  /** The invariant of `InStep` and what keeps it. */
  ghost predicate Agrees<S>(s: State<S>) {
    && Sound(s)
    && s.rejected == []
    && InStep(s)
    && LatestIsCurrent(s)
    && OrphansEmpty(s)
  }

  lemma {:induction false} ReplaySnoc<S>(queue: seq<Command<S>>, c: Command<S>, server: set<Channel>)
    ensures Replay(queue + [c], server) == Apply(c, Replay(queue, server))
    ensures Effective(queue + [c], server) <==>
            Effective(queue, server) && Apply(c, Replay(queue, server)) != Replay(queue, server)
  {
    if queue == [] {
      assert queue + [c] == [c] && [c][1..] == [];
    } else {
      assert (queue + [c])[1..] == queue[1..] + [c];
      ReplaySnoc(queue[1..], c, Apply(queue[0], server));
    }
  }

  lemma SubscribeKeepsAgreement<S>(s: State<S>, ch: Channel, cb: Callback, newSet: S)
    requires Agrees(s) && (ch in s.table || newSet !in s.sets)
    ensures Agrees(SubscribeStep(s, ch, cb, newSet))
    ensures Effective(s.queue, s.server) ==>
            var s' := SubscribeStep(s, ch, cb, newSet); Effective(s'.queue, s'.server)
  {
    var s' := SubscribeStep(s, ch, cb, newSet);
    SubscribeKeepsSound(s, ch, cb, newSet);
    if ch in s.table {
      assert s'.table == s.table && s'.queue == s.queue;
    } else {
      ReplaySnoc(s.queue, Subscribe(ch, newSet, cb), s.server);
      forall i | 0 <= i < |s.queue| && s.queue[i].Subscribe?
        ensures NoneAfter(s'.queue, i, s.queue[i].channel) <==>
                NoneAfter(s.queue, i, s.queue[i].channel) && s.queue[i].channel != ch
      {
        NoneAfterSnoc(s.queue, i, s.queue[i].channel, Subscribe(ch, newSet, cb));
        assert Refers(s, s.queue[i]);
      }
    }
    forall x | x in s'.sets && s'.sets[x] != {} ensures exists c | c in s'.table :: s'.table[c] == x {
      if x == s'.table[ch] {
      } else {
        var c :| c in s.table && s.table[c] == x;
        assert c in s'.table;
      }
    }
  }

  lemma NoneAfterSnoc<S>(queue: seq<Command<S>>, i: int, ch: Channel, c: Command<S>)
    requires 0 <= i < |queue|
    ensures NoneAfter(queue + [c], i, ch) <==> NoneAfter(queue, i, ch) && c.channel != ch
  {
    var q := queue + [c];
    assert q[|queue|] == c;
    if NoneAfter(q, i, ch) {
      forall j | i < j < |queue| ensures queue[j].channel != ch { assert q[j] == queue[j]; }
    }
  }

  lemma UnsubscribeKeepsAgreement<S>(s: State<S>, ch: Channel, cb: Callback)
    requires Agrees(s)
    ensures Agrees(UnsubscribeStep(s, ch, cb))
    ensures Effective(s.queue, s.server) ==>
            var s' := UnsubscribeStep(s, ch, cb); Effective(s'.queue, s'.server)
  {
    var s' := UnsubscribeStep(s, ch, cb);
    UnsubscribeKeepsSound(s, ch, cb);
    if ch in s.table && s'.table != s.table {
      ReplaySnoc(s.queue, Unsubscribe(ch), s.server);
      forall i | 0 <= i < |s.queue| && s.queue[i].Subscribe?
        ensures NoneAfter(s'.queue, i, s.queue[i].channel) <==>
                NoneAfter(s.queue, i, s.queue[i].channel) && s.queue[i].channel != ch
      {
        NoneAfterSnoc(s.queue, i, s.queue[i].channel, Unsubscribe(ch));
      }
    }
    forall x | x in s'.sets && s'.sets[x] != {} ensures exists c | c in s'.table :: s'.table[c] == x {
      var c :| c in s.table && s.table[c] == x;
      assert c in s'.table;
    }
  }

  lemma AcceptKeepsAgreement<S>(s: State<S>)
    requires Agrees(s) && s.queue != []
    ensures Agrees(AcceptStep(s))
    ensures Effective(s.queue, s.server) ==>
            var s' := AcceptStep(s); Effective(s'.queue, s'.server)
  {
    var s' := AcceptStep(s);
    StepKeepsSound(s, Accept);
    forall i | 0 <= i < |s'.queue| && s'.queue[i].Subscribe?
      ensures NoneAfter(s'.queue, i, s'.queue[i].channel) <==> NoneAfter(s.queue, i + 1, s'.queue[i].channel)
    {
      NoneAfterTail(s.queue, i, s'.queue[i].channel);
    }
  }

  lemma NoneAfterTail<S>(queue: seq<Command<S>>, i: int, ch: Channel)
    requires queue != [] && -1 <= i
    ensures NoneAfter(queue[1..], i, ch) <==> NoneAfter(queue, i + 1, ch)
  {
    if NoneAfter(queue[1..], i, ch) {
      forall j | i + 1 < j < |queue| ensures queue[j].channel != ch { assert queue[j] == queue[1..][j - 1]; }
    }
  }

  // ---------- whole runs ----------

  /** A run: each event is enabled where it happens. */
  ghost predicate IsRun<S>(s: State<S>, events: seq<Event<S>>)
    requires Sound(s)
    decreases |events|
  {
    events == [] ||
    (Enabled(s, events[0]) && (StepKeepsSound(s, events[0]); IsRun(Next(s, events[0]), events[1..])))
  }

  ghost function After<S>(s: State<S>, events: seq<Event<S>>): State<S>
    requires Sound(s) && IsRun(s, events)
    decreases |events|
  {
    if events == [] then s
    else StepKeepsSound(s, events[0]); After(Next(s, events[0]), events[1..])
  }

  /** In every interleaving, with any failures: no channel is left with an empty set of listeners. */
  lemma {:induction false} RunsStaySound<S>(s: State<S>, events: seq<Event<S>>)
    requires Sound(s) && IsRun(s, events)
    ensures Sound(After(s, events))
    decreases |events|
  {
    if events != [] {
      StepKeepsSound(s, events[0]);
      RunsStaySound(Next(s, events[0]), events[1..]);
    }
  }

  /** In every failure-free interleaving, replaying the pending commands gives exactly the channels
    * with a listener, and no command is redundant.
    */
  lemma {:induction false} FailureFreeRunsAgree<S>(s: State<S>, events: seq<Event<S>>)
    requires Agrees(s) && IsRun(s, events) && forall e | e in events :: !e.Reject?
    ensures Agrees(After(s, events))
    ensures Effective(s.queue, s.server) ==> Effective(After(s, events).queue, After(s, events).server)
    decreases |events|
  {
    if events != [] {
      var e := events[0];
      assert e in events;
      StepKeepsSound(s, e);
      match e {
        case SubscribeCall(ch, cb, newSet) => SubscribeKeepsAgreement(s, ch, cb, newSet);
        case UnsubscribeCall(ch, cb) => UnsubscribeKeepsAgreement(s, ch, cb);
        case Accept => AcceptKeepsAgreement(s);
      }
      FailureFreeRunsAgree(Next(s, e), events[1..]);
    }
  }

  /** From the start, once the queue is drained the server has exactly the channels with a listener. */
  lemma DrainedServerIsExact<S>(events: seq<Event<S>>)
    requires IsRun(Empty<S>(), events) && forall e | e in events :: !e.Reject?
    ensures var s := After(Empty<S>(), events);
            && (s.queue == [] ==> forall ch :: ch in s.server <==> ch in s.table)
            && forall ch | ch in s.table :: s.table[ch] in s.sets && s.sets[s.table[ch]] != {}
  {
    FailureFreeRunsAgree(Empty<S>(), events);
  }

  // ---------- after a failed SUBSCRIBE ----------

  lemma {:induction false} ReplayWithout<S>(queue: seq<Command<S>>, server: set<Channel>, ch: Channel)
    ensures forall x :: x != ch ==> (x in Replay(queue, server) <==> x in Replay(queue, server + {ch}))
    ensures NoneAfter(queue, -1, ch) ==>
              (ch in Replay(queue, server) <==> ch in server) && ch in Replay(queue, server + {ch})
    ensures !NoneAfter(queue, -1, ch) ==> (ch in Replay(queue, server) <==> ch in Replay(queue, server + {ch}))
  {
    if queue != [] {
      var c := queue[0];
      NoneAfterTail(queue, -1, ch);
      if c.channel == ch {
        assert Apply(c, server) == Apply(c, server + {ch});
      } else {
        assert Apply(c, server + {ch}) == Apply(c, server) + {ch};
        ReplayWithout(queue[1..], Apply(c, server), ch);
        assert NoneAfter(queue, -1, ch) <==> NoneAfter(queue, 0, ch);
      }
    }
  }

  /** The oldest command fails and, if it is a SUBSCRIBE, its call resumes at once. */
  function FailStep<S>(s: State<S>): State<S>
    requires Sound(s) && s.queue != [] && s.rejected == []
  {
    if s.queue[0].Subscribe? then
      assert Refers(s, s.queue[0]);
      ResumeStep(RejectStep(s), 0)
    else
      RejectStep(s)
  }

  /** A failed UNSUBSCRIBE does no harm if the channel is not subscribed or a later command decides it.
    * A failed SUBSCRIBE does none if its set is in use and has other listeners exactly when the channel
    * is still subscribed, or if nobody listens to the channel any more.
    */
  ghost predicate Recoverable<S>(s: State<S>)
    requires Sound(s) && s.queue != []
  {
    var c := s.queue[0];
    if c.Unsubscribe? then
      c.channel !in s.server || !NoneAfter(s.queue, 0, c.channel)
    else if c.channel in s.table && s.table[c.channel] == c.callbacks then
      c.channel in s.server <==> exists cb | cb in s.sets[c.callbacks] :: cb != c.callback
    else
      c.channel !in s.table
  }

  lemma UnsubscribeFailure<S>(s: State<S>)
    requires Agrees(s) && s.queue != [] && s.queue[0].Unsubscribe?
    ensures Recoverable(s) <==> InStep(FailStep(s))
    ensures Recoverable(s) ==> Agrees(FailStep(s))
  {
    var c, rest, s' := s.queue[0], s.queue[1..], FailStep(s);
    StepKeepsSound(s, Reject);
    NoneAfterTail(s.queue, -1, c.channel);
    ReplayWithout(rest, s.server - {c.channel}, c.channel);
    if c.channel in s.server {
      assert s.server - {c.channel} + {c.channel} == s.server;
    } else {
      assert s.server - {c.channel} == s.server;
    }
    TailKeepsLatest(s, s');
  }

  lemma TailKeepsLatest<S>(s: State<S>, s': State<S>)
    requires LatestIsCurrent(s) && s.queue != [] && s'.queue == s.queue[1..]
    requires s'.table == s.table ||
             (NoneAfter(s.queue, 0, s.queue[0].channel) && s'.table == s.table - {s.queue[0].channel})
    ensures LatestIsCurrent(s')
  {
    forall i | 0 <= i < |s'.queue| && s'.queue[i].Subscribe?
      ensures var c := s'.queue[i];
              (c.channel in s'.table && s'.table[c.channel] == c.callbacks) <==> NoneAfter(s'.queue, i, c.channel)
    {
      NoneAfterTail(s.queue, i, s'.queue[i].channel);
      assert s'.queue[i] == s.queue[i + 1];
    }
  }

  lemma SubscribeFailure<S>(s: State<S>)
    requires Agrees(s) && s.queue != [] && s.queue[0].Subscribe?
    ensures Recoverable(s) <==> InStep(FailStep(s))
    ensures Recoverable(s) ==> Agrees(FailStep(s))
  {
    var c, s' := s.queue[0], FailStep(s);
    assert Refers(s, c);
    StepKeepsSound(s, Reject);
    ResumeKeepsSound(RejectStep(s), 0);
    if c.channel in s.table && s.table[c.channel] == c.callbacks {
      CurrentSetFails(s);
    } else {
      OldSetFails(s);
    }
    if Recoverable(s) {
      FailureKeepsOrphansEmpty(s);
      if NoneAfter(s.queue, 0, c.channel) || s'.table == s.table { TailKeepsLatest(s, s'); }
    }
  }

  lemma CurrentSetFails<S>(s: State<S>)
    requires Agrees(s) && s.queue != [] && s.queue[0].Subscribe?
    requires s.queue[0].channel in s.table && s.table[s.queue[0].channel] == s.queue[0].callbacks
    ensures NoneAfter(s.queue, 0, s.queue[0].channel)
    ensures FailStep(s).table == s.table || FailStep(s).table == s.table - {s.queue[0].channel}
    ensures Recoverable(s) <==> InStep(FailStep(s))
  {
    hide OrphansEmpty;
    var c, rest, s' := s.queue[0], s.queue[1..], FailStep(s);
    NoneAfterTail(s.queue, -1, c.channel);
    ReplayWithout(rest, s.server, c.channel);
    var left := s.sets[c.callbacks] - {c.callback};
    if left != {} {
      var cb :| cb in left;
      assert cb in s.sets[c.callbacks] && cb != c.callback;
    }
    if cb :| cb in s.sets[c.callbacks] && cb != c.callback {
      assert cb in left;
    }
    assert c.channel in Replay(rest, s.server) <==> c.channel in s.server;
    assert c.channel in s'.table <==> left != {};
  }

  lemma OldSetFails<S>(s: State<S>)
    requires Agrees(s) && s.queue != [] && s.queue[0].Subscribe?
    requires !(s.queue[0].channel in s.table && s.table[s.queue[0].channel] == s.queue[0].callbacks)
    ensures Recoverable(s) ==> FailStep(s).table == s.table
    ensures Recoverable(s) <==> InStep(FailStep(s))
  {
    var c, rest, s' := s.queue[0], s.queue[1..], FailStep(s);
    assert Refers(s, c);
    NoneAfterTail(s.queue, -1, c.channel);
    ReplayWithout(rest, s.server, c.channel);
    assert Replay(rest, s.server + {c.channel}) == s.table.Keys;
    assert s.sets[c.callbacks] == {};
    assert s'.table == s.table - {c.channel};
    assert Replay(rest, s.server) == s.table.Keys;
  }

  lemma FailureKeepsOrphansEmpty<S>(s: State<S>)
    requires Agrees(s) && s.queue != [] && s.queue[0].Subscribe? && Recoverable(s)
    ensures OrphansEmpty(FailStep(s))
  {
    var c, s' := s.queue[0], FailStep(s);
    assert Refers(s, c);
    forall x | x in s'.sets && s'.sets[x] != {} ensures exists ch | ch in s'.table :: s'.table[ch] == x {
      var ch :| ch in s.table && s.table[ch] == x;
      assert ch in s'.table;
    }
  }

  /** A failure that is handled at once leaves the server and the table in step exactly when it is
    * recoverable, and then every later failure can be judged by the same condition.
    */
  lemma FailureRecovers<S>(s: State<S>)
    requires Agrees(s) && s.queue != []
    ensures Recoverable(s) <==> InStep(FailStep(s))
    ensures Recoverable(s) <==> Agrees(FailStep(s))
  {
    if s.queue[0].Subscribe? { SubscribeFailure(s); } else { UnsubscribeFailure(s); }
  }

  /** Every failed SUBSCRIBE resumes before anything else happens. */
  ghost predicate Prompt<S>(s: State<S>, events: seq<Event<S>>)
    requires Sound(s) && IsRun(s, events)
    decreases |events|
  {
    if events == [] then s.rejected == []
    else
      (s.rejected != [] ==> events[0] == Resume(0)) &&
      (StepKeepsSound(s, events[0]); Prompt(Next(s, events[0]), events[1..]))
  }

  /** Whenever no failure is waiting, server and table are in step. */
  ghost predicate InStepThroughout<S>(s: State<S>, events: seq<Event<S>>)
    requires Sound(s) && IsRun(s, events)
    decreases |events|
  {
    (s.rejected == [] ==> InStep(s)) &&
    (events == [] || (StepKeepsSound(s, events[0]); InStepThroughout(Next(s, events[0]), events[1..])))
  }

  ghost predicate FailuresRecoverable<S>(s: State<S>, events: seq<Event<S>>)
    requires Sound(s) && IsRun(s, events)
    decreases |events|
  {
    events == [] ||
    ((events[0].Reject? ==> Recoverable(s)) &&
     (StepKeepsSound(s, events[0]); FailuresRecoverable(Next(s, events[0]), events[1..])))
  }

  /** In every run whose failures are handled at once, server and table stay in step throughout exactly
    * when every failure is recoverable where it happens.
    */
  lemma {:induction false} PromptRunsStayInStep<S>(s: State<S>, events: seq<Event<S>>)
    requires Agrees(s) && IsRun(s, events) && Prompt(s, events)
    ensures InStepThroughout(s, events) <==> FailuresRecoverable(s, events)
    decreases |events|
  {
    if events == [] { return; }
    var e, s1 := events[0], Next(s, events[0]);
    StepKeepsSound(s, e);
    match e {
      case SubscribeCall(ch, cb, newSet) => SubscribeKeepsAgreement(s, ch, cb, newSet);
      case UnsubscribeCall(ch, cb) => UnsubscribeKeepsAgreement(s, ch, cb);
      case Accept => AcceptKeepsAgreement(s);
      case Reject => FailureRecovers(s);
    }
    if e.Reject? && s.queue[0].Subscribe? {
      assert s1.rejected == [s.queue[0]] && events[1] == Resume(0);
      StepKeepsSound(s1, Resume(0));
      var s2, later := FailStep(s), events[1..];
      assert later[0] == Resume(0) && Next(s1, later[0]) == s2 && s2.rejected == [];
      assert InStepThroughout(s1, later) <==> InStepThroughout(s2, later[1..]);
      assert FailuresRecoverable(s1, later) <==> FailuresRecoverable(s2, later[1..]);
      if Recoverable(s) { PromptRunsStayInStep(s2, later[1..]); }
    } else if !e.Reject? || Recoverable(s) {
      PromptRunsStayInStep(s1, events[1..]);
    }
  }

  // ---------- failures in any interleaving ----------

  /** Once the pending commands are carried out, the channel is subscribed exactly if it has a listener. */
  ghost predicate InStepAt<S>(s: State<S>, ch: Channel) {
    ch in Replay(s.queue, s.server) <==> ch in s.table
  }

  /** The oldest command is the last one pending for the channel. */
  ghost predicate Decides<S>(s: State<S>, ch: Channel) {
    s.queue != [] && s.queue[0].channel == ch && NoneAfter(s.queue, 0, ch)
  }

  /** The i-th failed call takes the channel out of the table when it resumes. */
  ghost predicate Drops<S>(s: State<S>, i: nat, ch: Channel)
    requires Sound(s) && i < |s.rejected|
  {
    assert Refers(s, s.rejected[i]);
    s.rejected[i].channel == ch && ch in s.table && s.sets[s.rejected[i].callbacks] <= {s.rejected[i].callback}
  }

  /** Events that put the channel in step, whatever happened before: its first listener comes, its last
    * one goes, a failing last command would have changed nothing, or a late failure drops a channel that
    * will not be subscribed.
    */
  ghost predicate Mends<S>(s: State<S>, e: Event<S>, ch: Channel)
    requires Sound(s) && Enabled(s, e)
  {
    match e
    case SubscribeCall(c, _, _) => c == ch && ch !in s.table
    case UnsubscribeCall(c, cb) => c == ch && ch in s.table && s.sets[s.table[ch]] <= {cb}
    case Accept => false
    case Reject => Decides(s, ch) && (ch in s.server <==> ch in s.table)
    case Resume(i) => Drops(s, i, ch) && ch !in Replay(s.queue, s.server)
  }

  /** Events that put the channel out of step: its last pending command fails and is missed, or a late
    * failure drops a channel that will be subscribed.
    */
  ghost predicate Breaks<S>(s: State<S>, e: Event<S>, ch: Channel)
    requires Sound(s) && Enabled(s, e)
  {
    match e
    case SubscribeCall(_, _, _) => false
    case UnsubscribeCall(_, _) => false
    case Accept => false
    case Reject => Decides(s, ch) && !(ch in s.server <==> ch in s.table)
    case Resume(i) => Drops(s, i, ch) && ch in Replay(s.queue, s.server)
  }

  /** The effect of any event on any channel, with no assumption on earlier failures. */
  lemma EffectOfEvent<S>(s: State<S>, e: Event<S>, ch: Channel)
    requires Sound(s) && Enabled(s, e)
    ensures InStepAt(Next(s, e), ch) <==> Mends(s, e, ch) || (InStepAt(s, ch) && !Breaks(s, e, ch))
    ensures !(Mends(s, e, ch) && Breaks(s, e, ch))
  {
    match e
    case SubscribeCall(c, cb, newSet) => EffectOfSubscribe(s, c, cb, newSet, ch);
    case UnsubscribeCall(c, cb) => EffectOfUnsubscribe(s, c, cb, ch);
    case Accept =>
    case Reject => EffectOfReject(s, ch);
    case Resume(i) => EffectOfResume(s, i, ch);
  }

  lemma EffectOfSubscribe<S>(s: State<S>, c: Channel, cb: Callback, newSet: S, ch: Channel)
    requires Sound(s) && (c in s.table || newSet !in s.sets)
    ensures InStepAt(SubscribeStep(s, c, cb, newSet), ch) <==> (c == ch && ch !in s.table) || InStepAt(s, ch)
  {
    if c in s.table {
      assert SubscribeStep(s, c, cb, newSet).queue == s.queue;
    } else {
      ReplaySnoc(s.queue, Subscribe(c, newSet, cb), s.server);
    }
  }

  lemma EffectOfUnsubscribe<S>(s: State<S>, c: Channel, cb: Callback, ch: Channel)
    requires Sound(s)
    ensures InStepAt(UnsubscribeStep(s, c, cb), ch) <==>
            (c == ch && ch in s.table && s.sets[s.table[ch]] <= {cb}) || InStepAt(s, ch)
  {
    if c in s.table {
      assert s.sets[s.table[c]] - {cb} == {} <==> s.sets[s.table[c]] <= {cb};
      ReplaySnoc(s.queue, Unsubscribe(c), s.server);
    }
  }

  /** A failed command that is the last one for its channel leaves the server as it is; any other one
    * changes nothing in the end.
    */
  lemma EffectOfReject<S>(s: State<S>, ch: Channel)
    requires Sound(s) && s.queue != []
    ensures InStepAt(RejectStep(s), ch) <==>
            if Decides(s, ch) then ch in s.server <==> ch in s.table else InStepAt(s, ch)
  {
    var c, rest := s.queue[0].channel, s.queue[1..];
    NoneAfterTail(s.queue, -1, c);
    ReplayWithout(rest, s.server, c);
    ReplayWithout(rest, s.server - {c}, c);
    assert c in s.server ==> s.server - {c} + {c} == s.server;
    assert c !in s.server ==> s.server - {c} == s.server;
  }

  /** A late failure that takes the channel out of the table turns a channel in step into one that is
    * not, and the other way round.
    */
  lemma EffectOfResume<S>(s: State<S>, i: nat, ch: Channel)
    requires Sound(s) && i < |s.rejected|
    ensures Refers(s, s.rejected[i])
    ensures InStepAt(ResumeStep(s, i), ch) <==> if Drops(s, i, ch) then !InStepAt(s, ch) else InStepAt(s, ch)
  {
    var c := s.rejected[i];
    assert Refers(s, c);
    assert s.sets[c.callbacks] - {c.callback} == {} <==> s.sets[c.callbacks] <= {c.callback};
  }

  /** The state before the i-th event. */
  ghost function StateAt<S>(s: State<S>, events: seq<Event<S>>, i: nat): (r: State<S>)
    requires Sound(s) && IsRun(s, events) && i <= |events|
    ensures Sound(r) && (i < |events| ==> Enabled(r, events[i]))
    decreases i
  {
    if i == 0 then s
    else StepKeepsSound(s, events[0]); StateAt(Next(s, events[0]), events[1..], i - 1)
  }

  ghost predicate MendsAt<S>(s: State<S>, events: seq<Event<S>>, i: nat, ch: Channel)
    requires Sound(s) && IsRun(s, events) && i < |events|
  {
    Mends(StateAt(s, events, i), events[i], ch)
  }

  ghost predicate BreaksAt<S>(s: State<S>, events: seq<Event<S>>, i: nat, ch: Channel)
    requires Sound(s) && IsRun(s, events) && i < |events|
  {
    Breaks(StateAt(s, events, i), events[i], ch)
  }

  /** Every event that breaks the channel is followed by one that mends it. */
  ghost predicate MendedAfter<S>(s: State<S>, events: seq<Event<S>>, ch: Channel)
    requires Sound(s) && IsRun(s, events)
  {
    forall i | 0 <= i < |events| && BreaksAt(s, events, i, ch) ::
      exists j | i < j < |events| :: MendsAt(s, events, j, ch)
  }

  ghost predicate MendedOnce<S>(s: State<S>, events: seq<Event<S>>, ch: Channel)
    requires Sound(s) && IsRun(s, events)
  {
    exists j | 0 <= j < |events| :: MendsAt(s, events, j, ch)
  }

  lemma ShiftByOne<S>(s: State<S>, events: seq<Event<S>>, ch: Channel)
    requires Sound(s) && IsRun(s, events) && events != []
    ensures Sound(Next(s, events[0])) && IsRun(Next(s, events[0]), events[1..])
    ensures var t, later := Next(s, events[0]), events[1..];
            && (MendedOnce(s, events, ch) <==> Mends(s, events[0], ch) || MendedOnce(t, later, ch))
            && (MendedAfter(s, events, ch) <==>
                  (Breaks(s, events[0], ch) ==> MendedOnce(t, later, ch)) && MendedAfter(t, later, ch))
  {
    StepKeepsSound(s, events[0]);
    var t, later := Next(s, events[0]), events[1..];
    hide Sound, Mends, Breaks, Next;
    forall i | 0 <= i < |later|
      ensures MendsAt(t, later, i, ch) <==> MendsAt(s, events, i + 1, ch)
      ensures BreaksAt(t, later, i, ch) <==> BreaksAt(s, events, i + 1, ch)
    {
      assert StateAt(s, events, i + 1) == StateAt(t, later, i);
    }
    assert MendsAt(s, events, 0, ch) <==> Mends(s, events[0], ch);
    assert BreaksAt(s, events, 0, ch) <==> Breaks(s, events[0], ch);
    OnceShifts(s, events, t, later, ch);
    AfterShifts(s, events, t, later, ch);
  }

  lemma OnceShifts<S>(s: State<S>, events: seq<Event<S>>, t: State<S>, later: seq<Event<S>>, ch: Channel)
    requires Sound(s) && IsRun(s, events) && events != [] && later == events[1..] && Sound(t) && IsRun(t, later)
    requires forall i | 0 <= i < |later| :: MendsAt(t, later, i, ch) <==> MendsAt(s, events, i + 1, ch)
    ensures MendedOnce(s, events, ch) <==> MendsAt(s, events, 0, ch) || MendedOnce(t, later, ch)
  {
    hide Sound, IsRun, MendsAt;
    if MendedOnce(s, events, ch) && !MendsAt(s, events, 0, ch) {
      var j :| 0 <= j < |events| && MendsAt(s, events, j, ch);
      assert MendsAt(t, later, j - 1, ch);
    }
    if MendedOnce(t, later, ch) {
      var j :| 0 <= j < |later| && MendsAt(t, later, j, ch);
      assert MendsAt(s, events, j + 1, ch);
    }
  }

  lemma AfterShifts<S>(s: State<S>, events: seq<Event<S>>, t: State<S>, later: seq<Event<S>>, ch: Channel)
    requires Sound(s) && IsRun(s, events) && events != [] && later == events[1..] && Sound(t) && IsRun(t, later)
    requires forall i | 0 <= i < |later| :: MendsAt(t, later, i, ch) <==> MendsAt(s, events, i + 1, ch)
    requires forall i | 0 <= i < |later| :: BreaksAt(t, later, i, ch) <==> BreaksAt(s, events, i + 1, ch)
    ensures MendedAfter(s, events, ch) <==>
            (BreaksAt(s, events, 0, ch) ==> MendedOnce(t, later, ch)) && MendedAfter(t, later, ch)
  {
    hide Sound, IsRun, MendsAt, BreaksAt;
    if MendedAfter(s, events, ch) {
      if BreaksAt(s, events, 0, ch) {
        var j :| 0 < j < |events| && MendsAt(s, events, j, ch);
        assert MendsAt(t, later, j - 1, ch);
      }
      forall i | 0 <= i < |later| && BreaksAt(t, later, i, ch)
        ensures exists j | i < j < |later| :: MendsAt(t, later, j, ch)
      {
        assert BreaksAt(s, events, i + 1, ch);
        var j :| i + 1 < j < |events| && MendsAt(s, events, j, ch);
        assert MendsAt(t, later, j - 1, ch);
      }
    }
    if (BreaksAt(s, events, 0, ch) ==> MendedOnce(t, later, ch)) && MendedAfter(t, later, ch) {
      forall i | 0 <= i < |events| && BreaksAt(s, events, i, ch)
        ensures exists j | i < j < |events| :: MendsAt(s, events, j, ch)
      {
        assert i > 0 ==> BreaksAt(t, later, i - 1, ch);
        var j :| i - 1 < j < |later| && MendsAt(t, later, j, ch);
        assert MendsAt(s, events, j + 1, ch);
      }
    }
  }

  /** In every run, whatever fails and however late the calls resume: a channel is in step at the end
    * exactly when it was in step before or was mended, and was mended after every event that broke it.
    */
  lemma {:induction false} InStepAtTheEnd<S>(s: State<S>, events: seq<Event<S>>, ch: Channel)
    requires Sound(s) && IsRun(s, events)
    ensures InStepAt(After(s, events), ch) <==>
            (InStepAt(s, ch) || MendedOnce(s, events, ch)) && MendedAfter(s, events, ch)
    decreases |events|
  {
    hide Sound, InStepAt, Mends, Breaks, Next, MendedOnce, MendedAfter, Enabled;
    if events == [] {
      NothingMended(s, events, ch);
    } else {
      StepKeepsSound(s, events[0]);
      EffectOfEvent(s, events[0], ch);
      ShiftByOne(s, events, ch);
      InStepAtTheEnd(Next(s, events[0]), events[1..], ch);
    }
  }

  lemma NothingMended<S>(s: State<S>, events: seq<Event<S>>, ch: Channel)
    requires Sound(s) && events == [] && IsRun(s, events)
    ensures !MendedOnce(s, events, ch) && MendedAfter(s, events, ch)
  {}

  /** From the start, once all commands are answered: the server has exactly the channels with a listener
    * if and only if every event that broke a channel was followed by one that mended it.
    */
  lemma DrainedServerAfterFailures<S>(events: seq<Event<S>>)
    requires IsRun(Empty<S>(), events) && After(Empty<S>(), events).queue == []
    ensures var s := After(Empty<S>(), events);
            s.server == s.table.Keys <==> forall ch :: MendedAfter(Empty<S>(), events, ch)
  {
    hide MendedAfter, MendedOnce, IsRun, After;
    var s := After(Empty<S>(), events);
    forall ch ensures (ch in s.server <==> ch in s.table) <==> MendedAfter(Empty<S>(), events, ch) {
      InStepAtTheEnd(Empty<S>(), events, ch);
      assert InStepAt(s, ch) <==> (ch in s.server <==> ch in s.table);
    }
    assert s.server == s.table.Keys <==> forall ch :: ch in s.server <==> ch in s.table;
  }

  // ---------- who listens ----------

  /** The callbacks that a message on the channel reaches. */
  ghost function Reached<S>(s: State<S>, ch: Channel): set<Callback>
    requires ch in s.table ==> s.table[ch] in s.sets
  {
    if ch in s.table then s.sets[s.table[ch]] else {}
  }

  ghost predicate Joins<S>(e: Event<S>, ch: Channel, cb: Callback) {
    e.SubscribeCall? && e.ch == ch && e.cb == cb
  }

  ghost predicate Quits<S>(e: Event<S>, ch: Channel, cb: Callback) {
    e.UnsubscribeCall? && e.ch == ch && e.cb == cb
  }

  /** The i-th failed call takes this listener out when it resumes: its own listener if its set is in use;
    * all of them if the channel is dropped.
    */
  ghost predicate Loses<S>(s: State<S>, i: nat, ch: Channel, cb: Callback)
    requires Sound(s) && i < |s.rejected|
  {
    var c := s.rejected[i];
    Drops(s, i, ch) || (c.channel == ch && ch in s.table && s.table[ch] == c.callbacks && c.callback == cb)
  }

  ghost predicate Leaves<S>(s: State<S>, e: Event<S>, ch: Channel, cb: Callback)
    requires Sound(s) && Enabled(s, e)
  {
    Quits(e, ch, cb) || (e.Resume? && Loses(s, e.i, ch, cb))
  }

  /** The effect of any event on any listener. */
  lemma EffectOnListener<S>(s: State<S>, e: Event<S>, ch: Channel, cb: Callback)
    requires Sound(s) && Enabled(s, e)
    ensures Sound(Next(s, e))
    ensures cb in Reached(Next(s, e), ch) <==> Joins(e, ch, cb) || (cb in Reached(s, ch) && !Leaves(s, e, ch, cb))
  {
    StepKeepsSound(s, e);
    match e
    case SubscribeCall(c, b, newSet) =>
    case UnsubscribeCall(c, b) => ListenersAfterUnsubscribe(s, c, b, ch);
    case Accept =>
    case Reject =>
    case Resume(i) => ListenersAfterResume(s, i, ch, cb);
  }

  lemma ListenersAfterUnsubscribe<S>(s: State<S>, c: Channel, b: Callback, ch: Channel)
    requires Sound(s) && Sound(UnsubscribeStep(s, c, b))
    ensures Reached(UnsubscribeStep(s, c, b), ch) == if c == ch then Reached(s, ch) - {b} else Reached(s, ch)
  {}

  lemma ListenersAfterResume<S>(s: State<S>, i: nat, ch: Channel, cb: Callback)
    requires Sound(s) && i < |s.rejected| && Refers(s, s.rejected[i]) && Sound(ResumeStep(s, i))
    ensures cb in Reached(ResumeStep(s, i), ch) <==> cb in Reached(s, ch) && !Loses(s, i, ch, cb)
  {
    var c := s.rejected[i];
    assert s.sets[c.callbacks] - {c.callback} == {} <==> s.sets[c.callbacks] <= {c.callback};
  }

  /** The listener does not leave from the given event on. */
  ghost predicate Stays<S>(s: State<S>, events: seq<Event<S>>, from: nat, ch: Channel, cb: Callback)
    requires Sound(s) && IsRun(s, events)
  {
    forall j | from <= j < |events| :: !Leaves(StateAt(s, events, j), events[j], ch, cb)
  }

  ghost predicate JoinsToStay<S>(s: State<S>, events: seq<Event<S>>, ch: Channel, cb: Callback)
    requires Sound(s) && IsRun(s, events)
  {
    exists i | 0 <= i < |events| :: Joins(events[i], ch, cb) && Stays(s, events, i + 1, ch, cb)
  }

  lemma StaysShifts<S>(s: State<S>, events: seq<Event<S>>, from: nat, ch: Channel, cb: Callback)
    requires Sound(s) && IsRun(s, events) && events != []
    ensures Sound(Next(s, events[0])) && IsRun(Next(s, events[0]), events[1..])
    ensures Stays(s, events, from + 1, ch, cb) <==> Stays(Next(s, events[0]), events[1..], from, ch, cb)
    ensures Stays(s, events, 0, ch, cb) <==> !Leaves(s, events[0], ch, cb) && Stays(s, events, 1, ch, cb)
  {
    StepKeepsSound(s, events[0]);
    var t, later := Next(s, events[0]), events[1..];
    hide Sound, Leaves, Next;
    forall j | 0 <= j < |later|
      ensures StateAt(s, events, j + 1) == StateAt(t, later, j) && events[j + 1] == later[j]
    {}
    assert StateAt(s, events, 0) == s;
    if Stays(s, events, from + 1, ch, cb) {
      forall j | from <= j < |later| ensures !Leaves(StateAt(t, later, j), later[j], ch, cb) {
        assert !Leaves(StateAt(s, events, j + 1), events[j + 1], ch, cb);
      }
    }
    if Stays(t, later, from, ch, cb) {
      forall j | from + 1 <= j < |events| ensures !Leaves(StateAt(s, events, j), events[j], ch, cb) {
        assert !Leaves(StateAt(t, later, j - 1), later[j - 1], ch, cb);
      }
    }
  }

  lemma JoinsShifts<S>(s: State<S>, events: seq<Event<S>>, ch: Channel, cb: Callback)
    requires Sound(s) && IsRun(s, events) && events != []
    ensures Sound(Next(s, events[0])) && IsRun(Next(s, events[0]), events[1..])
    ensures JoinsToStay(s, events, ch, cb) <==>
            (Joins(events[0], ch, cb) && Stays(s, events, 1, ch, cb)) ||
            JoinsToStay(Next(s, events[0]), events[1..], ch, cb)
  {
    StaysShifts(s, events, 0, ch, cb);
    var t, later := Next(s, events[0]), events[1..];
    hide Sound, Next, Stays;
    if i :| 0 <= i < |events| && Joins(events[i], ch, cb) && Stays(s, events, i + 1, ch, cb) {
      if i > 0 {
        StaysShifts(s, events, i, ch, cb);
        assert Joins(later[i - 1], ch, cb) && Stays(t, later, i - 1 + 1, ch, cb);
      }
    }
    if i :| 0 <= i < |later| && Joins(later[i], ch, cb) && Stays(t, later, i + 1, ch, cb) {
      StaysShifts(s, events, i + 1, ch, cb);
      assert Joins(events[i + 1], ch, cb) && Stays(s, events, i + 1 + 1, ch, cb);
    }
  }

  /** In every run, whatever fails: a callback is reached at the end exactly when it joined and has not left
    * since, or was reached before and has not left.
    */
  lemma {:induction false} ReachedAtTheEnd<S>(s: State<S>, events: seq<Event<S>>, ch: Channel, cb: Callback)
    requires Sound(s) && IsRun(s, events)
    ensures Sound(After(s, events))
    ensures cb in Reached(After(s, events), ch) <==>
            JoinsToStay(s, events, ch, cb) || (cb in Reached(s, ch) && Stays(s, events, 0, ch, cb))
    decreases |events|
  {
    hide Reached, Leaves, Next, Stays, Enabled;
    if events == [] {
      assert Stays(s, events, 0, ch, cb) by { NothingLeaves(s, events, ch, cb); }
    } else {
      EffectOnListener(s, events[0], ch, cb);
      StaysShifts(s, events, 0, ch, cb);
      JoinsShifts(s, events, ch, cb);
      ReachedAtTheEnd(Next(s, events[0]), events[1..], ch, cb);
    }
  }

  lemma NothingLeaves<S>(s: State<S>, events: seq<Event<S>>, ch: Channel, cb: Callback)
    requires Sound(s) && events == [] && IsRun(s, events)
    ensures Stays(s, events, 0, ch, cb)
  {}

  lemma {:induction false} NothingResumes<S>(s: State<S>, events: seq<Event<S>>, j: nat)
    requires Sound(s) && s.rejected == [] && IsRun(s, events) && j < |events|
    requires forall e | e in events :: !e.Reject?
    ensures !events[j].Resume?
    decreases |events|
  {
    assert events[0] in events;
    if j > 0 {
      StepKeepsSound(s, events[0]);
      NothingResumes(Next(s, events[0]), events[1..], j - 1);
    }
  }

  /** In every failure-free run from the start, in any interleaving: a message on a channel reaches exactly
    * the callbacks with a subscribe call that no unsubscribe call of the same callback follows.
    */
  lemma MessageReaches<S>(events: seq<Event<S>>, ch: Channel, cb: Callback)
    requires IsRun(Empty<S>(), events) && forall e | e in events :: !e.Reject?
    ensures Sound(After(Empty<S>(), events))
    ensures cb in Reached(After(Empty<S>(), events), ch) <==>
            exists i | 0 <= i < |events| ::
              events[i].SubscribeCall? && events[i].ch == ch && events[i].cb == cb &&
              forall j | i < j < |events| ::
                !(events[j].UnsubscribeCall? && events[j].ch == ch && events[j].cb == cb)
  {
    var s := Empty<S>();
    ReachedAtTheEnd(s, events, ch, cb);
    forall j | 0 <= j < |events|
      ensures Leaves(StateAt(s, events, j), events[j], ch, cb) <==>
              events[j].UnsubscribeCall? && events[j].ch == ch && events[j].cb == cb
    {
      NothingResumes(s, events, j);
    }
    hide Leaves, After, IsRun, Sound;
    assert Reached(s, ch) == {};
    if i :| 0 <= i < |events| && Joins(events[i], ch, cb) && Stays(s, events, i + 1, ch, cb) {
      assert forall j | i < j < |events| ::
          !(events[j].UnsubscribeCall? && events[j].ch == ch && events[j].cb == cb);
    }
    if i :| 0 <= i < |events| && events[i].SubscribeCall? && events[i].ch == ch && events[i].cb == cb &&
            forall j | i < j < |events| ::
              !(events[j].UnsubscribeCall? && events[j].ch == ch && events[j].cb == cb)
    {
      assert Joins(events[i], ch, cb) && Stays(s, events, i + 1, ch, cb);
    }
  }

  // ---------- examples ----------

  /** Two listeners join before the SUBSCRIBE fails: the second stays, with no subscription behind it. */
  lemma JoiningListenerIsStranded()
    ensures var s := SubscribeStep(SubscribeStep(Empty<nat>(), "c", 1, 0), "c", 2, 0);
            RejectStep(s).rejected == [Subscribe("c", 0, 1)] &&
            ResumeStep(RejectStep(s), 0) == State(map["c" := 0], map[0 := {2}], [], {}, [])
  {
    var s := SubscribeStep(SubscribeStep(Empty<nat>(), "c", 1, 0), "c", 2, 0);
    var s0 := SubscribeStep(Empty<nat>(), "c", 1, 0);
    assert {} + {1} == {1};
    assert s0.sets == map[0 := {1}] && s0.queue == [Subscribe("c", 0, 1)];
    assert s0 == State(map["c" := 0], map[0 := {1}], [Subscribe("c", 0, 1)], {}, []);
    assert {1} + {2} == {1, 2} && {1, 2} - {1} == {2};
    assert s == State(map["c" := 0], map[0 := {1, 2}], [Subscribe("c", 0, 1)], {}, []);
  }

  /** A listener that subscribes anew before an older failure arrives is dropped from the table, although
    * its own SUBSCRIBE succeeds.
    */
  lemma LateFailureDropsNewListener()
    ensures var s1 := UnsubscribeStep(SubscribeStep(Empty<nat>(), "c", 1, 0), "c", 1);
            var s2 := RejectStep(SubscribeStep(s1, "c", 2, 1));
            s2.rejected == [Subscribe("c", 0, 1)] &&
            var s3 := ResumeStep(s2, 0);
            |s3.queue| == 2 && AcceptStep(AcceptStep(s3)) == State(map[], map[0 := {}, 1 := {2}], [], {"c"}, [])
  {
    var s0 := SubscribeStep(Empty<nat>(), "c", 1, 0);
    assert {1} - {1} == {};
    var s1 := UnsubscribeStep(s0, "c", 1);
    assert s1 == State(map[], map[0 := {}], [Subscribe("c", 0, 1), Unsubscribe("c")], {}, []);
    var s2 := SubscribeStep(s1, "c", 2, 1);
    assert {} + {2} == {2};
    assert s2.sets == map[0 := {}, 1 := {2}];
    assert s2 == State(map["c" := 1], map[0 := {}, 1 := {2}],
                       [Subscribe("c", 0, 1), Unsubscribe("c"), Subscribe("c", 1, 2)], {}, []);
    var s3 := ResumeStep(RejectStep(s2), 0);
    assert s3 == State(map[], map[0 := {}, 1 := {2}], [Unsubscribe("c"), Subscribe("c", 1, 2)], {}, []);
  }
}
