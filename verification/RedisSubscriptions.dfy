/** The listener table of redis.service.ts, updated in place, and its refinement of the protocol. */
module RedisSubscriptions {
  import opened PubSub

  /** A JavaScript `Set` of callbacks: calls that wait share it by reference. */
  class CallbackSet {
    var members: set<Callback>

    constructor ()
      ensures members == {}
    {
      members := {};
    }
  }

  class RedisService {
    var channelSubscribers: map<Channel, CallbackSet>
    /** Commands sent on the subscriber connection and not answered, in order. */
    var pending: seq<Command<CallbackSet>>
    /** The channels Redis has subscribed for the connection. */
    var server: set<Channel>
    /** SUBSCRIBE calls that failed and have not resumed. */
    var rejected: seq<Command<CallbackSet>>
    ghost var Repr: set<CallbackSet>

    ghost function View(): State<CallbackSet>
      reads this, Repr
    {
      State(channelSubscribers, map s | s in Repr :: s.members, pending, server, rejected)
    }

    ghost predicate Valid()
      reads this, Repr
    {
      Sound(View())
    }

    constructor ()
      ensures Valid() && View() == Empty<CallbackSet>() && fresh(Repr)
    {
      channelSubscribers, pending, server, rejected, Repr := map[], [], {}, [], {};
    }

    /** subscribe, up to its `await`; `callbacks` is the set the call keeps. */
    method Subscribe(channel: Channel, callback: Callback) returns (callbacks: CallbackSet)
      requires Valid()
      modifies this, Repr
      ensures Valid() && fresh(Repr - old(Repr))
      ensures channel in old(channelSubscribers) || fresh(callbacks)
      ensures View() == SubscribeStep(old(View()), channel, callback, callbacks)
    {
      ghost var before := View();
      var isFirstSubscriber := true;
      if channel in channelSubscribers {
        callbacks := channelSubscribers[channel];
        isFirstSubscriber := callbacks.members == {};
      } else {
        callbacks := new CallbackSet();
        channelSubscribers := channelSubscribers[channel := callbacks];
        Repr := Repr + {callbacks};
      }
      callbacks.members := callbacks.members + {callback};
      if isFirstSubscriber {
        pending := pending + [Command.Subscribe(channel, callbacks, callback)];
      }
      assert View().sets == SubscribeStep(before, channel, callback, callbacks).sets;
      SubscribeKeepsSound(before, channel, callback, callbacks);
    }

    /** unsubscribe, up to its `await`. */
    method Unsubscribe(channel: Channel, callback: Callback)
      requires Valid()
      modifies this, Repr
      ensures Valid() && Repr == old(Repr)
      ensures View() == UnsubscribeStep(old(View()), channel, callback)
    {
      ghost var before := View();
      UnsubscribeKeepsSound(before, channel, callback);
      if channel !in channelSubscribers { return; }
      var callbacks := channelSubscribers[channel];
      callbacks.members := callbacks.members - {callback};
      if callbacks.members == {} {
        channelSubscribers := channelSubscribers - {channel};
        pending := pending + [Command.Unsubscribe(channel)];
      }
      assert View().sets == UnsubscribeStep(before, channel, callback).sets;
    }

    /** The `catch` of the i-th failed SUBSCRIBE, on the set its call kept. */
    method SubscribeFailed(i: nat)
      requires Valid() && i < |rejected|
      modifies this, Repr
      ensures Valid() && Repr == old(Repr)
      ensures Refers(old(View()), old(rejected)[i]) && View() == ResumeStep(old(View()), i)
    {
      ghost var before := View();
      ResumeKeepsSound(before, i);
      var call := rejected[i];
      call.callbacks.members := call.callbacks.members - {call.callback};
      if call.callbacks.members == {} {
        channelSubscribers := channelSubscribers - {call.channel};
      }
      rejected := rejected[..i] + rejected[i + 1..];
      assert View().sets == ResumeStep(before, i).sets;
    }

    /** The answer to the oldest command. */
    method Answer(success: bool)
      requires Valid() && pending != []
      modifies this
      ensures Valid() && Repr == old(Repr)
      ensures View() == if success then AcceptStep(old(View())) else RejectStep(old(View()))
    {
      StepKeepsSound(View(), if success then Accept else Reject);
      if success {
        server := Apply(pending[0], server);
      } else if pending[0].Subscribe? {
        rejected := rejected + [pending[0]];
      }
      pending := pending[1..];
    }

    /** The single message listener: the callbacks that get a message. */
    method Message(channel: Channel) returns (called: set<Callback>)
      requires Valid()
      ensures called == Reached(View(), channel)
      ensures called == {} <==> channel !in channelSubscribers
    {
      called := if channel in channelSubscribers then channelSubscribers[channel].members else {};
    }
  }
}
