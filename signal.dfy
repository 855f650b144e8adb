/** The blinker `Signal` class and `Namespace`. A `Signal` object holds the four dictionaries
    and the mute flag as fields and updates them in place; every method is proved to move the
    fields from one registry to the next exactly as the matching `SignalSpec` function says,
    so the lemmas of `SignalSpec` (consistency of the two indices, what connect and disconnect
    add and remove, what `receivers_for` yields) hold of the object. */
module Signals {
  import opened Wrappers
  import SignalSpec

  // ---------------------------------------------------------------------------------------
  // The loops over a defaultdict of sets, on the dictionary's value

  /** Some element of a non-empty set: the next one an iteration over the set visits. */
  method Pick<T>(s: set<T>) returns (x: T)
    requires s != {}
    ensures x in s
  {
    x :| x in s;
  }

  /** `for bucket in d.values(): bucket.discard(r)`. */
  method ScrubReceiver(buckets: map<int, set<int>>, r: int) returns (result: map<int, set<int>>)
    ensures result == SignalSpec.DiscardEverywhere(buckets, r)
  {
    result := buckets;
    var keys := buckets.Keys;
    while keys != {}
      invariant keys <= buckets.Keys && result.Keys == buckets.Keys
      invariant forall k :: k in buckets ==> result[k] == if k in keys then buckets[k] else buckets[k] - {r}
      decreases keys
    {
      var k := Pick(keys);
      result := result[k := result[k] - {r}];
      keys := keys - {k};
    }
    assert forall k :: k in buckets ==> result[k] == SignalSpec.DiscardEverywhere(buckets, r)[k];
  }

  /** `for receiver_id in ids: d[receiver_id].discard(sid)`, each read inserting a missing
      key. */
  method DiscardSender(buckets: map<int, set<int>>, ids: set<int>, sid: int) returns (result: map<int, set<int>>)
    ensures result == SignalSpec.DiscardAt(buckets, ids, sid)
  {
    result := buckets;
    var rest := ids;
    while rest != {}
      invariant rest <= ids
      invariant result.Keys == buckets.Keys + (ids - rest)
      invariant forall k :: k in result ==>
        result[k] == if k in ids - rest then SignalSpec.Bucket(buckets, k) - {sid} else buckets[k]
      decreases rest
    {
      var k := Pick(rest);
      result := result[k := SignalSpec.Bucket(result, k) - {sid}];
      rest := rest - {k};
    }
    assert forall k :: k in result ==> result[k] == SignalSpec.DiscardAt(buckets, ids, sid)[k];
  }

  /** `for _id, bucket in list(d.items()): if not bucket: d.pop(_id, None)`. */
  method DropEmpty(buckets: map<int, set<int>>) returns (result: map<int, set<int>>)
    ensures result == SignalSpec.NonEmptyBuckets(buckets)
  {
    result := buckets;
    var items := buckets.Keys;
    while items != {}
      invariant items <= buckets.Keys
      invariant forall k :: k in result ==> k in buckets && result[k] == buckets[k]
      invariant forall k :: k in buckets ==> (k in result <==> k in items || buckets[k] != {})
      decreases items
    {
      var k := Pick(items);
      if buckets[k] == {} {
        result := result - {k};
      }
      items := items - {k};
    }
    assert forall k :: k in result <==> k in buckets && buckets[k] != {};
    assert forall k :: k in result ==> result[k] == SignalSpec.NonEmptyBuckets(buckets)[k];
  }

  /** The elements of a sequence are pairwise distinct. */
  ghost predicate Distinct(xs: seq<int>)
  {
    forall i, j :: 0 <= i < j < |xs| ==> xs[i] != xs[j]
  }

  // ---------------------------------------------------------------------------------------
  // Signal

  class Signal {
    var receivers: map<int, SignalSpec.Ref>
    var bySender: map<int, set<int>>
    var byReceiver: map<int, set<int>>
    var weakSenders: map<int, bool>
    var isMuted: bool
    /** The name of a `NamedSignal`; `None` for a plain `Signal`. */
    const name: Option<string>

    /** The registry the four dictionaries currently hold. */
    function State(): SignalSpec.Registry
      reads this
    {
      SignalSpec.Registry(receivers, bySender, byReceiver, weakSenders)
    }

    /** The invariant every public method keeps: the two indices describe the same
        connections and every connected receiver is registered. */
    ghost predicate Valid()
      reads this
    {
      SignalSpec.Consistent(State())
    }

    /** `Signal()` and `NamedSignal(name)`: nothing connected, not muted. */
    constructor (name: Option<string>)
      ensures State() == SignalSpec.Empty && Valid()
      ensures !isMuted && this.name == name
    {
      receivers := map[];
      bySender := map[];
      byReceiver := map[];
      weakSenders := map[];
      isMuted := false;
      this.name := name;
      new;
      SignalSpec.EmptyIsConsistent();
    }

    /** `connect(receiver, sender, weak)`; returns the receiver it was given. `weakable` says
        whether the sender can be weakly referenced. */
    method Connect(receiver: SignalSpec.ObjId, sender: SignalSpec.Sender, weak: bool, weakable: bool)
      returns (connected: SignalSpec.ObjId)
      requires Valid()
      modifies this
      ensures Valid()
      ensures connected == receiver
      ensures State() == SignalSpec.Connect(old(State()), receiver, sender, weak, weakable)
      ensures isMuted == old(isMuted)
    {
      var receiverRef := if weak then SignalSpec.Weak(true) else SignalSpec.Strong;
      var senderId := if sender.AnySender? then SignalSpec.ANY_ID else sender.id;
      if receiver !in receivers {
        receivers := receivers[receiver := receiverRef];
      }
      bySender := SignalSpec.AddTo(bySender, senderId, receiver);
      byReceiver := SignalSpec.AddTo(byReceiver, receiver, senderId);
      if sender.Object? && senderId !in weakSenders && weakable {
        weakSenders := weakSenders[senderId := true];
      }
      SignalSpec.ConnectKeepsConsistent(old(State()), receiver, sender, weak, weakable);
      return receiver;
    }

    /** `disconnect(receiver, sender)`. */
    method Disconnect(receiver: SignalSpec.ObjId, sender: SignalSpec.Sender)
      requires Valid()
      modifies this
      ensures Valid()
      ensures State() == SignalSpec.Disconnect(old(State()), receiver, SignalSpec.SenderId(sender))
      ensures isMuted == old(isMuted)
    {
      var senderId := if sender.AnySender? then SignalSpec.ANY_ID else sender.id;
      DisconnectIds(receiver, senderId);
      SignalSpec.DisconnectKeepsConsistent(old(State()), receiver, senderId);
    }

    /** `_disconnect(receiver_id, sender_id)`. */
    method DisconnectIds(receiverId: int, senderId: int)
      modifies this
      ensures State() == SignalSpec.Disconnect(old(State()), receiverId, senderId)
      ensures isMuted == old(isMuted)
    {
      if senderId == SignalSpec.ANY_ID {
        var popped := if receiverId in byReceiver then byReceiver[receiverId] else {};
        byReceiver := byReceiver - {receiverId};
        if popped != {} {
          bySender := ScrubReceiver(bySender, receiverId);
        }
        receivers := receivers - {receiverId};
      } else {
        bySender := SignalSpec.DiscardFrom(bySender, senderId, receiverId);
        byReceiver := SignalSpec.DiscardFrom(byReceiver, receiverId, senderId);
      }
    }

    /** The referent of a weakly connected receiver is collected. */
    method ReceiverCollected(receiverId: SignalSpec.ObjId)
      requires Valid()
      modifies this
      ensures Valid()
      ensures State() == SignalSpec.ReceiverCollected(old(State()), receiverId)
      ensures isMuted == old(isMuted)
    {
      if receiverId in receivers && receivers[receiverId].Weak? {
        receivers := receivers[receiverId := SignalSpec.Weak(false)];
      }
      SignalSpec.CollectedKeepsConsistent(old(State()), receiverId, receiverId);
    }

    /** `_cleanup_receiver`: the callback of a receiver's weak reference. */
    method CleanupReceiver(receiverId: SignalSpec.ObjId)
      requires Valid()
      modifies this
      ensures Valid()
      ensures State() == SignalSpec.CleanupReceiver(old(State()), receiverId)
      ensures isMuted == old(isMuted)
    {
      DisconnectIds(receiverId, SignalSpec.ANY_ID);
      SignalSpec.DisconnectKeepsConsistent(old(State()), receiverId, SignalSpec.ANY_ID);
    }

    /** A weakly referenced sender is collected. */
    method SenderCollected(senderId: SignalSpec.ObjId)
      requires Valid()
      modifies this
      ensures Valid()
      ensures State() == SignalSpec.SenderCollected(old(State()), senderId)
      ensures isMuted == old(isMuted)
    {
      if senderId in weakSenders {
        weakSenders := weakSenders[senderId := false];
      }
      SignalSpec.CollectedKeepsConsistent(old(State()), senderId, senderId);
    }

    /** `_cleanup_sender`: the callback of a sender's weak reference. */
    method CleanupSender(senderId: SignalSpec.ObjId)
      requires Valid()
      modifies this
      ensures Valid()
      ensures State() == SignalSpec.CleanupSender(old(State()), senderId)
      ensures isMuted == old(isMuted)
    {
      weakSenders := weakSenders - {senderId};
      var popped := if senderId in bySender then bySender[senderId] else {};
      bySender := bySender - {senderId};
      byReceiver := DiscardSender(byReceiver, popped, senderId);
      SignalSpec.CleanupSenderKeepsConsistent(old(State()), senderId);
    }

    /** `_cleanup_bookkeeping`. */
    method CleanupBookkeeping()
      requires Valid()
      modifies this
      ensures Valid()
      ensures State() == SignalSpec.CleanupBookkeeping(old(State()))
      ensures isMuted == old(isMuted)
    {
      bySender := DropEmpty(bySender);
      byReceiver := DropEmpty(byReceiver);
      SignalSpec.CleanupBookkeepingKeepsConnections(old(State()));
    }

    /** `_clear_state`; the mute flag is not part of it. */
    method ClearState()
      modifies this
      ensures Valid()
      ensures State() == SignalSpec.ClearState(old(State()))
      ensures isMuted == old(isMuted)
    {
      weakSenders := map[];
      receivers := map[];
      bySender := map[];
      byReceiver := map[];
    }

    /** `has_receivers_for(sender)`. */
    method HasReceiversFor(sender: SignalSpec.Sender) returns (answer: bool)
      requires Valid()
      modifies this
      ensures Valid()
      ensures (answer, State()) == SignalSpec.HasReceiversFor(old(State()), sender)
      ensures isMuted == old(isMuted)
    {
      if receivers == map[] {
        return false;
      }
      SignalSpec.HasReceiversForKeepsConsistent(State(), sender);
      var anyBucket := SignalSpec.Bucket(bySender, SignalSpec.ANY_ID);
      bySender := SignalSpec.Touch(bySender, SignalSpec.ANY_ID);
      if anyBucket != {} {
        return true;
      }
      if sender.AnySender? {
        return false;
      }
      return sender.id in bySender;
    }

    /** `receivers_for(sender)` iterated to the end: the ids of the receivers it yields, each
        once, in the unspecified order of the id set. */
    method ReceiversFor(sender: SignalSpec.Sender) returns (yielded: seq<int>)
      requires Valid()
      modifies this
      ensures Valid()
      ensures (set r | r in yielded) == SignalSpec.ReceiversFor(old(State()), sender).0
      ensures State() == SignalSpec.ReceiversFor(old(State()), sender).1
      ensures Distinct(yielded)
      ensures isMuted == old(isMuted)
    {
      yielded := [];
      if receivers == map[] {
        return;
      }
      ghost var reg := State();
      var anyBucket := SignalSpec.Bucket(bySender, SignalSpec.ANY_ID);
      bySender := SignalSpec.Touch(bySender, SignalSpec.ANY_ID);
      var ids := if sender.Object? && sender.id in bySender then anyBucket + bySender[sender.id] else anyBucket;
      assert ids == SignalSpec.Candidates(reg, sender);
      yielded := YieldLive(ids, reg);
      SignalSpec.ReceiversForKeepsConsistent(reg, sender);
    }

    /** The loop of `receivers_for` over the candidate ids, visited in the set's order. */
    method YieldLive(ids: set<int>, ghost reg: SignalSpec.Registry) returns (yielded: seq<int>)
      requires State() == reg.(bySender := SignalSpec.Touch(reg.bySender, SignalSpec.ANY_ID))
      modifies this
      ensures (set r | r in yielded) == SignalSpec.Live(reg, ids)
      ensures State() == SignalSpec.Purge(old(State()), SignalSpec.Dead(reg, ids))
      ensures Distinct(yielded)
      ensures isMuted == old(isMuted)
    {
      yielded := [];
      ghost var reg1 := State();
      ghost var all := ids;
      var rest := ids;
      SignalSpec.PurgeNothing(reg1);
      assert SignalSpec.Dead(reg, all - rest) == {};
      while rest != {}
        invariant rest <= all
        invariant State() == SignalSpec.Purge(reg1, SignalSpec.Dead(reg, all - rest))
        invariant (set r | r in yielded) == SignalSpec.Live(reg, all - rest)
        invariant Distinct(yielded)
        invariant forall r :: r in yielded ==> r !in rest
        invariant isMuted == old(isMuted)
        decreases rest
      {
        var receiverId := Pick(rest);
        ghost var seen := all - rest;
        rest := rest - {receiverId};
        assert all - rest == seen + {receiverId};
        SignalSpec.LiveDeadStep(reg, seen, receiverId);
        var live := Visit(receiverId, reg, reg1, seen);
        if live {
          assert (set r | r in yielded + [receiverId]) == (set r | r in yielded) + {receiverId};
          yielded := yielded + [receiverId];
        }
      }
      assert all - rest == all;
    }

    /** One round of the loop of `receivers_for`: look the id up in `receivers`; a receiver
        whose referent was collected is disconnected from `ANY`, any other is yielded. */
    method Visit(receiverId: int, ghost reg: SignalSpec.Registry, ghost reg1: SignalSpec.Registry, ghost seen: set<int>)
      returns (live: bool)
      requires receiverId !in seen && reg1.receivers == reg.receivers
      requires State() == SignalSpec.Purge(reg1, SignalSpec.Dead(reg, seen))
      modifies this
      ensures State() == SignalSpec.Purge(reg1, SignalSpec.Dead(reg, seen + {receiverId}))
      ensures live <==> receiverId in reg.receivers && !SignalSpec.IsDead(reg.receivers[receiverId])
      ensures isMuted == old(isMuted)
    {
      SignalSpec.LiveDeadStep(reg, seen, receiverId);
      assert receiverId !in SignalSpec.Dead(reg, seen);
      assert receiverId in receivers <==> receiverId in reg.receivers;
      assert receiverId in receivers ==> receivers[receiverId] == reg.receivers[receiverId];
      ghost var dead := SignalSpec.Dead(reg, seen);
      live := false;
      if receiverId in receivers {
        var receiver := receivers[receiverId];
        if receiver.Weak? && !receiver.alive {
          assert SignalSpec.Dead(reg, seen + {receiverId}) == dead + {receiverId};
          SignalSpec.PurgeStep(reg1, dead, receiverId);
          DisconnectIds(receiverId, SignalSpec.ANY_ID);
        } else {
          assert SignalSpec.Dead(reg, seen + {receiverId}) == dead;
          live := true;
        }
      } else {
        assert SignalSpec.Dead(reg, seen + {receiverId}) == dead;
      }
    }

    /** `send(*sender, **kwargs)`: the pairs of a reached receiver and what it returned.
        `invoke` stands for calling a receiver with the sender and the keyword arguments. */
    method Send<R>(args: seq<SignalSpec.Sender>, debug: bool, invoke: int -> R)
      returns (res: Result<seq<(int, R)>, SignalSpec.SendError>)
      requires Valid()
      modifies this
      ensures Valid()
      ensures var spec := SignalSpec.Send(old(State()), old(isMuted), args, debug);
        && (res.Err? <==> spec.Err?)
        && (res.Err? ==> res.error == spec.error && State() == old(State()))
        && (res.Ok? ==> State() == spec.value.1 && (set p | p in res.value :: p.0) == spec.value.0)
      ensures res.Ok? ==> forall p :: p in res.value ==> p.1 == invoke(p.0)
      ensures res.Ok? ==> forall i, j :: 0 <= i < j < |res.value| ==> res.value[i].0 != res.value[j].0
      ensures old(isMuted) ==> res == Ok([])
      ensures isMuted == old(isMuted)
    {
      if isMuted {
        return Ok([]);
      }
      var target := SignalSpec.ExtractSender(State(), args, debug);
      if target.Err? {
        return Err(target.error);
      }
      if target.value.NoReceivers? {
        return Ok([]);
      }
      SignalSpec.SendKeepsConsistent(State(), isMuted, args, debug);
      var ids := ReceiversFor(target.value.sender);
      var results: seq<(int, R)> := [];
      for i := 0 to |ids|
        invariant |results| == i
        invariant forall j :: 0 <= j < i ==> results[j] == (ids[j], invoke(ids[j]))
      {
        results := results + [(ids[i], invoke(ids[i]))];
      }
      assert forall r :: r in ids ==> exists p :: p in results && p.0 == r;
      return Ok(results);
    }

    /** `with signal.muted(): signal.send(...)`: the send reaches nobody, and the flag is
        `False` afterwards whatever it was before. */
    method MutedSend<R>(args: seq<SignalSpec.Sender>, debug: bool, invoke: int -> R)
      returns (res: Result<seq<(int, R)>, SignalSpec.SendError>)
      requires Valid()
      modifies this
      ensures Valid()
      ensures res == Ok([]) && !isMuted && State() == old(State())
    {
      isMuted := true;
      res := Send(args, debug, invoke);
      isMuted := false;
    }
  }

  // ---------------------------------------------------------------------------------------
  // Namespace

  /** A mapping of signal names to signals. */
  class Namespace {
    var signals: map<string, Signal>

    constructor ()
      ensures signals == map[]
    {
      signals := map[];
    }

    /** `Namespace.signal(name)`: the stored signal, or a new `NamedSignal` stored under the
        name. */
    method SignalFor(name: string) returns (s: Signal)
      modifies this
      ensures name in old(signals) ==> s == old(signals)[name] && signals == old(signals)
      ensures name !in old(signals) ==>
        && fresh(s) && s.name == Some(name) && s.State() == SignalSpec.Empty && s.Valid() && !s.isMuted
        && signals == old(signals)[name := s]
      ensures name in signals && signals[name] == s
    {
      if name in signals {
        return signals[name];
      }
      s := new Signal(Some(name));
      signals := signals[name := s];
    }
  }

  /** Repeated calls with one name return the same signal object. */
  method SignalForTwice(ns: Namespace, name: string) returns (first: Signal, second: Signal)
    modifies ns
    ensures first == second
  {
    first := ns.SignalFor(name);
    second := ns.SignalFor(name);
  }
}
