/** Value semantics of the bookkeeping inside a blinker `Signal`. A signal keeps four
    dictionaries: `receivers` (receiver id to the receiver or a weak reference to it),
    `_by_sender` (sender id to the ids of the receivers connected for it), `_by_receiver`
    (receiver id to the sender ids it is connected for) and `_weak_senders` (sender id to a
    weak reference to the sender). `Registry` holds the four as values; each operation of
    the signal is a function from the old registry to the new one. The two `defaultdict`s are
    maps in which a missing key stands for the empty set; a read through `[]` inserts the key,
    and `Touch` models that insertion. */
module SignalSpec {
  import opened Wrappers

  /** The identity `connect` and `disconnect` record for the `ANY` sender. */
  const ANY_ID: int := 0

  /** The identity of a real object. `id()` of a live object is an address, never `ANY_ID`. */
  type ObjId = x: int | x != ANY_ID witness 1

  /** The identity of Python's `None`, the sender `send()` uses when it is given none. */
  const NONE_ID: ObjId := 1

  /** A sender argument: the `ANY` token or an object, known by its identity. */
  datatype Sender = AnySender | Object(id: ObjId)

  /** The sender id `connect` and `disconnect` compute: `ANY_ID` for `ANY`, the object's
      identity otherwise. */
  function SenderId(s: Sender): (sid: int)
    ensures sid == ANY_ID <==> s.AnySender?
  {
    if s.AnySender? then ANY_ID else s.id
  }

  /** What `receivers` maps an id to: the receiver itself, or a weak reference to it whose
      referent is still alive or has been collected. */
  datatype Ref = Strong | Weak(alive: bool)

  predicate IsDead(r: Ref)
  {
    r.Weak? && !r.alive
  }

  datatype Registry = Registry(
    receivers: map<int, Ref>,
    bySender: map<int, set<int>>,
    byReceiver: map<int, set<int>>,
    weakSenders: map<int, bool>)

  /** The state `Signal.__init__` starts from. */
  const Empty: Registry := Registry(map[], map[], map[], map[])

  // ---------------------------------------------------------------------------------------
  // Maps of sets read as defaultdicts

  /** `d[k]` of a defaultdict of sets, without the insertion. */
  function Bucket(m: map<int, set<int>>, k: int): set<int>
  {
    if k in m then m[k] else {}
  }

  /** The insertion a defaultdict read `d[k]` makes. */
  function Touch(m: map<int, set<int>>, k: int): (r: map<int, set<int>>)
    ensures r.Keys == m.Keys + {k}
    ensures forall j :: Bucket(r, j) == Bucket(m, j)
  {
    if k in m then m else m[k := {}]
  }

  /** `d[k].add(v)`. */
  function AddTo(m: map<int, set<int>>, k: int, v: int): map<int, set<int>>
  {
    m[k := Bucket(m, k) + {v}]
  }

  /** `d[k].discard(v)`. */
  function DiscardFrom(m: map<int, set<int>>, k: int, v: int): map<int, set<int>>
  {
    m[k := Bucket(m, k) - {v}]
  }

  /** `for bucket in d.values(): bucket.discard(v)`. */
  function DiscardEverywhere(m: map<int, set<int>>, v: int): map<int, set<int>>
  {
    map k | k in m :: m[k] - {v}
  }

  /** `for k in ks: d[k].discard(v)`. */
  function DiscardAt(m: map<int, set<int>>, ks: set<int>, v: int): map<int, set<int>>
  {
    map k | k in m.Keys + ks :: if k in ks then Bucket(m, k) - {v} else m[k]
  }

  /** The entries of `d` whose set is not empty. */
  function NonEmptyBuckets(m: map<int, set<int>>): map<int, set<int>>
  {
    map k | k in m && m[k] != {} :: m[k]
  }

  lemma BucketAddTo(m: map<int, set<int>>, k: int, v: int)
    ensures forall j, x :: x in Bucket(AddTo(m, k, v), j) <==> x in Bucket(m, j) || (j == k && x == v)
  {
  }

  lemma BucketDiscardFrom(m: map<int, set<int>>, k: int, v: int)
    ensures forall j, x :: x in Bucket(DiscardFrom(m, k, v), j) <==> x in Bucket(m, j) && (j != k || x != v)
  {
  }

  lemma BucketDiscardEverywhere(m: map<int, set<int>>, v: int)
    ensures forall j, x :: x in Bucket(DiscardEverywhere(m, v), j) <==> x in Bucket(m, j) && x != v
  {
  }

  lemma BucketDiscardAt(m: map<int, set<int>>, ks: set<int>, v: int)
    ensures forall j, x :: x in Bucket(DiscardAt(m, ks, v), j) <==> x in Bucket(m, j) && (j !in ks || x != v)
  {
  }

  // ---------------------------------------------------------------------------------------
  // The invariant

  /** The two indices describe the same connections, and every connected receiver is
      registered in `receivers`. */
  ghost predicate Consistent(reg: Registry)
  {
    && (forall s, r :: r in Bucket(reg.bySender, s) <==> s in Bucket(reg.byReceiver, r))
    && (forall s, r :: r in Bucket(reg.bySender, s) ==> r in reg.receivers)
  }

  /** `r` is connected for sender id `s`. */
  predicate Connected(reg: Registry, s: int, r: int)
  {
    r in Bucket(reg.bySender, s)
  }

  lemma EmptyIsConsistent()
    ensures Consistent(Empty)
    ensures forall s, r :: !Connected(Empty, s, r)
  {
  }

  // ---------------------------------------------------------------------------------------
  // connect

  /** `connect(receiver, sender, weak)`. A receiver already in `receivers` keeps its entry;
      a sender other than `ANY` gets a weak-sender entry when it has none yet and can be
      weakly referenced (`weakable`). */
  function Connect(reg: Registry, r: ObjId, s: Sender, weak: bool, weakable: bool): Registry
  {
    var sid := SenderId(s);
    Registry(
      if r in reg.receivers then reg.receivers else reg.receivers[r := if weak then Weak(true) else Strong],
      AddTo(reg.bySender, sid, r),
      AddTo(reg.byReceiver, r, sid),
      if s.Object? && sid !in reg.weakSenders && weakable then reg.weakSenders[sid := true]
      else reg.weakSenders)
  }

  /** After `connect`, exactly one connection has been added, the receiver is registered
      and an existing registration is kept as it was. */
  lemma ConnectAddsPair(reg: Registry, r: ObjId, s: Sender, weak: bool, weakable: bool)
    ensures var reg' := Connect(reg, r, s, weak, weakable);
      && (forall s2, r2 :: Connected(reg', s2, r2) <==> Connected(reg, s2, r2) || (s2 == SenderId(s) && r2 == r))
      && (forall s2, r2 :: s2 in Bucket(reg'.byReceiver, r2) <==>
            s2 in Bucket(reg.byReceiver, r2) || (s2 == SenderId(s) && r2 == r))
      && reg'.receivers.Keys == reg.receivers.Keys + {r}
      && (r in reg.receivers ==> reg'.receivers[r] == reg.receivers[r])
      && (r !in reg.receivers ==> reg'.receivers[r] == if weak then Weak(true) else Strong)
      && (forall q :: q in reg.receivers ==> q in reg'.receivers && reg'.receivers[q] == reg.receivers[q])
  {
    BucketAddTo(reg.bySender, SenderId(s), r);
    BucketAddTo(reg.byReceiver, r, SenderId(s));
  }

  /** The weak-sender table gains an entry only for a weakly referenceable sender other than
      `ANY` that had none, and entries already there are never replaced. */
  lemma ConnectWeakSenders(reg: Registry, r: ObjId, s: Sender, weak: bool, weakable: bool)
    ensures var w' := Connect(reg, r, s, weak, weakable).weakSenders;
      && (forall k :: k in reg.weakSenders ==> k in w' && w'[k] == reg.weakSenders[k])
      && (forall k :: k in w' && k !in reg.weakSenders <==> s.Object? && weakable && k == s.id && k !in reg.weakSenders)
      && (ANY_ID !in reg.weakSenders ==> ANY_ID !in w')
  {
  }

  lemma {:induction false} ConnectKeepsConsistent(reg: Registry, r: ObjId, s: Sender, weak: bool, weakable: bool)
    requires Consistent(reg)
    ensures Consistent(Connect(reg, r, s, weak, weakable))
  {
    var reg' := Connect(reg, r, s, weak, weakable);
    ConnectAddsPair(reg, r, s, weak, weakable);
    forall s2, r2
      ensures r2 in Bucket(reg'.bySender, s2) <==> s2 in Bucket(reg'.byReceiver, r2)
    {
      assert Connected(reg', s2, r2) <==> Connected(reg, s2, r2) || (s2 == SenderId(s) && r2 == r);
    }
    forall s2, r2 | r2 in Bucket(reg'.bySender, s2)
      ensures r2 in reg'.receivers
    {
      assert Connected(reg', s2, r2);
    }
  }

  // ---------------------------------------------------------------------------------------
  // _disconnect, _cleanup_receiver

  /** `_disconnect(receiver_id, sender_id)`. With `ANY_ID` the receiver's `_by_receiver`
      entry is popped, every `_by_sender` set is scrubbed of it when that entry was a
      non-empty set, and its `receivers` entry goes. With a specific sender only that pair is
      discarded from both indices, and `receivers` is left as it is. */
  function Disconnect(reg: Registry, r: int, sid: int): Registry
  {
    if sid == ANY_ID then
      Registry(
        reg.receivers - {r},
        if Bucket(reg.byReceiver, r) != {} then DiscardEverywhere(reg.bySender, r) else reg.bySender,
        reg.byReceiver - {r},
        reg.weakSenders)
    else
      Registry(
        reg.receivers,
        DiscardFrom(reg.bySender, sid, r),
        DiscardFrom(reg.byReceiver, r, sid),
        reg.weakSenders)
  }

  /** Disconnecting from `ANY` forgets the receiver entirely and touches no other
      connection. */
  lemma DisconnectAnyForgets(reg: Registry, r: ObjId)
    requires Consistent(reg)
    ensures var reg' := Disconnect(reg, r, ANY_ID);
      && reg'.receivers == reg.receivers - {r}
      && r !in reg'.byReceiver
      && (forall s, r2 :: Connected(reg', s, r2) <==> Connected(reg, s, r2) && r2 != r)
      && (forall r2 :: r2 != r ==> Bucket(reg'.byReceiver, r2) == Bucket(reg.byReceiver, r2))
  {
    var reg' := Disconnect(reg, r, ANY_ID);
    if Bucket(reg.byReceiver, r) != {} {
      BucketDiscardEverywhere(reg.bySender, r);
    } else {
      forall s | true
        ensures !Connected(reg, s, r)
      {
        assert s !in Bucket(reg.byReceiver, r);
      }
    }
  }

  /** Disconnecting from one sender removes just that pair; the receiver stays registered in
      `receivers` even when it is left connected to nothing. */
  lemma DisconnectOneSender(reg: Registry, r: ObjId, sid: ObjId)
    ensures var reg' := Disconnect(reg, r, sid);
      && reg'.receivers == reg.receivers
      && (forall s, r2 :: Connected(reg', s, r2) <==> Connected(reg, s, r2) && (s != sid || r2 != r))
      && (forall s, r2 :: s in Bucket(reg'.byReceiver, r2) <==> s in Bucket(reg.byReceiver, r2) && (s != sid || r2 != r))
  {
    BucketDiscardFrom(reg.bySender, sid, r);
    BucketDiscardFrom(reg.byReceiver, r, sid);
  }

  lemma {:induction false} DisconnectKeepsConsistent(reg: Registry, r: ObjId, sid: int)
    requires Consistent(reg)
    ensures Consistent(Disconnect(reg, r, sid))
  {
    var reg' := Disconnect(reg, r, sid);
    if sid == ANY_ID {
      DisconnectAnyForgets(reg, r);
      forall s, r2
        ensures r2 in Bucket(reg'.bySender, s) <==> s in Bucket(reg'.byReceiver, r2)
      {
        assert Connected(reg', s, r2) <==> Connected(reg, s, r2) && r2 != r;
      }
      forall s, r2 | r2 in Bucket(reg'.bySender, s)
        ensures r2 in reg'.receivers
      {
        assert Connected(reg', s, r2);
      }
    } else {
      DisconnectOneSender(reg, r, sid);
      forall s, r2
        ensures r2 in Bucket(reg'.bySender, s) <==> s in Bucket(reg'.byReceiver, r2)
      {
        assert Connected(reg', s, r2) <==> Connected(reg, s, r2) && (s != sid || r2 != r);
      }
      forall s, r2 | r2 in Bucket(reg'.bySender, s)
        ensures r2 in reg'.receivers
      {
        assert Connected(reg', s, r2);
      }
    }
  }

  /** A receiver's cleanup callback may fire after the receiver was already disconnected:
      disconnecting from `ANY` a second time changes nothing. */
  lemma {:induction false} DisconnectAnyIdempotent(reg: Registry, r: ObjId)
    ensures Disconnect(Disconnect(reg, r, ANY_ID), r, ANY_ID) == Disconnect(reg, r, ANY_ID)
  {
    var once := Disconnect(reg, r, ANY_ID);
    assert Bucket(once.byReceiver, r) == {};
    assert once.receivers - {r} == once.receivers;
    assert once.byReceiver - {r} == once.byReceiver;
  }

  /** Connecting and then disconnecting from `ANY` leaves the receiver unknown to the
      signal. */
  lemma ConnectThenDisconnect(reg: Registry, r: ObjId, s: Sender, weak: bool, weakable: bool)
    requires Consistent(reg)
    ensures var reg' := Disconnect(Connect(reg, r, s, weak, weakable), r, ANY_ID);
      && r !in reg'.receivers && r !in reg'.byReceiver
      && (forall s2 :: !Connected(reg', s2, r))
  {
    ConnectKeepsConsistent(reg, r, s, weak, weakable);
    DisconnectAnyForgets(Connect(reg, r, s, weak, weakable), r);
  }

  // ---------------------------------------------------------------------------------------
  // Garbage collection of weak referents

  /** The referent of a weakly connected receiver is collected: the weak reference now
      answers `None`. Its cleanup callback (`_cleanup_receiver`) is a separate step. */
  function ReceiverCollected(reg: Registry, r: ObjId): Registry
  {
    if r in reg.receivers && reg.receivers[r].Weak? then reg.(receivers := reg.receivers[r := Weak(false)])
    else reg
  }

  /** `_cleanup_receiver`: the receiver's weak-reference callback. */
  function CleanupReceiver(reg: Registry, r: ObjId): Registry
  {
    Disconnect(reg, r, ANY_ID)
  }

  /** A sender that can be weakly referenced is collected; its weak reference now answers
      `None`. Its cleanup callback (`_cleanup_sender`) is a separate step. */
  function SenderCollected(reg: Registry, sid: ObjId): Registry
  {
    if sid in reg.weakSenders then reg.(weakSenders := reg.weakSenders[sid := false]) else reg
  }

  /** A collection changes no connection and keeps every receiver registered, so it keeps
      the invariant. */
  lemma CollectedKeepsConsistent(reg: Registry, r: ObjId, sid: ObjId)
    requires Consistent(reg)
    ensures Consistent(ReceiverCollected(reg, r)) && ReceiverCollected(reg, r).receivers.Keys == reg.receivers.Keys
    ensures Consistent(SenderCollected(reg, sid)) && SenderCollected(reg, sid).receivers == reg.receivers
  {
    var reg' := ReceiverCollected(reg, r);
    assert reg'.receivers.Keys == reg.receivers.Keys;
  }

  /** `_cleanup_sender(sender_ref)`: pop the weak-sender entry and the sender's bucket, and
      discard the sender from the `_by_receiver` set of every receiver that bucket held. */
  function CleanupSender(reg: Registry, sid: ObjId): Registry
  {
    Registry(
      reg.receivers,
      reg.bySender - {sid},
      DiscardAt(reg.byReceiver, Bucket(reg.bySender, sid), sid),
      reg.weakSenders - {sid})
  }

  /** After a sender's cleanup no receiver is connected for it, every other connection
      stays, and `receivers` is untouched. */
  lemma CleanupSenderForgets(reg: Registry, sid: ObjId)
    requires Consistent(reg)
    ensures var reg' := CleanupSender(reg, sid);
      && reg'.receivers == reg.receivers
      && sid !in reg'.bySender && sid !in reg'.weakSenders
      && (forall s, r :: Connected(reg', s, r) <==> Connected(reg, s, r) && s != sid)
      && (forall s, r :: s in Bucket(reg'.byReceiver, r) <==> s in Bucket(reg.byReceiver, r) && s != sid)
  {
    var ks := Bucket(reg.bySender, sid);
    BucketDiscardAt(reg.byReceiver, ks, sid);
    forall s, r | s in Bucket(reg.byReceiver, r) && s == sid
      ensures r in ks
    {
    }
  }

  lemma {:induction false} CleanupSenderKeepsConsistent(reg: Registry, sid: ObjId)
    requires Consistent(reg)
    ensures Consistent(CleanupSender(reg, sid))
  {
    var reg' := CleanupSender(reg, sid);
    CleanupSenderForgets(reg, sid);
    forall s, r
      ensures r in Bucket(reg'.bySender, s) <==> s in Bucket(reg'.byReceiver, r)
    {
      assert Connected(reg', s, r) <==> Connected(reg, s, r) && s != sid;
    }
    forall s, r | r in Bucket(reg'.bySender, s)
      ensures r in reg'.receivers
    {
      assert Connected(reg', s, r);
    }
  }

  // ---------------------------------------------------------------------------------------
  // _cleanup_bookkeeping, _clear_state

  /** `_cleanup_bookkeeping`: drop the empty sets from both indices. */
  function CleanupBookkeeping(reg: Registry): Registry
  {
    reg.(bySender := NonEmptyBuckets(reg.bySender), byReceiver := NonEmptyBuckets(reg.byReceiver))
  }

  /** Pruning removes exactly the keys whose set is empty and changes no lookup. */
  lemma NonEmptyBucketsExact(m: map<int, set<int>>)
    ensures NonEmptyBuckets(m).Keys == set k | k in m && m[k] != {}
    ensures forall k :: Bucket(NonEmptyBuckets(m), k) == Bucket(m, k)
  {
    forall k
      ensures Bucket(NonEmptyBuckets(m), k) == Bucket(m, k)
    {
      if k in m && m[k] == {} {
        assert k !in NonEmptyBuckets(m);
      }
    }
  }

  /** `_cleanup_bookkeeping` changes no connection and keeps the invariant. */
  lemma {:induction false} CleanupBookkeepingKeepsConnections(reg: Registry)
    requires Consistent(reg)
    ensures var reg' := CleanupBookkeeping(reg);
      && Consistent(reg')
      && (forall s, r :: Connected(reg', s, r) <==> Connected(reg, s, r))
      && (forall k :: k in reg'.bySender ==> reg'.bySender[k] != {})
      && (forall k :: k in reg'.byReceiver ==> reg'.byReceiver[k] != {})
  {
    NonEmptyBucketsExact(reg.bySender);
    NonEmptyBucketsExact(reg.byReceiver);
  }

  /** `_clear_state`: all four maps emptied. */
  function ClearState(reg: Registry): (reg': Registry)
    ensures Consistent(reg')
    ensures forall s, r :: !Connected(reg', s, r)
  {
    Empty
  }

  // ---------------------------------------------------------------------------------------
  // has_receivers_for, receivers_for

  /** `has_receivers_for(sender)`, with the state it leaves: the read `_by_sender[ANY_ID]`
      inserts that key when `receivers` is not empty. For a specific sender only the presence
      of its key in `_by_sender` is tested, so the answer is optimistic. */
  function HasReceiversFor(reg: Registry, s: Sender): (bool, Registry)
  {
    if reg.receivers == map[] then (false, reg)
    else
      var reg1 := reg.(bySender := Touch(reg.bySender, ANY_ID));
      if Bucket(reg.bySender, ANY_ID) != {} then (true, reg1)
      else if s.AnySender? then (false, reg1)
      else (s.id in reg.bySender, reg1)
  }

  /** The ids `receivers_for(sender)` iterates over: the `ANY` bucket and the sender's own.
      The `ANY` token is never a key of `_by_sender` (`connect` records it as `ANY_ID`), so
      for it only the `ANY` bucket counts. */
  function Candidates(reg: Registry, s: Sender): set<int>
  {
    Bucket(reg.bySender, ANY_ID) + (if s.Object? then Bucket(reg.bySender, s.id) else {})
  }

  /** Among ids, the registered receivers that are strong or whose referent is alive. */
  function Live(reg: Registry, ids: set<int>): set<int>
  {
    set r | r in ids && r in reg.receivers && !IsDead(reg.receivers[r])
  }

  /** Among ids, the registered receivers whose referent has been collected. */
  function Dead(reg: Registry, ids: set<int>): set<int>
  {
    set r | r in ids && r in reg.receivers && IsDead(reg.receivers[r])
  }

  /** The ids among D whose `_by_receiver` entry is a non-empty set. */
  function Flagged(reg: Registry, D: set<int>): set<int>
  {
    set d | d in D && Bucket(reg.byReceiver, d) != {}
  }

  /** The registry after `_disconnect(d, ANY_ID)` for every d in D, in any order. */
  function Purge(reg: Registry, D: set<int>): Registry
  {
    Registry(
      reg.receivers - D,
      map k | k in reg.bySender :: reg.bySender[k] - Flagged(reg, D),
      reg.byReceiver - D,
      reg.weakSenders)
  }

  /** Looking at one more id adds it to exactly one of `Live` and `Dead`, or to neither when it
      is not registered. */
  lemma LiveDeadStep(reg: Registry, X: set<int>, r: int)
    ensures Live(reg, X + {r}) == Live(reg, X) + (if r in reg.receivers && !IsDead(reg.receivers[r]) then {r} else {})
    ensures Dead(reg, X + {r}) == Dead(reg, X) + (if r in reg.receivers && IsDead(reg.receivers[r]) then {r} else {})
  {
  }

  lemma PurgeNothing(reg: Registry)
    ensures Purge(reg, {}) == reg
  {
    assert Flagged(reg, {}) == {};
    var m := map k | k in reg.bySender :: reg.bySender[k] - {};
    forall k | k in reg.bySender
      ensures m[k] == reg.bySender[k]
    {
    }
    assert m == reg.bySender;
  }

  /** Disconnecting one more receiver from `ANY` extends a purge by that receiver. */
  lemma {:induction false} PurgeStep(reg: Registry, D: set<int>, r: int)
    requires r !in D
    ensures Disconnect(Purge(reg, D), r, ANY_ID) == Purge(reg, D + {r})
  {
    var p := Purge(reg, D);
    assert Bucket(p.byReceiver, r) == Bucket(reg.byReceiver, r);
    if Bucket(reg.byReceiver, r) != {} {
      assert Flagged(reg, D + {r}) == Flagged(reg, D) + {r};
      var a := DiscardEverywhere(p.bySender, r);
      var b := Purge(reg, D + {r}).bySender;
      forall k | k in reg.bySender
        ensures a[k] == b[k]
      {
      }
      assert a == b;
    } else {
      assert Flagged(reg, D + {r}) == Flagged(reg, D);
    }
  }

  /** `receivers_for(sender)` run to completion: the ids it yields and the state it leaves.
      Receivers whose referent was collected are disconnected from `ANY` and skipped; ids no
      longer in `receivers` are skipped. */
  function ReceiversFor(reg: Registry, s: Sender): (set<int>, Registry)
  {
    if reg.receivers == map[] then ({}, reg)
    else
      var reg1 := reg.(bySender := Touch(reg.bySender, ANY_ID));
      var ids := Candidates(reg, s);
      (Live(reg, ids), Purge(reg1, Dead(reg, ids)))
  }

  /** Every yielded receiver is registered, alive, and connected for the sender or for
      `ANY`; conversely every such receiver is yielded. */
  lemma ReceiversForYieldsExactly(reg: Registry, s: Sender, r: int)
    ensures r in ReceiversFor(reg, s).0 <==>
      && r in reg.receivers && !IsDead(reg.receivers[r])
      && (Connected(reg, ANY_ID, r) || (s.Object? && Connected(reg, s.id, r)))
  {
  }

  /** A receiver whose referent was collected is never yielded, and once it is met it is
      gone from the signal. */
  lemma {:induction false} CollectedNotYielded(reg: Registry, s: Sender, r: ObjId)
    requires Consistent(reg)
    requires r in reg.receivers && IsDead(reg.receivers[r])
    ensures r !in ReceiversFor(reg, s).0
    ensures r in Candidates(reg, s) ==>
      var reg' := ReceiversFor(reg, s).1;
      r !in reg'.receivers && r !in reg'.byReceiver && forall s2 :: !Connected(reg', s2, r)
  {
    if r in Candidates(reg, s) {
      var reg1 := reg.(bySender := Touch(reg.bySender, ANY_ID));
      var D := Dead(reg, Candidates(reg, s));
      assert r in D;
      assert Bucket(reg.byReceiver, r) != {} by {
        if Connected(reg, ANY_ID, r) {
          assert ANY_ID in Bucket(reg.byReceiver, r);
        } else {
          assert s.Object? && s.id in Bucket(reg.byReceiver, r);
        }
      }
      assert Bucket(reg1.byReceiver, r) == Bucket(reg.byReceiver, r);
      assert r in Flagged(reg1, D);
    }
  }

  /** A collected referent is never yielded, whatever the cleanup callback has done yet. */
  lemma CollectedReceiverSkipped(reg: Registry, s: Sender, r: ObjId)
    requires r in reg.receivers && reg.receivers[r].Weak?
    ensures r !in ReceiversFor(ReceiverCollected(reg, r), s).0
    ensures r !in ReceiversFor(CleanupReceiver(ReceiverCollected(reg, r), r), s).0
  {
  }

  lemma {:induction false} ReceiversForKeepsConsistent(reg: Registry, s: Sender)
    requires Consistent(reg)
    ensures Consistent(ReceiversFor(reg, s).1)
  {
    if reg.receivers != map[] {
      var reg1 := reg.(bySender := Touch(reg.bySender, ANY_ID));
      var D := Dead(reg, Candidates(reg, s));
      assert Consistent(reg1);
      PurgeKeepsConsistent(reg1, D);
    }
  }

  lemma PurgeKeepsConsistent(reg: Registry, D: set<int>)
    requires Consistent(reg)
    ensures Consistent(Purge(reg, D))
  {
    var p := Purge(reg, D);
    forall s, r
      ensures r in Bucket(p.bySender, s) <==> s in Bucket(p.byReceiver, r)
    {
      assert Bucket(p.bySender, s) == Bucket(reg.bySender, s) - Flagged(reg, D);
      assert Bucket(p.byReceiver, r) == if r in D then {} else Bucket(reg.byReceiver, r);
      if r in D && r in Bucket(reg.bySender, s) {
        assert s in Bucket(reg.byReceiver, r);
        assert r in Flagged(reg, D);
      }
    }
    forall s, r | r in Bucket(p.bySender, s)
      ensures r in p.receivers
    {
      assert r in Bucket(reg.bySender, s);
    }
  }

  /** The insertion `has_receivers_for` makes adds an empty set, so it keeps the invariant. */
  lemma HasReceiversForKeepsConsistent(reg: Registry, s: Sender)
    requires Consistent(reg)
    ensures Consistent(HasReceiversFor(reg, s).1)
  {
  }

  /** When `has_receivers_for` answers false, `receivers_for` yields nothing. */
  lemma HasReceiversForFalse(reg: Registry, s: Sender)
    ensures !HasReceiversFor(reg, s).0 ==> ReceiversFor(reg, s).0 == {}
  {
  }

  /** The converse fails: after a receiver is disconnected from one specific sender, the
      sender's empty set is still a key of `_by_sender`, so `has_receivers_for` answers true
      although `receivers_for` yields nothing. */
  lemma HasReceiversForIsOptimistic()
    ensures var reg := Disconnect(Connect(Empty, 7, Object(5), false, true), 7, 5);
      && HasReceiversFor(reg, Object(5)).0
      && ReceiversFor(reg, Object(5)).0 == {}
      && 7 in reg.receivers
  {
    var reg := Disconnect(Connect(Empty, 7, Object(5), false, true), 7, 5);
    assert reg.bySender == map[5 := {}];
    assert reg.receivers == map[7 := Strong];
    assert Candidates(reg, Object(5)) == {};
  }

  // ---------------------------------------------------------------------------------------
  // send

  /** `send()` raises `TypeError` when given more than one positional sender. */
  datatype SendError = TooManySenders(given: nat)

  /** What `_extract_sender` returns: the empty-list marker for "nobody is connected", or the
      sender to deliver for. */
  datatype SendTarget = NoReceivers | To(sender: Sender)

  /** `_extract_sender(sender)`. `debug` is Python's `__debug__`; with `-O` the argument
      count goes unchecked when no receiver is connected. No sender means `None`. */
  function ExtractSender(reg: Registry, args: seq<Sender>, debug: bool): (res: Result<SendTarget, SendError>)
    ensures res.Err? ==> |args| > 1 && res.error == TooManySenders(|args|)
    ensures |args| > 1 && (reg.receivers != map[] || debug) ==> res.Err?
    ensures res == Ok(NoReceivers) <==> reg.receivers == map[] && (|args| <= 1 || !debug)
    ensures res.Ok? && res.value.To? ==> res.value.sender == if |args| == 0 then Object(NONE_ID) else args[0]
  {
    if reg.receivers == map[] then
      if debug && |args| > 1 then Err(TooManySenders(|args|)) else Ok(NoReceivers)
    else if |args| == 0 then Ok(To(Object(NONE_ID)))
    else if |args| > 1 then Err(TooManySenders(|args|))
    else Ok(To(args[0]))
  }

  /** `send(*sender)`: the receivers it reaches and the state it leaves, or the error. */
  function Send(reg: Registry, muted: bool, args: seq<Sender>, debug: bool): Result<(set<int>, Registry), SendError>
  {
    if muted then Ok(({}, reg))
    else
      match ExtractSender(reg, args, debug)
      case Err(e) => Err(e)
      case Ok(NoReceivers) => Ok(({}, reg))
      case Ok(To(s)) => Ok(ReceiversFor(reg, s))
  }

  /** A muted signal, or one with nobody connected, reaches nobody and changes nothing,
      unless the argument check fails. */
  lemma SendReachesNobody(reg: Registry, muted: bool, args: seq<Sender>, debug: bool)
    requires muted || reg.receivers == map[]
    ensures muted ==> Send(reg, muted, args, debug) == Ok(({}, reg))
    ensures Send(reg, muted, args, debug) == Ok(({}, reg)) || (!muted && debug && |args| > 1)
  {
  }

  /** `send` reaches exactly the receivers `receivers_for` yields for the extracted sender, and
      keeps the invariant. */
  lemma {:induction false} SendKeepsConsistent(reg: Registry, muted: bool, args: seq<Sender>, debug: bool)
    requires Consistent(reg)
    ensures Send(reg, muted, args, debug).Ok? ==> Consistent(Send(reg, muted, args, debug).value.1)
  {
    if !muted {
      var t := ExtractSender(reg, args, debug);
      if t.Ok? && t.value.To? {
        ReceiversForKeepsConsistent(reg, t.value.sender);
      }
    }
  }
}
