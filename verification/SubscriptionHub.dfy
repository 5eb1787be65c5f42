/**
  The subscription hub: a map of channels under a read-write lock, with any number
  of concurrent notifications, subscriptions and closes.  A subscription's key is a
  random number, so keys may collide.
 */
module SubscriptionHub {
  import opened Base

  type Key = nat
  type Channel = nat
  type Thread = nat
  type Object = nat

  /** Where a call is. `present` is the hub as the read lock found it. */
  datatype Call =
    | Notify(obj: Object)
    | Sending(obj: Object, todo: set<Key>, present: map<Key, Channel>)
    | Notified(obj: Object, present: map<Key, Channel>)
    | Subscribe(key: Key, channel: Channel)
    | Storing(key: Key, channel: Channel)
    | Close(key: Key)
    | Closing(key: Key)
    | Deleting(key: Key)
    | Unlocking
    | Done
  {
    predicate Writes() {
      Storing? || Closing? || Deleting? || Unlocking?
    }
  }

  datatype Delivery = Delivery(sender: Thread, channel: Channel, obj: Object)

  datatype State = State(
    subs: map<Key, Channel>,
    closed: set<Channel>,
    nextChannel: Channel,
    readers: set<Thread>,
    writer: Option<Thread>,
    calls: map<Thread, Call>,
    sent: multiset<Delivery>)

  datatype Step =
    | StartNotify(t: Thread, obj: Object)
    | StartSubscribe(t: Thread, key: Key)
    | StartClose(t: Thread, key: Key)
    | ReadLock(t: Thread)
    | Send(t: Thread, key: Key)
    | ReadUnlock(t: Thread)
    | WriteLock(t: Thread)
    | Store(t: Thread)
    | CloseChannel(t: Thread)
    | Delete(t: Thread)
    | WriteUnlock(t: Thread)

  predicate Enabled(s: State, step: Step) {
    var t := step.t;
    if step.StartNotify? || step.StartSubscribe? || step.StartClose? then t !in s.calls else
      && t in s.calls
      && var c := s.calls[t];
         match step
         case ReadLock(_) => c.Notify? && s.writer == None
         case Send(_, k) => c.Sending? && k in c.todo && k in s.subs
         case ReadUnlock(_) => c.Sending? && c.todo == {}
         case WriteLock(_) => (c.Subscribe? || c.Close?) && s.writer == None && s.readers == {}
         case Store(_) => c.Storing?
         case CloseChannel(_) => c.Closing?
         case Delete(_) => c.Deleting?
         case WriteUnlock(_) => c.Unlocking?
         case _ => false
  }

  function Apply(s: State, step: Step): State
    requires Enabled(s, step)
  {
    var t := step.t;
    match step
    case StartNotify(_, obj) => s.(calls := s.calls[t := Notify(obj)])
    case StartSubscribe(_, key) => 
      s.(calls := s.calls[t := Subscribe(key, s.nextChannel)], nextChannel := s.nextChannel + 1)
    case StartClose(_, key) => s.(calls := s.calls[t := Close(key)])
    case ReadLock(_) =>
      s.(readers := s.readers + {t}, calls := s.calls[t := Sending(s.calls[t].obj, s.subs.Keys, s.subs)])
    case Send(_, k) =>
      var c := s.calls[t];
      s.(sent := s.sent + multiset{Delivery(t, s.subs[k], c.obj)},
         calls := s.calls[t := c.(todo := c.todo - {k})])
    case ReadUnlock(_) =>
      s.(readers := s.readers - {t}, calls := s.calls[t := Notified(s.calls[t].obj, s.calls[t].present)])
    case WriteLock(_) =>
      var c := s.calls[t];
      s.(writer := Some(t),
         calls := s.calls[t := if c.Subscribe? then Storing(c.key, c.channel) else Closing(c.key)])
    case Store(_) => s.(subs := s.subs[s.calls[t].key := s.calls[t].channel], calls := s.calls[t := Unlocking])
    case CloseChannel(_) =>
      var key := s.calls[t].key;
      if key in s.subs then s.(closed := s.closed + {s.subs[key]}, calls := s.calls[t := Deleting(key)])
      else s.(calls := s.calls[t := Unlocking])
    case Delete(_) => s.(subs := s.subs - {s.calls[t].key}, calls := s.calls[t := Unlocking])
    case WriteUnlock(_) => s.(writer := None, calls := s.calls[t := Done])
  }

  const START := State(map[], {}, 0, {}, None, map[], multiset{})

  ghost predicate IsRun(states: seq<State>, steps: seq<Step>) {
    && |states| == |steps| + 1
    && states[0] == START
    && forall k | 0 <= k < |steps| :: Enabled(states[k], steps[k]) && states[k + 1] == Apply(states[k], steps[k])
  }

  // ----- The calls as the code has them -----

  /** From `s` the steps can be taken one after the other, and end in `e`. */
  predicate LeadsTo(s: State, steps: seq<Step>, e: State)
    decreases |steps|
  {
    if steps == [] then s == e else Enabled(s, steps[0]) && LeadsTo(Apply(s, steps[0]), steps[1..], e)
  }

  lemma {:induction false} LeadsJoin(s: State, steps: seq<Step>, m: State, more: seq<Step>, e: State)
    requires LeadsTo(s, steps, m) && LeadsTo(m, more, e)
    ensures LeadsTo(s, steps + more, e)
    decreases |steps|
  {
    if steps == [] {
      assert steps + more == more;
    } else {
      LeadsJoin(Apply(s, steps[0]), steps[1..], m, more, e);
      assert (steps + more)[1..] == steps[1..] + more;
    }
  }

  lemma LeadsOn(s: State, steps: seq<Step>, e: State, step: Step)
    requires LeadsTo(s, steps, e) && Enabled(e, step)
    ensures LeadsTo(s, steps + [step], Apply(e, step))
  {
    assert LeadsTo(Apply(e, step), [step][1..], Apply(e, step));
    LeadsJoin(s, steps, e, [step], Apply(e, step));
  }

  /** A call of `Close` that finds the lock free. */
  function CloseSteps(t: Thread, held: bool): seq<Step> {
    [WriteLock(t), CloseChannel(t)] + (if held then [Delete(t)] else []) + [WriteUnlock(t)]
  }

  lemma StoreLeads(s: State, t: Thread) returns (e: State)
    requires t in s.calls && s.calls[t].Subscribe? && s.writer == None && s.readers == {}
    ensures LeadsTo(s, [WriteLock(t), Store(t), WriteUnlock(t)], e)
    ensures e == s.(subs := s.subs[s.calls[t].key := s.calls[t].channel], calls := s.calls[t := Done])
  {
    var s1 := Apply(s, WriteLock(t));
    var s2 := Apply(s1, Store(t));
    e := Apply(s2, WriteUnlock(t));
    assert LeadsTo(s1, [], s1);
    LeadsOn(s, [], s, WriteLock(t));
    LeadsOn(s, [WriteLock(t)], s1, Store(t));
    LeadsOn(s, [WriteLock(t)] + [Store(t)], s2, WriteUnlock(t));
    assert [WriteLock(t)] + [Store(t)] + [WriteUnlock(t)] == [WriteLock(t), Store(t), WriteUnlock(t)];
  }

  lemma CloseLeads(s: State, t: Thread) returns (e: State)
    requires t in s.calls && s.calls[t].Close? && s.writer == None && s.readers == {}
    ensures LeadsTo(s, CloseSteps(t, s.calls[t].key in s.subs), e)
    ensures var key := s.calls[t].key;
            e == s.(subs := s.subs - {key},
                    closed := s.closed + (if key in s.subs then {s.subs[key]} else {}),
                    calls := s.calls[t := Done])
  {
    var s1 := Apply(s, WriteLock(t));
    var s2 := Apply(s1, CloseChannel(t));
    LeadsOn(s, [], s, WriteLock(t));
    LeadsOn(s, [WriteLock(t)], s1, CloseChannel(t));
    assert [WriteLock(t)] + [CloseChannel(t)] == [WriteLock(t), CloseChannel(t)];
    if s.calls[t].key in s.subs {
      var s3 := Apply(s2, Delete(t));
      LeadsOn(s, [WriteLock(t), CloseChannel(t)], s2, Delete(t));
      LeadsOn(s, [WriteLock(t), CloseChannel(t)] + [Delete(t)], s3, WriteUnlock(t));
      e := Apply(s3, WriteUnlock(t));
    } else {
      LeadsOn(s, [WriteLock(t), CloseChannel(t)] + [], s2, WriteUnlock(t));
      e := Apply(s2, WriteUnlock(t));
      assert s.subs - {s.calls[t].key} == s.subs;
    }
  }

  /** The keys under which a channel is held. */
  function KeysOf(subs: map<Key, Channel>, ch: Channel): set<Key> {
    set k | k in subs && subs[k] == ch
  }

  /** Beyond `before`, one delivery of `obj` by `t` for each of `keys`. */
  ghost predicate SentTo(before: multiset<Delivery>, after: multiset<Delivery>, subs: map<Key, Channel>,
                         keys: set<Key>, t: Thread, obj: Object) {
    forall d: Delivery ::
      after[d] == before[d] + if d.sender == t && d.obj == obj then |KeysOf(subs, d.channel) * keys| else 0
  }

  lemma OneMoreKey(subs: map<Key, Channel>, keys: set<Key>, k: Key, ch: Channel)
    requires k in subs && k !in keys
    ensures |KeysOf(subs, ch) * (keys + {k})| == |KeysOf(subs, ch) * keys| + if ch == subs[k] then 1 else 0
  {
    var some := KeysOf(subs, ch) * keys;
    if ch == subs[k] {
      assert KeysOf(subs, ch) * (keys + {k}) == some + {k};
    } else {
      assert KeysOf(subs, ch) * (keys + {k}) == some;
    }
  }

  lemma SentToStep(before: multiset<Delivery>, after: multiset<Delivery>, subs: map<Key, Channel>, keys: set<Key>,
                   t: Thread, obj: Object, k: Key)
    requires SentTo(before, after, subs, keys, t, obj) && k in subs && k !in keys
    ensures SentTo(before, after + multiset{Delivery(t, subs[k], obj)}, subs, keys + {k}, t, obj)
  {
    forall ch
      ensures |KeysOf(subs, ch) * (keys + {k})| == |KeysOf(subs, ch) * keys| + if ch == subs[k] then 1 else 0
    {
      OneMoreKey(subs, keys, k, ch);
    }
  }

  lemma SentToNobody(sent: multiset<Delivery>, subs: map<Key, Channel>, t: Thread, obj: Object)
    ensures SentTo(sent, sent, subs, {}, t, obj)
  {
    assert forall ch :: KeysOf(subs, ch) * {} == {};
  }

  /** Call `t` holds the read lock and has sent to the keys `done`. */
  ghost predicate HasSent(s: State, t: Thread, obj: Object, sends: seq<Step>, done: set<Key>, e: State) {
    && LeadsTo(s, [ReadLock(t)] + sends, e)
    && (forall i | 0 <= i < |sends| :: sends[i].Send?)
    && done <= s.subs.Keys && SentTo(s.sent, e.sent, s.subs, done, t, obj)
    && e == s.(readers := s.readers + {t},
               calls := s.calls[t := Sending(obj, s.subs.Keys - done, s.subs)],
               sent := e.sent)
  }

  lemma SendsBegin(s: State, t: Thread, obj: Object)
    requires t in s.calls && s.calls[t] == Notify(obj) && s.writer == None
    ensures HasSent(s, t, obj, [], {}, Apply(s, ReadLock(t)))
  {
    SentToNobody(s.sent, s.subs, t, obj);
    LeadsOn(s, [], s, ReadLock(t));
    assert s.subs.Keys - {} == s.subs.Keys;
    assert [ReadLock(t)] + [] == [ReadLock(t)];
  }

  lemma SendsGoOn(s: State, t: Thread, obj: Object, sends: seq<Step>, done: set<Key>, e: State, k: Key)
    requires HasSent(s, t, obj, sends, done, e) && k in s.subs.Keys - done
    ensures Enabled(e, Send(t, k)) && HasSent(s, t, obj, sends + [Send(t, k)], done + {k}, Apply(e, Send(t, k)))
  {
    LeadsOn(s, [ReadLock(t)] + sends, e, Send(t, k));
    assert [ReadLock(t)] + sends + [Send(t, k)] == [ReadLock(t)] + (sends + [Send(t, k)]);
    SentToStep(s.sent, e.sent, s.subs, done, t, obj, k);
    assert s.subs.Keys - (done + {k}) == s.subs.Keys - done - {k};
  }

  lemma SendsEnd(s: State, t: Thread, obj: Object, sends: seq<Step>, done: set<Key>, e: State) returns (end: State)
    requires HasSent(s, t, obj, sends, done, e) && s.subs.Keys - done == {}
    ensures LeadsTo(s, [ReadLock(t)] + sends + [ReadUnlock(t)], end)
    ensures end == s.(calls := s.calls[t := Notified(obj, s.subs)], readers := s.readers + {t} - {t}, sent := e.sent)
    ensures SentTo(s.sent, end.sent, s.subs, s.subs.Keys, t, obj)
  {
    assert s.subs.Keys == done + (s.subs.Keys - done);
    LeadsOn(s, [ReadLock(t)] + sends, e, ReadUnlock(t));
    end := Apply(e, ReadUnlock(t));
  }

  /**
    The hub itself.  Each method, when its call finds the lock free and runs alone,
    does what the steps of that call do in the machine below, from `s` to `e`.
   */
  class Hub {
    var subs: map<Key, Channel>
    var closed: set<Channel>
    var sent: multiset<Delivery>

    constructor ()
      ensures Shows(START)
    {
      subs, closed, sent := map[], {}, multiset{};
    }

    ghost predicate Shows(s: State)
      reads this
    {
      s.subs == subs && s.closed == closed && s.sent == sent
    }

    /** Under the read lock: one send per entry, in any order of the map. */
    method NotifySubscribers(ghost s: State, t: Thread, obj: Object) returns (ghost sends: seq<Step>, ghost e: State)
      requires Shows(s) && t in s.calls && s.calls[t] == Notify(obj) && s.writer == None
      modifies this`sent
      ensures SentTo(old(sent), sent, subs, subs.Keys, t, obj)
      ensures forall i | 0 <= i < |sends| :: sends[i].Send?
      ensures LeadsTo(s, [ReadLock(t)] + sends + [ReadUnlock(t)], e) && Shows(e)
      ensures e.calls == s.calls[t := Notified(obj, subs)]
    {
      var done: set<Key> := {};
      sends, e := [], Apply(s, ReadLock(t));
      SendsBegin(s, t, obj);
      while subs.Keys - done != {}
        invariant HasSent(s, t, obj, sends, done, e) && sent == e.sent
        decreases subs.Keys - done
      {
        var k :| k in subs.Keys - done;
        SendsGoOn(s, t, obj, sends, done, e, k);
        sent := sent + multiset{Delivery(t, subs[k], obj)};
        sends, e := sends + [Send(t, k)], Apply(e, Send(t, k));
        done := done + {k};
      }
      e := SendsEnd(s, t, obj, sends, done, e);
    }

    /** Under the write lock: a new channel, over whatever the key held before. */
    method StoreSubscription(ghost s: State, t: Thread, key: Key, channel: Channel) returns (ghost e: State)
      requires Shows(s) && t in s.calls && s.calls[t] == Subscribe(key, channel) && s.writer == None && s.readers == {}
      modifies this`subs
      ensures LeadsTo(s, [WriteLock(t), Store(t), WriteUnlock(t)], e) && Shows(e) && e.calls == s.calls[t := Done]
    {
      subs := subs[key := channel];
      e := StoreLeads(s, t);
    }

    /** Under the write lock: closes and removes what the key holds now, if anything. */
    method CloseSubscription(ghost s: State, t: Thread, key: Key) returns (ghost e: State)
      requires Shows(s) && t in s.calls && s.calls[t] == Close(key) && s.writer == None && s.readers == {}
      modifies this`subs, this`closed
      ensures LeadsTo(s, CloseSteps(t, key in old(subs)), e) && Shows(e) && e.calls == s.calls[t := Done]
    {
      if key in subs {
        closed := closed + {subs[key]};
        subs := subs - {key};
      }
      e := CloseLeads(s, t);
    }
  }

  // ----- The lock -----

  predicate LockFits(s: State) {
    && (s.writer.Some? ==> s.readers == {})
    && (forall t | t in s.calls :: s.calls[t].Sending? <==> t in s.readers)
    && (forall t | t in s.calls :: s.calls[t].Writes() <==> s.writer == Some(t))
    && s.readers <= s.calls.Keys
    && (s.writer.Some? ==> s.writer.value in s.calls)
  }

  // ----- Channels -----

  /** A call that was given a channel and has yet to store it. */
  predicate Pending(c: Call) {
    c.Subscribe? || c.Storing?
  }

  /** The key whose channel is closed and which is about to be deleted. */
  predicate BeingDeleted(s: State, k: Key) {
    exists t | t in s.calls :: s.calls[t] == Deleting(k)
  }

  ghost predicate ChannelsFit(s: State) {
    SubscribedFit(s) && PendingFit(s) && PendingDiffer(s)
  }

  ghost predicate SubscribedFit(s: State) {
    && (forall k | k in s.subs :: s.subs[k] < s.nextChannel)
    && (forall k, l | k in s.subs && l in s.subs && k != l :: s.subs[k] != s.subs[l])
    && (forall ch | ch in s.closed :: ch < s.nextChannel)
  }

  ghost predicate PendingFit(s: State) {
    && (forall t | t in s.calls && Pending(s.calls[t]) ::
          s.calls[t].channel < s.nextChannel && s.calls[t].channel !in s.closed)
    && (forall t, k | t in s.calls && Pending(s.calls[t]) && k in s.subs :: s.subs[k] != s.calls[t].channel)
  }

  ghost predicate PendingDiffer(s: State) {
    && (forall t, u | t in s.calls && u in s.calls && t != u && Pending(s.calls[t]) && Pending(s.calls[u]) ::
          s.calls[t].channel != s.calls[u].channel)
  }

  /** Of the channels in the hub only one that is about to be deleted is closed. */
  ghost predicate ClosedFits(s: State) {
    forall k | k in s.subs :: s.subs[k] in s.closed <==> BeingDeleted(s, k)
  }

  // ----- Deliveries -----

  /** How often call `t` should have sent `obj` on `ch` when the keys `todo` remain. */
  ghost predicate SentFits(s: State, t: Thread, present: map<Key, Channel>, todo: set<Key>, obj: Object) {
    forall ch, o :: s.sent[Delivery(t, ch, o)] ==
                    if o == obj && exists k | k in present :: k !in todo && present[k] == ch then 1 else 0
  }

  ghost predicate CallFits(s: State, t: Thread)
    requires t in s.calls
  {
    match s.calls[t]
    case Sending(obj, todo, present) =>
      present == s.subs && todo <= present.Keys && SentFits(s, t, present, todo, obj)
    case Notified(obj, present) => SentFits(s, t, present, {}, obj)
    case _ => forall ch, o :: s.sent[Delivery(t, ch, o)] == 0
  }

  ghost predicate DeliveriesFit(s: State) {
    && (forall t | t in s.calls :: CallFits(s, t))
    && (forall t, ch, o :: t !in s.calls ==> s.sent[Delivery(t, ch, o)] == 0)
  }

  ghost predicate Inv(s: State) {
    LockFits(s) && ChannelsFit(s) && ClosedFits(s) && DeliveriesFit(s)
  }

  lemma LockStep(s: State, step: Step)
    requires LockFits(s) && Enabled(s, step)
    ensures LockFits(Apply(s, step))
  {
  }

  lemma ChannelsStep(s: State, step: Step)
    requires ChannelsFit(s) && Enabled(s, step)
    ensures ChannelsFit(Apply(s, step))
  {
    SubscribedStep(s, step);
    PendingStep(s, step);
    PendingDifferStep(s, step);
  }

  lemma SubscribedStep(s: State, step: Step)
    requires ChannelsFit(s) && Enabled(s, step)
    ensures SubscribedFit(Apply(s, step))
  {
  }

  lemma PendingStep(s: State, step: Step)
    requires ChannelsFit(s) && Enabled(s, step)
    ensures PendingFit(Apply(s, step))
  {
  }

  lemma PendingDifferStep(s: State, step: Step)
    requires ChannelsFit(s) && Enabled(s, step)
    ensures PendingDiffer(Apply(s, step))
  {
  }

  /** While `t` writes under the lock, only its own key can be about to be deleted. */
  lemma OnlyWriter(s: State, t: Thread)
    requires LockFits(s) && t in s.calls && s.calls[t].Writes()
    ensures forall k :: BeingDeleted(s, k) <==> s.calls[t] == Deleting(k)
  {
  }

  /** Which keys are about to be deleted changes only for the key of a call that closes or deletes. */
  lemma BeingDeletedStep(s: State, step: Step, k: Key)
    requires LockFits(s) && Enabled(s, step)
    ensures BeingDeleted(Apply(s, step), k) <==>
            (BeingDeleted(s, k) && !step.Delete?)
            || (step.CloseChannel? && k in s.subs && s.calls[step.t].key == k)
  {
    var s' := Apply(s, step);
    if step.Delete? {
      OnlyWriter(s, step.t);
    }
    if BeingDeleted(s', k) {
      var t :| t in s'.calls && s'.calls[t] == Deleting(k);
      assert t != step.t ==> s.calls[t] == Deleting(k);
    }
    if BeingDeleted(s, k) && !step.Delete? {
      var t :| t in s.calls && s.calls[t] == Deleting(k);
      assert t != step.t;
      assert s'.calls[t] == Deleting(k);
    }
    if step.CloseChannel? && k in s.subs && s.calls[step.t].key == k {
      assert s'.calls[step.t] == Deleting(k);
    }
  }

  lemma ClosedStep(s: State, step: Step)
    requires LockFits(s) && ChannelsFit(s) && ClosedFits(s) && Enabled(s, step)
    ensures ClosedFits(Apply(s, step))
  {
    forall k
      ensures BeingDeleted(Apply(s, step), k) <==>
              (BeingDeleted(s, k) && !step.Delete?) || (step.CloseChannel? && k in s.subs && s.calls[step.t].key == k)
    {
      BeingDeletedStep(s, step, k);
    }
    if step.Store? || step.Delete? {
      OnlyWriter(s, step.t);
    }
  }

  /** One send delivers to one channel that had not been sent to. */
  lemma SendFits(s: State, step: Step)
    requires Inv(s) && Enabled(s, step) && step.Send?
    ensures CallFits(Apply(s, step), step.t)
  {
    var s', t, k := Apply(s, step), step.t, step.key;
    var c := s.calls[t];
    assert CallFits(s, t);
    forall ch, o
      ensures s'.sent[Delivery(t, ch, o)] ==
              if o == c.obj && exists l | l in c.present :: l !in c.todo - {k} && c.present[l] == ch then 1 else 0
    {
      assert s.sent[Delivery(t, ch, o)] ==
             if o == c.obj && exists l | l in c.present :: l !in c.todo && c.present[l] == ch then 1 else 0;
      if ch == s.subs[k] {
        assert forall l | l in c.present :: c.present[l] == ch ==> l == k;
        assert k !in c.todo - {k} && c.present[k] == ch;
      }
    }
  }

  lemma SentUnchanged(s: State, step: Step, t: Thread)
    requires Enabled(s, step) && !(t == step.t && step.Send?)
    ensures forall ch, o :: Apply(s, step).sent[Delivery(t, ch, o)] == s.sent[Delivery(t, ch, o)]
  {
  }

  /** What a call has sent is not affected by other calls: while it sends, nobody writes. */
  lemma OtherCallFits(s: State, step: Step, t: Thread)
    requires Inv(s) && Enabled(s, step) && t in s.calls && t != step.t
    ensures CallFits(Apply(s, step), t)
  {
    assert CallFits(s, t);
    SentUnchanged(s, step, t);
  }

  lemma OwnCallFits(s: State, step: Step)
    requires Inv(s) && Enabled(s, step)
    ensures CallFits(Apply(s, step), step.t)
  {
    if step.Send? {
      SendFits(s, step);
    } else {
      SentUnchanged(s, step, step.t);
      if step.t in s.calls {
        assert CallFits(s, step.t);
      }
    }
  }

  lemma DeliveriesStep(s: State, step: Step)
    requires Inv(s) && Enabled(s, step)
    ensures DeliveriesFit(Apply(s, step))
  {
    OwnCallFits(s, step);
    forall t | t in s.calls && t != step.t
      ensures CallFits(Apply(s, step), t)
    {
      OtherCallFits(s, step, t);
    }
  }

  lemma {:induction false} InvHolds(states: seq<State>, steps: seq<Step>, k: nat)
    requires IsRun(states, steps) && k <= |steps|
    ensures Inv(states[k])
  {
    if k > 0 {
      InvHolds(states, steps, k - 1);
      LockStep(states[k - 1], steps[k - 1]);
      ChannelsStep(states[k - 1], steps[k - 1]);
      ClosedStep(states[k - 1], steps[k - 1]);
      DeliveriesStep(states[k - 1], steps[k - 1]);
      assert states[k - 1 + 1] == Apply(states[k - 1], steps[k - 1]);
    }
  }

  /** No run sends on a closed channel or closes a channel twice, even if keys collide. */
  lemma NoPanic(states: seq<State>, steps: seq<Step>, k: nat)
    requires IsRun(states, steps) && k < |steps|
    ensures steps[k].Send? ==> states[k].subs[steps[k].key] !in states[k].closed
    ensures steps[k].CloseChannel? && states[k].calls[steps[k].t].key in states[k].subs ==>
              states[k].subs[states[k].calls[steps[k].t].key] !in states[k].closed
  {
    InvHolds(states, steps, k);
    var s := states[k];
    if (steps[k].Send? || steps[k].CloseChannel?) && s.writer.Some? {
      assert s.calls[s.writer.value].Writes();
    }
  }

  /** A notification still sending can always send to or be done with what is left. */
  lemma RemainingAreSubscribed(states: seq<State>, steps: seq<Step>, k: nat, t: Thread, key: Key)
    requires IsRun(states, steps) && k <= |steps|
    requires t in states[k].calls && states[k].calls[t].Sending? && key in states[k].calls[t].todo
    ensures Enabled(states[k], Send(t, key))
  {
    InvHolds(states, steps, k);
    assert CallFits(states[k], t);
  }

  /**
    A completed notification has sent its object exactly once to every subscriber
    that was there when it took the read lock, and to nobody else.
   */
  lemma DeliveredExactlyOnce(states: seq<State>, steps: seq<Step>, k: nat, t: Thread, ch: Channel, o: Object)
    requires IsRun(states, steps) && k <= |steps|
    requires t in states[k].calls && states[k].calls[t].Notified?
    ensures var c := states[k].calls[t];
            states[k].sent[Delivery(t, ch, o)] ==
            if o == c.obj && (exists key | key in c.present :: c.present[key] == ch) then 1 else 0
  {
    InvHolds(states, steps, k);
    assert CallFits(states[k], t);
  }

  /** `present` is what the read lock found, and does not change. */
  lemma {:induction false} PresentAtReadLock(states: seq<State>, steps: seq<Step>, j: nat, k: nat, t: Thread)
    requires IsRun(states, steps) && j < k <= |steps| && steps[j] == ReadLock(t)
    ensures t in states[k].calls
    ensures (states[k].calls[t].Sending? || states[k].calls[t].Notified?) &&
            states[k].calls[t].present == states[j].subs
    decreases k
  {
    assert states[k - 1 + 1] == Apply(states[k - 1], steps[k - 1]);
    if j < k - 1 {
      PresentAtReadLock(states, steps, j, k - 1, t);
    }
  }

  // ----- Colliding keys -----

  /** An open channel that the hub does not hold and no call is about to store. */
  ghost predicate Lost(s: State, ch: Channel) {
    && ch < s.nextChannel && ch !in s.closed
    && (forall k | k in s.subs :: s.subs[k] != ch)
    && (forall t | t in s.calls && Pending(s.calls[t]) :: s.calls[t].channel != ch)
  }

  /** A subscription is stored under a key at which the hub holds `ch`. */
  predicate Overwrites(s: State, step: Step, ch: Channel)
    requires Enabled(s, step)
  {
    step.Store? && s.calls[step.t].key in s.subs && s.subs[s.calls[step.t].key] == ch
  }

  ghost predicate Overwritten(states: seq<State>, steps: seq<Step>, k: nat, ch: Channel)
    requires IsRun(states, steps) && k <= |steps|
  {
    exists i | 0 <= i < k :: Overwrites(states[i], steps[i], ch)
  }

  /** A subscription stored under a key in use loses the earlier subscriber's channel. */
  lemma CollisionLosesChannel(s: State, step: Step, ch: Channel)
    requires Inv(s) && Enabled(s, step) && Overwrites(s, step, ch)
    ensures Lost(Apply(s, step), ch)
  {
  }

  /** And nothing else loses a channel. */
  lemma OnlyCollisionsLose(s: State, step: Step, ch: Channel)
    requires Inv(s) && Enabled(s, step) && Lost(Apply(s, step), ch)
    ensures Lost(s, ch) || Overwrites(s, step, ch)
  {
    var s' := Apply(s, step);
    if !Overwrites(s, step, ch) {
      if step.StartSubscribe? {
        assert Pending(s'.calls[step.t]);
      }
      forall k | k in s.subs
        ensures s.subs[k] != ch
      {
        if k !in s'.subs {
          assert BeingDeleted(s, k);
        }
      }
      forall t | t in s.calls && Pending(s.calls[t])
        ensures s.calls[t].channel != ch
      {
        if !Pending(s'.calls[t]) {
          assert s'.subs[s.calls[t].key] == s.calls[t].channel;
        }
      }
    }
  }

  lemma LostStep(s: State, step: Step, ch: Channel)
    requires Enabled(s, step) && Lost(s, ch)
    ensures Lost(Apply(s, step), ch)
    ensures forall d: Delivery :: d.channel == ch ==> Apply(s, step).sent[d] == s.sent[d]
  {
  }

  /** A lost channel stays lost: nothing is sent on it and nothing closes it, not even its own `Close`. */
  lemma {:induction false} LostStaysLost(states: seq<State>, steps: seq<Step>, j: nat, k: nat, ch: Channel)
    requires IsRun(states, steps) && j <= k <= |steps| && Lost(states[j], ch)
    ensures Lost(states[k], ch)
    ensures forall d: Delivery :: d.channel == ch ==> states[k].sent[d] == states[j].sent[d]
    decreases k
  {
    if j < k {
      LostStaysLost(states, steps, j, k - 1, ch);
      LostStep(states[k - 1], steps[k - 1], ch);
      assert states[k - 1 + 1] == Apply(states[k - 1], steps[k - 1]);
    }
  }

  lemma LostChanges(s: State, step: Step, ch: Channel)
    requires Inv(s) && Enabled(s, step)
    ensures Lost(Apply(s, step), ch) <==> Lost(s, ch) || Overwrites(s, step, ch)
  {
    if Lost(Apply(s, step), ch) {
      OnlyCollisionsLose(s, step, ch);
    } else if Lost(s, ch) {
      LostStep(s, step, ch);
    } else if Overwrites(s, step, ch) {
      CollisionLosesChannel(s, step, ch);
    }
  }

  lemma LostNext(states: seq<State>, steps: seq<Step>, k: nat, ch: Channel)
    requires IsRun(states, steps) && k < |steps|
    ensures Lost(states[k + 1], ch) <==> Lost(states[k], ch) || Overwrites(states[k], steps[k], ch)
  {
    InvHolds(states, steps, k);
    LostChanges(states[k], steps[k], ch);
  }

  lemma OverwrittenNext(states: seq<State>, steps: seq<Step>, k: nat, ch: Channel)
    requires IsRun(states, steps) && k < |steps|
    ensures Overwritten(states, steps, k + 1, ch) <==>
            Overwritten(states, steps, k, ch) || Overwrites(states[k], steps[k], ch)
  {
  }

  /** In every run the lost channels are exactly those that a colliding subscription has overwritten. */
  lemma {:induction false} LostExactly(states: seq<State>, steps: seq<Step>, k: nat, ch: Channel)
    requires IsRun(states, steps) && k <= |steps|
    ensures Lost(states[k], ch) <==> Overwritten(states, steps, k, ch)
  {
    if k > 0 {
      LostExactly(states, steps, k - 1, ch);
      LostNext(states, steps, k - 1, ch);
      OverwrittenNext(states, steps, k - 1, ch);
    }
  }

  predicate Held(s: State, ch: Channel) {
    exists k :: k in s.subs && s.subs[k] == ch
  }

  /** The channel has been given out, and its subscription is over. */
  ghost predicate Settled(s: State, ch: Channel) {
    ch < s.nextChannel && forall t | t in s.calls && Pending(s.calls[t]) :: s.calls[t].channel != ch
  }

  lemma SettledStep(s: State, step: Step, ch: Channel)
    requires Enabled(s, step) && Settled(s, ch)
    ensures Settled(Apply(s, step), ch)
  {
  }

  lemma {:induction false} StaysSettled(states: seq<State>, steps: seq<Step>, j: nat, k: nat, ch: Channel)
    requires IsRun(states, steps) && j <= k <= |steps| && Settled(states[j], ch)
    ensures Settled(states[k], ch)
    decreases k
  {
    if j < k {
      StaysSettled(states, steps, j, k - 1, ch);
      SettledStep(states[k - 1], steps[k - 1], ch);
      assert states[k - 1 + 1] == Apply(states[k - 1], steps[k - 1]);
    }
  }

  lemma StoreSettles(s: State, step: Step)
    requires Inv(s) && Enabled(s, step) && step.Store?
    ensures Settled(Apply(s, step), s.calls[step.t].channel)
  {
  }

  /** Once subscribed, a channel is held until it is closed, if and only if no later subscription takes its key. */
  lemma KeptExactly(states: seq<State>, steps: seq<Step>, j: nat, k: nat)
    requires IsRun(states, steps) && j < k <= |steps| && steps[j].Store?
    ensures var ch := states[j].calls[steps[j].t].channel;
            Held(states[k], ch) || ch in states[k].closed <==> !Overwritten(states, steps, k, ch)
  {
    var ch := states[j].calls[steps[j].t].channel;
    InvHolds(states, steps, j);
    StoreSettles(states[j], steps[j]);
    assert states[j + 1] == Apply(states[j], steps[j]);
    StaysSettled(states, steps, j + 1, k, ch);
    LostExactly(states, steps, k, ch);
  }

  lemma CloseAfterStore(s: State, t: Thread, u: Thread, key: Key) returns (e: State)
    requires t in s.calls && s.calls[t] == Unlocking && s.readers == {} && u !in s.calls && key in s.subs
    ensures LeadsTo(s, [WriteUnlock(t), StartClose(u, key)] + CloseSteps(u, true), e)
    ensures e == s.(subs := s.subs - {key}, closed := s.closed + {s.subs[key]}, writer := None,
                    calls := s.calls[t := Done][u := Done])
  {
    var s1 := Apply(s, WriteUnlock(t));
    var s2 := Apply(s1, StartClose(u, key));
    LeadsOn(s, [], s, WriteUnlock(t));
    LeadsOn(s, [WriteUnlock(t)], s1, StartClose(u, key));
    e := CloseLeads(s2, u);
    assert [WriteUnlock(t)] + [StartClose(u, key)] == [WriteUnlock(t), StartClose(u, key)];
    LeadsJoin(s, [WriteUnlock(t), StartClose(u, key)], s2, CloseSteps(u, true), e);
    assert s1.calls[u := Close(key)][u := Done] == s.calls[t := Done][u := Done];
  }

  /** What a colliding subscription leaves. */
  lemma AfterCollision(s: State, step: Step, ch: Channel)
    requires Inv(s) && Enabled(s, step) && Overwrites(s, step, ch)
    ensures var s', t := Apply(s, step), step.t;
            && t in s'.calls && s'.calls[t] == Unlocking && s'.readers == {}
            && s.calls[t].key in s'.subs && s'.subs[s.calls[t].key] == s.calls[t].channel
            && ch != s.calls[t].channel
  {
    assert s.calls[step.t].Writes();
  }

  lemma RemovedIsClosed(s: State, t: Thread, u: Thread, key: Key, ch: Channel)
    requires Inv(s) && Lost(s, ch) && key in s.subs
    ensures var e := s.(subs := s.subs - {key}, closed := s.closed + {s.subs[key]}, writer := None,
                        calls := s.calls[t := Done][u := Done]);
            s.subs[key] in e.closed && !Held(e, s.subs[key]) && Lost(e, ch)
  {
  }

  lemma CloseHits(s0: State, step: Step, ch: Channel, u: Thread) returns (e: State)
    requires Inv(s0) && Enabled(s0, step) && Overwrites(s0, step, ch)
    requires Inv(Apply(s0, step)) && u !in Apply(s0, step).calls
    ensures var t := step.t; var second := s0.calls[t];
            && LeadsTo(Apply(s0, step), [WriteUnlock(t), StartClose(u, second.key)] + CloseSteps(u, true), e)
            && second.channel in e.closed && !Held(e, second.channel) && Lost(e, ch)
  {
    var key := s0.calls[step.t].key;
    CollisionLosesChannel(s0, step, ch);
    AfterCollision(s0, step, ch);
    e := CloseAfterStore(Apply(s0, step), step.t, u, key);
    RemovedIsClosed(Apply(s0, step), step.t, u, key, ch);
  }

  /**
    The other half of a collision: when the first subscriber then closes, with the key
    it was given, it closes and removes the second subscriber's channel.
   */
  lemma FirstCloseHitsSecond(states: seq<State>, steps: seq<Step>, k: nat, ch: Channel, u: Thread) returns (e: State)
    requires IsRun(states, steps) && k < |steps| && Overwrites(states[k], steps[k], ch) && u !in states[k + 1].calls
    ensures var t := steps[k].t; var second := states[k].calls[t];
            && LeadsTo(states[k + 1], [WriteUnlock(t), StartClose(u, second.key)] + CloseSteps(u, true), e)
            && second.channel in e.closed && !Held(e, second.channel) && Lost(e, ch)
  {
    InvHolds(states, steps, k);
    InvHolds(states, steps, k + 1);
    assert states[k + 1] == Apply(states[k], steps[k]);
    e := CloseHits(states[k], steps[k], ch, u);
  }

  /** A run from the start in which two subscriptions get the same key, and the first channel is lost. */
  lemma KeysCollide(key: Key) returns (states: seq<State>)
    ensures var steps := [StartSubscribe(0, key), WriteLock(0), Store(0), WriteUnlock(0),
                          StartSubscribe(1, key), WriteLock(1), Store(1)];
            && IsRun(states, steps) && Overwrites(states[6], steps[6], 0) && Lost(states[7], 0)
  {
    var s1 := Apply(START, StartSubscribe(0, key));
    var s2 := Apply(s1, WriteLock(0));
    var s3 := Apply(s2, Store(0));
    var s4 := Apply(s3, WriteUnlock(0));
    var s5 := Apply(s4, StartSubscribe(1, key));
    var s6 := Apply(s5, WriteLock(1));
    states := [START, s1, s2, s3, s4, s5, s6, Apply(s6, Store(1))];
  }
}
