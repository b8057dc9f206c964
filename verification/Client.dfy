/** The client object: the store it mutates under its lock, the wake-up channel, the message ring. */
module ClientObject {
  import opened ByteText
  import opened ClientStore

  datatype Message = Message(device: Text, timestamp: Text, text: Text)

  const MAX_MESSAGES: nat := 1000

  function Last(log: seq<Message>, n: nat): seq<Message> {
    if |log| <= n then log else log[|log| - n..]
  }

  class Client {
    const num: Text -> real
    var store: map<Text, map<Text, Property>>
    var order: seq<Text>
    /** The number of the current channel; every channel before it has been closed. */
    var updated: nat
    var closed: bool
    var messages: seq<Message>
    var msgNext: nat
    /** Every store message and every log line so far. */
    ghost var history: seq<Msg>
    ghost var log: seq<Message>

    ghost predicate Valid()
      reads this
    {
      && Store(store, order) == Replay(num, history)
      && RingHolds()
    }

    /** Until the ring is full it is the log; then it is the last lines, oldest at msgNext. */
    ghost predicate RingHolds()
      reads `messages, `msgNext, `log
    {
      if |log| < MAX_MESSAGES then messages == log && msgNext == 0
      else |messages| == MAX_MESSAGES && msgNext < MAX_MESSAGES
           && messages[msgNext..] + messages[..msgNext] == Last(log, MAX_MESSAGES)
    }

    constructor (num: Text -> real)
      ensures Valid() && history == [] && log == [] && !closed && this.num == num
    {
      this.num := num;
      store, order, updated, closed := map[], [], 0, false;
      messages, msgNext := [], 0;
      history, log := [], [];
    }

    /** Closes the current channel and installs the next. */
    method SignalLocked()
      modifies `updated
      ensures updated == old(updated) + 1
    {
      updated := updated + 1;
    }

    method Fail()
      requires Valid()
      modifies `closed, `updated
      ensures Valid() && closed && updated == old(updated) + 1
    {
      closed := true;
      SignalLocked();
    }

    method ApplyDefinition(m: Msg)
      requires Valid() && m.Def?
      modifies `store, `order, `updated, `history
      ensures Valid() && history == old(history) + [m] && updated == old(updated) + 1
    {
      hide Defined;
      hide Replay;
      var members: seq<Member> := [];
      var i := 0;
      while i < |m.defs|
        invariant 0 <= i <= |m.defs|
        invariant members == seq(i, k requires 0 <= k < i => Defined(num, m.defs[k]))
      {
        members := members + [Defined(num, m.defs[i])];
        i := i + 1;
      }
      ghost var was := Store(store, order);
      if m.device !in store {
        store := store[m.device := map[]];
        if m.device !in order {
          order := order + [m.device];
        }
      }
      var rev := 0;
      if m.name in store[m.device] {
        rev := store[m.device][m.name].rev;
      }
      rev := rev + 1;
      var p := Property(m.device, m.name, m.caption, m.group, m.kind, m.state, m.perm, m.rule, [], rev, members);
      store := store[m.device := store[m.device][m.name := p]];
      SignalLocked();
      assert Store(store, order) == ApplyDef(num, was, m);
      Extended(m);
    }

    /** One more message in the history. */
    ghost method Extended(m: Msg)
      requires RingHolds() && Store(store, order) == Apply(num, Replay(num, history), m)
      modifies `history
      ensures Valid() && history == old(history) + [m]
    {
      hide Replay;
      hide Apply;
      ReplayNext(num, history, m);
      history := history + [m];
    }

    method ApplySetting(m: Msg)
      requires Valid() && m.Set?
      modifies `store, `updated, `history
      ensures Valid() && history == old(history) + [m]
      ensures updated == old(updated) + if m.device in old(store) && m.name in old(store[m.device]) then 1 else 0
    {
      hide AssignAll;
      hide Replay;
      ghost var was := Store(store, order);
      if m.device !in store || m.name !in store[m.device] {
        Extended(m);
        return;
      }
      var p := store[m.device][m.name];
      if m.state != [] {
        p := p.(state := m.state);
      }
      if m.message != [] {
        p := p.(message := m.message);
      }
      var ms := AssignLoop(p.members, m.ones);
      p := p.(members := ms, rev := p.rev + 1);
      store := store[m.device := store[m.device][m.name := p]];
      SignalLocked();
      assert Store(store, order) == ApplySet(num, was, m);
      Extended(m);
    }

    /** The calls of upd, each a loop over the members. */
    method AssignLoop(given: seq<Member>, items: seq<OneItem>) returns (ms: seq<Member>)
      ensures ms == AssignAll(num, given, items)
    {
      ms := given;
      var k := 0;
      while k < |items|
        invariant 0 <= k <= |items|
        invariant ms == AssignAll(num, given, items[..k])
      {
        ghost var before := ms;
        var i := 0;
        while i < |ms|
          invariant 0 <= i <= |ms| == |before|
          invariant forall j :: 0 <= j < i ==> ms[j] == AssignOne(num, before, items[k])[j]
          invariant forall j :: i <= j < |ms| ==> ms[j] == before[j]
        {
          if ms[i].name == items[k].name {
            ms := ms[i := Assigned(num, ms[i], items[k].value)];
          }
          i := i + 1;
        }
        assert ms == AssignOne(num, before, items[k]);
        assert items[..k + 1][..k] == items[..k];
        k := k + 1;
      }
      assert items[..|items|] == items;
    }

    method ApplyBlobMeta(m: Msg)
      requires Valid() && m.Blob?
      modifies `store, `updated, `history
      ensures Valid() && history == old(history) + [m]
      ensures updated == old(updated) + if m.device in old(store) && m.name in old(store[m.device]) then 1 else 0
    {
      hide TagAll;
      hide Replay;
      ghost var was := Store(store, order);
      if m.device !in store || m.name !in store[m.device] {
        Extended(m);
        return;
      }
      var p := store[m.device][m.name];
      if m.state != [] {
        p := p.(state := m.state);
      }
      if m.message != [] {
        p := p.(message := m.message);
      }
      var ms := TagLoop(p.members, m.blobs);
      p := p.(members := ms, rev := p.rev + 1);
      store := store[m.device := store[m.device][m.name := p]];
      SignalLocked();
      assert Store(store, order) == ApplyBlob(was, m);
      Extended(m);
    }

    method TagLoop(given: seq<Member>, items: seq<BlobItem>) returns (ms: seq<Member>)
      ensures ms == TagAll(given, items)
    {
      ms := given;
      var k := 0;
      while k < |items|
        invariant 0 <= k <= |items|
        invariant ms == TagAll(given, items[..k])
      {
        ghost var before := ms;
        var it := items[k];
        var found := false;
        var i := 0;
        while i < |ms|
          invariant 0 <= i <= |ms| == |before|
          invariant forall j :: 0 <= j < i ==>
                      ms[j] == if before[j].name == it.name then Tagged(before[j], it) else before[j]
          invariant forall j :: i <= j < |ms| ==> ms[j] == before[j]
          invariant found <==> exists j :: 0 <= j < i && before[j].name == it.name
        {
          if ms[i].name == it.name {
            ms := ms[i := Tagged(ms[i], it)];
            found := true;
          }
          i := i + 1;
        }
        if !found {
          assert ms == before;
          ms := ms + [Member(it.name, [], [], 0.0, false, it.format, 0.0, 0.0, 0.0, it.size)];
        }
        assert ms == TagOne(before, it);
        assert items[..k + 1][..k] == items[..k];
        k := k + 1;
      }
      assert items[..|items|] == items;
    }

    method ApplyDelete(m: Msg)
      requires Valid() && m.Del?
      modifies `store, `order, `updated, `history
      ensures Valid() && history == old(history) + [m]
      ensures updated == old(updated) + if m.device in old(store) then 1 else 0
    {
      hide Without;
      hide Replay;
      if m.device in store {
        if m.name == [] {
          store := store - {m.device};
          order := Without(order, m.device);
        } else {
          store := store[m.device := store[m.device] - {m.name}];
        }
        SignalLocked();
      }
      Extended(m);
    }

    /** What the read loop does with a message that may change the store: waiters are woken exactly
        when the machine of the waiters says so. */
    method Receive(m: Msg)
      requires Valid()
      modifies `store, `order, `updated, `history
      ensures Valid() && history == old(history) + [m]
      ensures updated == old(updated) + if Signals(old(Replay(num, history)), m) then 1 else 0
      ensures updated == old(updated) + if m.Def? || (m.device in old(store) && (m.Del? || m.name in old(store[m.device])))
                                        then 1 else 0
    {
      match m {
        case Def(_, _, _, _, _, _, _, _, _) => ApplyDefinition(m);
        case Set(_, _, _, _, _) => ApplySetting(m);
        case Blob(_, _, _, _, _) => ApplyBlobMeta(m);
        case Del(_, _) => ApplyDelete(m);
      }
    }

    /** The critical section of WaitRevCtx: the current channel, the connection's state and a
        copy of the property, read together. */
    method Look(d: Text, n: Text) returns (ch: nat, dead: bool, snap: Option<Property>)
      requires Valid()
      ensures ch == updated && dead == closed && snap == Entry(Replay(num, history), d, n)
      ensures snap == if d in store && n in store[d] then Some(store[d][n]) else None
    {
      ch, dead, snap := updated, closed, None;
      if d in store {
        if n in store[d] {
          snap := Some(store[d][n]);
        }
      }
    }

    method AddMessage(m: Message)
      requires Valid()
      modifies `messages, `msgNext, `log
      ensures Valid() && log == old(log) + [m]
    {
      ghost var lines := Last(log, MAX_MESSAGES);
      log := log + [m];
      if |messages| < MAX_MESSAGES {
        messages := messages + [m];
        if |messages| == MAX_MESSAGES {
          assert messages[0..] + messages[..0] == messages;
        }
        return;
      }
      RingTurns(messages, msgNext, (msgNext + 1) % MAX_MESSAGES, m);
      assert Last(log, MAX_MESSAGES) == lines[1..] + [m];
      messages := messages[msgNext := m];
      msgNext := (msgNext + 1) % MAX_MESSAGES;
    }

    /** The last lines received, oldest first. */
    method Messages() returns (out: seq<Message>)
      requires Valid()
      ensures out == if |log| <= 1000 then log else log[|log| - 1000..]
    {
      out := messages[msgNext..];
      out := out + messages[..msgNext];
    }
  }

  /** Overwriting the oldest line and stepping on drops it and appends the new one. */
  lemma RingTurns(ring: seq<Message>, next: nat, at: nat, m: Message)
    requires next < |ring|
    requires at == if next + 1 == |ring| then 0 else next + 1
    ensures ring[next := m][at..] + ring[next := m][..at] == (ring[next..] + ring[..next])[1..] + [m]
  {
    var turned, lines := ring[next := m], ring[next..] + ring[..next];
    assert |turned[at..] + turned[..at]| == |ring|;
    forall k: nat | k < |ring|
      ensures (turned[at..] + turned[..at])[k] == (lines[1..] + [m])[k]
    {
      if k + 1 < |ring| {
        assert (lines[1..] + [m])[k] == lines[k + 1];
      }
    }
  }
}
