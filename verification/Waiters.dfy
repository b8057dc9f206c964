/** Callers of WaitRevCtx interleaved with the read loop. Every step is one critical section, or
    one local decision, of one goroutine. */
module Waiters {
  import opened ByteText
  import opened ClientStore
  import opened Runs

  datatype How = Satisfied | Died | Cancelled | Unsent

  /** Where a waiter is. `at` is the number of messages applied when `snap` was copied. */
  datatype Place =
    | Starting
    | Sending
    | Looping
    | Holding(ch: nat, snap: Option<Property>, dead: bool, at: nat)
    | Blocked(ch: nat, snap: Option<Property>, dead: bool, at: nat)
    | Returned(snap: Option<Property>, how: How, at: nat)

  /** `read` is the number of messages applied when setAndWaitCtx recorded `since`; a caller of
      WaitRevCtx itself gives any `since` it likes. */
  datatype Waiter = Waiter(device: Text, name: Text, since: nat, read: Option<nat>, pred: Property -> bool, place: Place)

  /** Channel `updated` is open; every channel numbered below it has been closed. */
  datatype System = System(num: Text -> real, history: seq<Msg>, updated: nat, closed: bool, waiters: map<nat, Waiter>)

  datatype Event =
    | Receive(m: Msg)
    | Fail
    | Wait(id: nat, device: Text, name: Text, since: nat, pred: Property -> bool)
    | SetAndWait(id: nat, device: Text, name: Text, pred: Property -> bool)
    | Record(id: nat)
    | Sent(id: nat, ok: bool)
    | Look(id: nat)
    | Decide(id: nat)
    | Wake(id: nat)
    | Cancel(id: nat)

  ghost function Start(num: Text -> real): System {
    System(num, [], 0, false, map[])
  }

  ghost function Now(s: System, w: Waiter): Option<Property> {
    Entry(Replay(s.num, s.history), w.device, w.name)
  }

  ghost predicate Meets(w: Waiter, snap: Option<Property>) {
    snap.Some? && snap.value.rev > w.since && w.pred(snap.value)
  }

  ghost function Moved(s: System, id: nat, to: Place): Option<System>
    requires id in s.waiters
  {
    Some(s.(waiters := s.waiters[id := s.waiters[id].(place := to)]))
  }

  ghost function Step(s: System, e: Event): Option<System> {
    match e
    case Receive(m) =>
      Some(s.(history := s.history + [m],
              updated := s.updated + if Signals(Replay(s.num, s.history), m) then 1 else 0))
    case Fail => Some(s.(closed := true, updated := s.updated + 1))
    case Wait(id, d, n, since, pred) =>
      if id in s.waiters then None
      else Some(s.(waiters := s.waiters[id := Waiter(d, n, since, None, pred, Looping)]))
    case SetAndWait(id, d, n, pred) =>
      if id in s.waiters then None
      else Some(s.(waiters := s.waiters[id := Waiter(d, n, 0, None, pred, Starting)]))
    case _ => if e.id in s.waiters then Act(s, e, s.waiters[e.id]) else None
  }

  ghost function Act(s: System, e: Event, w: Waiter): Option<System>
    requires e.Record? || e.Sent? || e.Look? || e.Decide? || e.Wake? || e.Cancel?
    requires e.id in s.waiters && w == s.waiters[e.id]
  {
    match e
    case Record(id) =>
      if w.place != Starting then None
      else Some(s.(waiters := s.waiters[id := w.(since := Rev(Replay(s.num, s.history), w.device, w.name),
                                                 read := Some(|s.history|), place := Sending)]))
    case Sent(id, ok) =>
      if w.place != Sending then None
      else Moved(s, id, if ok then Looping else Returned(None, Unsent, |s.history|))
    case Look(id) =>
      if w.place != Looping then None
      else Moved(s, id, Holding(s.updated, Now(s, w), s.closed, |s.history|))
    case Decide(id) =>
      if !w.place.Holding? then None
      else if Meets(w, w.place.snap) then Moved(s, id, Returned(w.place.snap, Satisfied, w.place.at))
      else if w.place.dead then Moved(s, id, Returned(w.place.snap, Died, w.place.at))
      else Moved(s, id, Blocked(w.place.ch, w.place.snap, w.place.dead, w.place.at))
    case Wake(id) =>
      if !w.place.Blocked? || w.place.ch == s.updated then None
      else Moved(s, id, Looping)
    case Cancel(id) =>
      if !w.place.Blocked? then None
      else Moved(s, id, Returned(w.place.snap, Cancelled, w.place.at))
  }

  // ---- what every run keeps ----

  /** What a waiter has copied is what the store held then; while its channel is open the copy
      is current. */
  ghost predicate Current(s: System, w: Waiter, ch: nat, snap: Option<Property>, dead: bool, at: nat) {
    && ch <= s.updated && Copied(s, w, snap, at)
    && (dead ==> s.closed)
    && (ch == s.updated ==> snap == Now(s, w) && dead == s.closed)
  }

  /** `snap` is the property as it was after `at` messages, no earlier than the recording. */
  ghost predicate Copied(s: System, w: Waiter, snap: Option<Property>, at: nat) {
    && at <= |s.history| && snap == Entry(Replay(s.num, s.history[..at]), w.device, w.name)
    && (w.read.Some? ==> w.read.value <= at)
  }

  ghost predicate Recorded(s: System, w: Waiter) {
    w.read.Some? ==>
      && w.read.value <= |s.history|
      && w.since == Rev(Replay(s.num, s.history[..w.read.value]), w.device, w.name)
  }

  ghost predicate Sound(s: System, w: Waiter) {
    && Recorded(s, w)
    && match w.place
       case Holding(ch, snap, dead, at) => Current(s, w, ch, snap, dead, at)
       case Blocked(ch, snap, dead, at) => Current(s, w, ch, snap, dead, at) && !Meets(w, snap) && !dead
       case Returned(snap, Satisfied, at) => Copied(s, w, snap, at) && Meets(w, snap)
       case Returned(snap, Died, at) => Copied(s, w, snap, at) && !Meets(w, snap) && s.closed
       case Returned(snap, Cancelled, at) => Copied(s, w, snap, at) && !Meets(w, snap)
       case _ => true
  }

  ghost predicate Inv(s: System) {
    forall id :: id in s.waiters ==> Sound(s, s.waiters[id])
  }

  /** A message: a silent one changes nothing a waiter may look at, any other moves the channel on. */
  lemma ReceiveKeeps(s: System, m: Msg, w: Waiter)
    requires Sound(s, w)
    ensures Sound(Step(s, Receive(m)).value, w)
  {
    hide Apply;
    hide Signals;
    hide Entry;
    hide Rev;
    var t := Step(s, Receive(m)).value;
    assert t.history[..|s.history|] == s.history;
    assert forall k :: 0 <= k <= |s.history| ==> t.history[..k] == s.history[..k];
    SilentIsNoChange(s.num, Replay(s.num, s.history), m);
  }

  /** A step of someone else that leaves the store alone. */
  lemma StillSound(s: System, t: System, w: Waiter)
    requires Sound(s, w) && t.num == s.num && t.history == s.history
    requires s.updated <= t.updated && (s.closed ==> t.closed)
    requires t.updated == s.updated ==> t.closed == s.closed
    ensures Sound(t, w)
  {
    hide Replay;
  }

  /** A waiter's own step. */
  lemma OwnStep(s: System, e: Event, w: Waiter)
    requires e.Record? || e.Sent? || e.Look? || e.Decide? || e.Wake? || e.Cancel?
    requires e.id in s.waiters && w == s.waiters[e.id] && Sound(s, w) && Act(s, e, w).Some?
    ensures var t := Act(s, e, w).value;
            && e.id in t.waiters && Sound(t, t.waiters[e.id])
            && t == s.(waiters := s.waiters[e.id := t.waiters[e.id]])
  {
    hide Replay;
    assert s.history[..|s.history|] == s.history;
  }

  lemma ActKeeps(s: System, e: Event)
    requires Inv(s) && Step(s, e).Some? && !e.Receive?
    ensures Inv(Step(s, e).value)
  {
    hide Replay;
    hide Sound;
    hide Act;
    var t := Step(s, e).value;
    if e.Record? || e.Sent? || e.Look? || e.Decide? || e.Wake? || e.Cancel? {
      OwnStep(s, e, s.waiters[e.id]);
    } else if e.Wait? || e.SetAndWait? {
      NewcomerSound(t, t.waiters[e.id]);
    }
    forall id | id in t.waiters
      ensures Sound(t, t.waiters[id])
    {
      if id in s.waiters && t.waiters[id] == s.waiters[id] {
        StillSound(s, t, s.waiters[id]);
      }
    }
  }

  lemma NewcomerSound(s: System, w: Waiter)
    requires w.read.None? && (w.place.Starting? || w.place.Looping?)
    ensures Sound(s, w)
  {
  }

  lemma InvNext(s: System, e: Event)
    requires Inv(s) && Step(s, e).Some?
    ensures Inv(Step(s, e).value)
  {
    if e.Receive? {
      forall id | id in s.waiters
        ensures Sound(Step(s, e).value, s.waiters[id])
      {
        ReceiveKeeps(s, e.m, s.waiters[id]);
      }
    } else {
      ActKeeps(s, e);
    }
  }

  lemma AlwaysSound(num: Text -> real, events: seq<Event>)
    requires Exec(Step, Start(num), events).Some?
    ensures Inv(Exec(Step, Start(num), events).value)
  {
    forall s: System, e: Event | Inv(s) && Step(s, e).Some?
      ensures Inv(Step(s, e).value)
    {
      InvNext(s, e);
    }
    Kept(Step, Inv, Start(num), events);
  }

  // ---- reading a run ----

  /** The messages that came. */
  ghost function Received(events: seq<Event>): seq<Msg> {
    if events == [] then []
    else
      var last := events[|events| - 1];
      Received(events[..|events| - 1]) + if last.Receive? then [last.m] else []
  }

  /** How many messages had come when setAndWaitCtx recorded the revision. */
  ghost function ReadAt(events: seq<Event>, id: nat): Option<nat> {
    if events == [] then None
    else
      var init, last := events[..|events| - 1], events[|events| - 1];
      if last == Record(id) then Some(|Received(init)|) else ReadAt(init, id)
  }

  lemma SystemStep(s: System, e: Event)
    requires Step(s, e).Some?
    ensures var t := Step(s, e).value;
            && t.num == s.num && t.history == s.history + (if e.Receive? then [e.m] else [])
            && (t.closed <==> s.closed || e.Fail?)
  {
    hide Replay;
    hide Meets;
    hide Signals;
    assert s.history + [] == s.history;
  }

  /** The store is what the messages that came make it, and the connection is dead once it failed. */
  lemma {:induction false} SystemAsRun(num: Text -> real, events: seq<Event>)
    requires Exec(Step, Start(num), events).Some?
    ensures var s := Exec(Step, Start(num), events).value;
            && s.num == num && s.history == Received(events)
            && (s.closed <==> exists i :: 0 <= i < |events| && events[i].Fail?)
  {
    hide Step;
    if events != [] {
      var init, last := events[..|events| - 1], events[|events| - 1];
      SystemAsRun(num, init);
      SystemStep(Exec(Step, Start(num), init).value, last);
      assert events[|init|] == last && forall i :: 0 <= i < |init| ==> events[i] == init[i];
    }
  }

  /** The call that made the waiter. */
  ghost function Called(events: seq<Event>, id: nat): Option<Event> {
    if events == [] then None
    else
      var init, last := events[..|events| - 1], events[|events| - 1];
      if Called(init, id).None? && (last.Wait? || last.SetAndWait?) && last.id == id then Some(last)
      else Called(init, id)
  }

  /** A waiter looks for what its caller asked for; a set-and-wait has recorded the revision, once,
      before it goes on, and so before its command is sent. */
  ghost predicate AsCalled(w: Waiter, call: Option<Event>, read: Option<nat>) {
    && call.Some? && w.read == read
    && match call.value
       case Wait(_, d, n, since, pred) =>
         w.device == d && w.name == n && w.pred == pred && w.since == since && read == None
         && !w.place.Starting? && !w.place.Sending?
       case SetAndWait(_, d, n, pred) =>
         w.device == d && w.name == n && w.pred == pred && (read == None <==> w.place.Starting?)
       case _ => false
  }

  lemma CalledStep(s: System, e: Event, id: nat, call: Option<Event>, read: Option<nat>)
    requires Step(s, e).Some?
    requires if id in s.waiters then AsCalled(s.waiters[id], call, read) else call == None && read == None
    ensures var t := Step(s, e).value;
            var now := if call.None? && (e.Wait? || e.SetAndWait?) && e.id == id then Some(e) else call;
            var at := if e == Record(id) then Some(|s.history|) else read;
            if id in t.waiters then AsCalled(t.waiters[id], now, at) else now == None && at == None
  {
    hide Replay;
    hide Meets;
  }

  lemma {:induction false} WaiterAsRun(num: Text -> real, events: seq<Event>, id: nat)
    requires Exec(Step, Start(num), events).Some?
    ensures var ws := Exec(Step, Start(num), events).value.waiters;
            if id in ws then AsCalled(ws[id], Called(events, id), ReadAt(events, id))
            else Called(events, id) == None && ReadAt(events, id) == None
  {
    hide Step;
    hide AsCalled;
    if events != [] {
      var init, last := events[..|events| - 1], events[|events| - 1];
      SystemAsRun(num, init);
      WaiterAsRun(num, init, id);
      CalledStep(Exec(Step, Start(num), init).value, last, id, Called(init, id), ReadAt(init, id));
    }
  }

  // ---- no wake-up is lost ----

  /** In every interleaving a waiter asleep on an open channel has seen the property and the
      connection exactly as they are, so neither an update it waits for nor the death of the
      connection can leave it asleep. */
  lemma NoLostWakeup(num: Text -> real, events: seq<Event>, id: nat)
    requires Exec(Step, Start(num), events).Some?
    requires var s := Exec(Step, Start(num), events).value;
             id in s.waiters && s.waiters[id].place.Blocked?
    ensures var s := Exec(Step, Start(num), events).value;
            var w := s.waiters[id];
            && (w.place.ch == s.updated ==> w.place.snap == Now(s, w) && !s.closed && !Meets(w, Now(s, w)))
            && (Meets(w, Now(s, w)) || s.closed ==> Step(s, Wake(id)).Some?)
  {
    AlwaysSound(num, events);
  }

  /** A sleeper whose property now qualifies, or whose connection is gone, returns as soon as it
      is scheduled, with the property as it is then. */
  lemma WokenReturns(num: Text -> real, events: seq<Event>, id: nat)
    requires Exec(Step, Start(num), events).Some?
    requires var s := Exec(Step, Start(num), events).value;
             id in s.waiters && s.waiters[id].place.Blocked? && (Meets(s.waiters[id], Now(s, s.waiters[id])) || s.closed)
    ensures var s := Exec(Step, Start(num), events).value;
            var w := s.waiters[id];
            var end := Exec(Step, s, [Wake(id), Look(id), Decide(id)]);
            && end.Some? && id in end.value.waiters
            && end.value.waiters[id].place
               == Returned(Now(s, w), if Meets(w, Now(s, w)) then Satisfied else Died, |s.history|)
  {
    NoLostWakeup(num, events, id);
    WakeLookDecide(Exec(Step, Start(num), events).value, id);
  }

  lemma WakeLookDecide(s: System, id: nat)
    requires id in s.waiters && Step(s, Wake(id)).Some? && (Meets(s.waiters[id], Now(s, s.waiters[id])) || s.closed)
    ensures var w := s.waiters[id];
            var end := Exec(Step, s, [Wake(id), Look(id), Decide(id)]);
            && end.Some? && id in end.value.waiters
            && end.value.waiters[id].place
               == Returned(Now(s, w), if Meets(w, Now(s, w)) then Satisfied else Died, |s.history|)
  {
    hide Replay;
    hide Exec;
    var a := Step(s, Wake(id)).value;
    var b := Step(a, Look(id)).value;
    assert Now(a, a.waiters[id]) == Now(s, s.waiters[id]);
    ThreeSteps(s, Wake(id), Look(id), Decide(id));
  }

  lemma ThreeSteps(s: System, a: Event, b: Event, c: Event)
    requires Step(s, a).Some? && Step(Step(s, a).value, b).Some?
    ensures Exec(Step, s, [a, b, c]) == Step(Step(Step(s, a).value, b).value, c)
  {
    hide Step;
    assert [a, b, c][..2] == [a, b] && [a, b][..1] == [a] && [a][..0] == [];
    assert Exec(Step, s, [a]) == Step(s, a);
    assert Exec(Step, s, [a, b]) == Step(Step(s, a).value, b);
  }

  // ---- set and wait ----

  /** A set-and-wait that succeeds returns the property as it was after some message that came
      after the recording and defined or set this very property. */
  lemma AcknowledgedByLaterUpdate(num: Text -> real, events: seq<Event>, id: nat)
    requires Exec(Step, Start(num), events).Some?
    requires var s := Exec(Step, Start(num), events).value;
             id in s.waiters && s.waiters[id].read.Some? && s.waiters[id].place.Returned?
             && s.waiters[id].place.how == Satisfied
    ensures var s := Exec(Step, Start(num), events).value;
            var w := s.waiters[id];
            && w.place.snap.Some? && w.pred(w.place.snap.value) && w.place.at <= |s.history|
            && w.place.snap == Entry(Replay(num, s.history[..w.place.at]), w.device, w.name)
            && exists i :: w.read.value <= i < w.place.at && Touches(s.history[i], w.device, w.name)
  {
    AlwaysSound(num, events);
    NumKept(num, events);
    var s := Exec(Step, Start(num), events).value;
    TouchedBetween(s, s.waiters[id]);
  }

  lemma TouchedBetween(s: System, w: Waiter)
    requires Sound(s, w) && w.read.Some? && w.place.Returned? && w.place.how == Satisfied
    ensures exists i :: w.read.value <= i < w.place.at <= |s.history| && Touches(s.history[i], w.device, w.name)
  {
    hide Replay;
    var from, to := w.read.value, w.place.at;
    var ext := s.history[from..to];
    assert s.history[..from] + ext == s.history[..to];
    NewerMeansTouched(s.num, s.history[..from], ext, w.device, w.name);
    var i :| 0 <= i < |ext| && Touches(ext[i], w.device, w.name);
    assert ext[i] == s.history[from + i];
  }

  lemma {:induction false} NumKept(num: Text -> real, events: seq<Event>)
    requires Exec(Step, Start(num), events).Some?
    ensures Exec(Step, Start(num), events).value.num == num
  {
    if events != [] {
      NumKept(num, events[..|events| - 1]);
    }
  }

  /** Conversely, a recording is answered by the property as it stands exactly when the property
      qualifies and has been defined or set, since it was last unknown, more often than it had
      been at the recording. */
  lemma AnsweredExactlyWhen(num: Text -> real, h: seq<Msg>, w: Waiter, k: nat)
    requires LastAbsent(num, h, k, w.device, w.name)
    ensures var p := Entry(Replay(num, h), w.device, w.name);
            Meets(w, p) <==> p.Some? && w.pred(p.value) && TouchesFrom(h, k, w.device, w.name) > w.since
  {
    RevCounts(num, h, k, w.device, w.name);
  }

  /** While nothing deletes the property, that is: exactly when it qualifies and some message
      after the recording defined or set it. */
  lemma AnsweredWhileKept(num: Text -> real, h: seq<Msg>, ext: seq<Msg>, w: Waiter)
    requires w.since == Rev(Replay(num, h), w.device, w.name)
    requires forall i :: 0 <= i < |ext| ==> !Deletes(ext[i], w.device, w.name)
    ensures var p := Entry(Replay(num, h + ext), w.device, w.name);
            Meets(w, p) <==> p.Some? && w.pred(p.value) && exists i :: 0 <= i < |ext| && Touches(ext[i], w.device, w.name)
  {
    hide Replay;
    var d, n := w.device, w.name;
    AlwaysCoherent(num, h + ext);
    var p := Entry(Replay(num, h + ext), d, n);
    if Meets(w, p) {
      NewerMeansTouched(num, h, ext, d, n);
    } else if p.Some? && w.pred(p.value) && exists i :: 0 <= i < |ext| && Touches(ext[i], d, n) {
      if Knows(Replay(num, h), d, n) {
        TouchedMeansNewer(num, h, ext, d, n);
        var i :| 0 <= i < |ext| && Touches(ext[i], d, n);
        TouchesCounted(ext, i, d, n);
        assert false;
      }
    }
  }

  lemma {:induction false} TouchesCounted(h: seq<Msg>, i: nat, d: Text, n: Text)
    requires i < |h| && Touches(h[i], d, n)
    ensures TouchesFrom(h, 0, d, n) > 0
  {
    if i < |h| - 1 {
      TouchesCounted(h[..|h| - 1], i, d, n);
    }
  }

  /** Deleting the property starts its count again, so a definition in the awaited state can be
      too low to answer a command recorded before the deletion. */
  lemma DeletionCanHideTheAnswer(num: Text -> real, d: Text, n: Text)
    requires n != []
    ensures var def := Def(Switch, d, n, [], [], Ascii("Ok"), [], [], []);
            var h, ext := [def, def], [Del(d, n), def];
            var p := Entry(Replay(num, h + ext), d, n);
            && p.Some? && p.value.state == Ascii("Ok") && Touches(ext[1], d, n)
            && p.value.rev <= Rev(Replay(num, h), d, n)
  {
    var def := Def(Switch, d, n, [], [], Ascii("Ok"), [], [], []);
    var h, del := [def, def], Del(d, n);
    assert h[..1] == [def] && [def][..0] == [];
    assert (h + [del])[..2] == h && (h + [del, def])[..3] == h + [del];
    AlwaysCoherent(num, []);
    AlwaysCoherent(num, [def]);
    AlwaysCoherent(num, h);
    AlwaysCoherent(num, h + [del]);
    RevStep(num, Replay(num, []), def, d, n);
    RevStep(num, Replay(num, [def]), def, d, n);
    RevStep(num, Replay(num, h), del, d, n);
    RevStep(num, Replay(num, h + [del]), def, d, n);
  }

  lemma {:induction false} TouchesSplit(h: seq<Msg>, ext: seq<Msg>, k: nat, d: Text, n: Text)
    requires k <= |h|
    ensures TouchesFrom(h + ext, k, d, n) == TouchesFrom(h, k, d, n) + TouchesFrom(h + ext, |h|, d, n)
    decreases |ext|
  {
    if ext == [] {
      assert h + ext == h;
    } else {
      var init := ext[..|ext| - 1];
      assert (h + ext)[..|h + ext| - 1] == h + init;
      TouchesSplit(h, init, k, d, n);
    }
  }

  lemma LastAbsentBefore(num: Text -> real, h: seq<Msg>, ext: seq<Msg>, k: nat, d: Text, n: Text)
    requires LastAbsent(num, h + ext, k, d, n) && k <= |h|
    ensures LastAbsent(num, h, k, d, n)
  {
    hide Replay;
    assert forall j :: 0 <= j <= |h| ==> (h + ext)[..j] == h[..j];
  }

  /** The exact condition, for a recording made after the messages h and read after ext more: if the
      property has been there ever since the recording or come since, any definition or set of
      it in ext will do; if it was gone in between, those since it came back have to outnumber
      the ones counted at the recording. */
  lemma AnsweredFromRecording(num: Text -> real, h: seq<Msg>, ext: seq<Msg>, w: Waiter, k: nat)
    requires w.since == Rev(Replay(num, h), w.device, w.name)
    requires LastAbsent(num, h + ext, k, w.device, w.name)
    ensures var p := Entry(Replay(num, h + ext), w.device, w.name);
            Meets(w, p) <==>
              p.Some? && w.pred(p.value) &&
              TouchesFrom(h + ext, if k <= |h| then |h| else k, w.device, w.name) > if k <= |h| then 0 else w.since
  {
    hide Replay;
    AnsweredExactlyWhen(num, h + ext, w, k);
    if k <= |h| {
      LastAbsentBefore(num, h, ext, k, w.device, w.name);
      RevCounts(num, h, k, w.device, w.name);
      TouchesSplit(h, ext, k, w.device, w.name);
    }
  }

  /** What setAndWaitCtx waits for. */
  predicate Acknowledged(p: Property) {
    p.state == Ascii("Ok") || p.state == Ascii("Alert")
  }

  /** A run in which an answer is missed: a command is sent to a property seen twice; the property is
      deleted and defined again, in state Ok; the waiter looks, and stays asleep. */
  lemma AnswerMissed(num: Text -> real, d: Text, n: Text) returns (events: seq<Event>, s: System)
    requires n != []
    ensures Exec(Step, Start(num), events) == Some(s) && 0 in s.waiters
    ensures var w := s.waiters[0];
            && w.place.Blocked? && w.place.ch == s.updated
            && Now(s, w).Some? && Now(s, w).value.state == Ascii("Ok")
            && (forall p: Property :: w.pred(p) <==> p.state == Ascii("Ok") || p.state == Ascii("Alert"))
            && w.read.Some? && exists i :: w.read.value <= i < |s.history| && Touches(s.history[i], d, n)
  {
    hide Replay;
    hide Exec;
    hide Signals;
    var def := Def(Switch, d, n, [], [], Ascii("Ok"), [], [], []);
    var h, ext := [def, def], [Del(d, n), def];
    DeletionCanHideTheAnswer(num, d, n);
    Begins(num);
    events, s := OneMore(Step, Start(num), [], Start(num), Receive(def));
    events, s := OneMore(Step, Start(num), events, s, Receive(def));
    assert s.history == h;
    events, s := OneMore(Step, Start(num), events, s, SetAndWait(0, d, n, Acknowledged));
    events, s := OneMore(Step, Start(num), events, s, Record(0));
    events, s := OneMore(Step, Start(num), events, s, Sent(0, true));
    events, s := OneMore(Step, Start(num), events, s, Receive(Del(d, n)));
    events, s := OneMore(Step, Start(num), events, s, Receive(def));
    assert s.history == h + ext && !s.closed;
    events, s := OneMore(Step, Start(num), events, s, Look(0));
    events, s := OneMore(Step, Start(num), events, s, Decide(0));
    assert s.history[3] == ext[1] && Touches(s.history[3], d, n);
    assert s.waiters[0].pred == Acknowledged;
  }

  lemma Begins(num: Text -> real)
    ensures Exec(Step, Start(num), []) == Some(Start(num))
  {
  }
}
