/** The camera driver's exposures: one goroutine handles commands, and each exposure has one that
    waits for its frame. Steps are critical sections, channel operations and camera calls. */
module Exposure {
  import opened ByteText
  import opened Runs

  /** The three fields the lock guards; an exposure's cancel function and its done channel go by
      its number. */
  datatype Handles = Handles(exposing: bool, cancelExp: Option<nat>, exposeDone: Option<nat>)

  const CLEAR := Handles(false, None, None)

  function Installed(i: nat): Handles {
    Handles(true, Some(i), Some(i))
  }

  /** Where awaitFrame is: polling; about to read the frame; about to send it; about to clear the
      handles; about to publish the outcome; returned, its done channel closed. */
  datatype Place = Polling | Reading | Sending | Clearing | Publishing | Ended

  datatype Waiter = Waiter(cancelled: bool, place: Place)

  /** Where the command goroutine is. A stop that belongs to a new exposure has `start` set;
      `camera` says whether there is one to abort. */
  datatype Control =
    | Resting
    | Stopping(start: bool, camera: bool)
    | Grabbed(cancel: Option<nat>, done: Option<nat>, was: bool, start: bool, camera: bool)
    | Awaiting(done: Option<nat>, was: bool, start: bool, camera: bool)
    | Stopped(was: bool, start: bool, camera: bool)
    | Launching
    | Installing

  datatype Call = Launch | Halt

  /** `calls` are the camera's StartExposure calls that succeeded and its AbortExposure calls. */
  datatype State = State(handles: Handles, waiters: seq<Waiter>, control: Control, calls: seq<Call>)

  const IDLE := State(CLEAR, [], Resting, [])

  datatype Event =
    | StartCommand
    | StopCommand(camera: bool)
    | Grab
    | Cancel
    | DoneSeen
    | Expired
    | Abort
    | StartExposure(ok: bool)
    | Install
    | ParentDone(i: nat)
    | Quit(i: nat)
    | Poll(i: nat, ready: bool)
    | Frame(i: nat, ok: bool)
    | Deliver(i: nat)
    | Clear(i: nat)
    | Publish(i: nat)

  function Step(s: State, e: Event): Option<State> {
    match e
    case StartCommand => if s.control != Resting then None else Some(s.(control := Stopping(true, true)))
    case StopCommand(camera) => if s.control != Resting then None else Some(s.(control := Stopping(false, camera)))
    case Grab =>
      if !s.control.Stopping? then None
      else Some(s.(handles := CLEAR,
                   control := Grabbed(s.handles.cancelExp, s.handles.exposeDone, s.handles.exposing,
                                      s.control.start, s.control.camera)))
    case Cancel =>
      if !s.control.Grabbed? then None
      else Some(s.(waiters := if s.control.cancel.Some? then Cancelled(s.waiters, s.control.cancel.value) else s.waiters,
                   control := Awaiting(s.control.done, s.control.was, s.control.start, s.control.camera)))
    case DoneSeen =>
      if !s.control.Awaiting? || (s.control.done.Some? && !At(s.waiters, s.control.done.value, Ended)) then None
      else Some(s.(control := Stopped(s.control.was, s.control.start, s.control.camera)))
    case Expired =>
      if !s.control.Awaiting? || s.control.done.None? then None
      else Some(s.(control := Stopped(s.control.was, s.control.start, s.control.camera)))
    case Abort =>
      if !s.control.Stopped? then None
      else Some(s.(control := if s.control.start then Launching else Resting,
                   calls := if s.control.was && s.control.camera then s.calls + [Halt] else s.calls))
    case StartExposure(ok) =>
      if s.control != Launching then None
      else if !ok then Some(s.(control := Resting))
      else Some(s.(control := Installing, calls := s.calls + [Launch]))
    case Install =>
      if s.control != Installing then None
      else Some(State(Installed(|s.waiters|), s.waiters + [Waiter(false, Polling)], Resting, s.calls))
    case ParentDone(i) => if i >= |s.waiters| then None else Some(s.(waiters := Cancelled(s.waiters, i)))
    case Quit(i) => if !At(s.waiters, i, Polling) || !s.waiters[i].cancelled then None else Some(Moved(s, i, Ended))
    case Poll(i, ready) =>
      if !At(s.waiters, i, Polling) then None else Some(Moved(s, i, if ready then Reading else Polling))
    case Frame(i, ok) =>
      if !At(s.waiters, i, Reading) then None else Some(Moved(s, i, if ok then Sending else Clearing))
    case Deliver(i) => if !At(s.waiters, i, Sending) then None else Some(Moved(s, i, Clearing))
    case Clear(i) => if !At(s.waiters, i, Clearing) then None else Some(Moved(s, i, Publishing).(handles := CLEAR))
    case Publish(i) => if !At(s.waiters, i, Publishing) then None else Some(Moved(s, i, Ended))
  }

  predicate At(ws: seq<Waiter>, i: nat, p: Place) {
    i < |ws| && ws[i].place == p
  }

  function Cancelled(ws: seq<Waiter>, i: nat): seq<Waiter> {
    if i < |ws| then ws[i := ws[i].(cancelled := true)] else ws
  }

  function Moved(s: State, i: nat, p: Place): State
    requires i < |s.waiters|
  {
    s.(waiters := s.waiters[i := s.waiters[i].(place := p)])
  }

  // ---- what every run keeps ----

  /** Before its clearExposing: it may yet touch the camera or the handles. */
  predicate Live(ws: seq<Waiter>, i: nat) {
    i < |ws| && ws[i].place != Publishing && ws[i].place != Ended
  }

  /** The three fields are set and cleared together. */
  predicate Paired(h: Handles) {
    h.cancelExp == h.exposeDone && (h.exposing <==> h.cancelExp.Some?)
  }

  /** The exposure a stop has taken over and is still waiting for. */
  function Taken(c: Control): Option<nat> {
    match c
    case Grabbed(_, done, _, _, _) => done
    case Awaiting(done, _, _, _) => done
    case _ => None
  }

  ghost predicate Inv(s: State) {
    && Paired(s.handles)
    && (s.control.Grabbed? ==> s.control.cancel == s.control.done)
    && (!s.control.Resting? && !s.control.Stopping? ==> s.handles == CLEAR)
    && (s.handles.cancelExp.Some? ==> s.handles.cancelExp.value < |s.waiters|)
    && (forall i: nat :: Live(s.waiters, i) ==> s.handles.cancelExp == Some(i) || Taken(s.control) == Some(i))
  }

  lemma InvNext(s: State, e: Event)
    requires Inv(s) && Step(s, e).Some? && !e.Expired?
    ensures Inv(Step(s, e).value)
  {
    var t := Step(s, e).value;
    assert e.Clear? ==> Live(s.waiters, e.i);
    forall i: nat | Live(t.waiters, i)
      ensures t.handles.cancelExp == Some(i) || Taken(t.control) == Some(i)
    {
      assert i < |s.waiters| ==> Live(s.waiters, i);
    }
  }

  function Patient(s: State, e: Event): Option<State> {
    if e.Expired? then None else Step(s, e)
  }

  /** At most one awaitFrame is before its clearExposing, the camera is told to abort or start only
      when none is, and clearExposing finds its own handles or none. */
  ghost predicate Orderly(s: State) {
    && Paired(s.handles)
    && (forall i: nat, j: nat :: Live(s.waiters, i) && Live(s.waiters, j) ==> i == j)
    && (s.control.Stopped? || s.control.Launching? ==> forall i: nat :: !Live(s.waiters, i))
    && (forall i: nat :: Step(s, Clear(i)).Some? ==> s.handles == CLEAR || s.handles == Installed(i))
  }

  lemma InvIsOrderly(s: State)
    requires Inv(s)
    ensures Orderly(s)
  {
    assert forall i: nat :: Step(s, Clear(i)).Some? ==> Live(s.waiters, i);
  }

  /** So it is in every run in which no bounded wait expires. */
  lemma OneExposureAtATime(events: seq<Event>)
    requires Exec(Patient, IDLE, events).Some?
    ensures Orderly(Exec(Patient, IDLE, events).value)
  {
    forall s: State, e: Event | Inv(s) && Patient(s, e).Some?
      ensures Inv(Patient(s, e).value)
    {
      InvNext(s, e);
    }
    Kept(Patient, Inv, IDLE, events);
    InvIsOrderly(Exec(Patient, IDLE, events).value);
  }

  /** Step i gives up the wait for an exposure that is still before its clearExposing. */
  ghost predicate Premature(events: seq<Event>, i: nat) {
    && i < |events| && events[i] == Expired
    && var was := Exec(Step, IDLE, events[..i]);
       was.Some? && was.value.control.Awaiting? && was.value.control.done.Some?
       && Live(was.value.waiters, was.value.control.done.value)
  }

  lemma {:induction false} PrefixRuns(events: seq<Event>, n: nat)
    requires Exec(Step, IDLE, events).Some? && n <= |events|
    ensures Exec(Step, IDLE, events[..n]).Some?
  {
    hide Step;
    if n == |events| {
      assert events[..n] == events;
    } else {
      PrefixRuns(events[..|events| - 1], n);
      assert events[..|events| - 1][..n] == events[..n];
    }
  }

  lemma HarmlessExpiry(s: State)
    requires Inv(s) && Step(s, Expired).Some? && !Live(s.waiters, s.control.done.value)
    ensures Inv(Step(s, Expired).value)
  {
  }

  lemma {:induction false} InvWithoutPremature(events: seq<Event>)
    requires Exec(Step, IDLE, events).Some? && forall i: nat :: !Premature(events, i)
    ensures Inv(Exec(Step, IDLE, events).value)
  {
    if events != [] {
      var init, e := events[..|events| - 1], events[|events| - 1];
      forall i: nat
        ensures !Premature(init, i)
      {
        if i < |init| {
          assert init[..i] == events[..i] && !Premature(events, i);
        }
      }
      InvWithoutPremature(init);
      var s := Exec(Step, IDLE, init).value;
      hide Inv;
      if e.Expired? {
        assert events[..|init|] == init && !Premature(events, |init|);
        HarmlessExpiry(s);
      } else {
        InvNext(s, e);
      }
    }
  }

  lemma PrematureIsDisorderly(events: seq<Event>, i: nat)
    requires Exec(Step, IDLE, events).Some? && Premature(events, i)
    ensures Exec(Step, IDLE, events[..i + 1]).Some? && !Orderly(Exec(Step, IDLE, events[..i + 1]).value)
  {
    PrefixRuns(events, i + 1);
    assert events[..i + 1][..i] == events[..i];
    var s := Exec(Step, IDLE, events[..i]).value;
    var t := Exec(Step, IDLE, events[..i + 1]).value;
    assert Step(s, Expired) == Some(t);
    assert Live(t.waiters, s.control.done.value);
  }

  /** With expired waits the driver stays orderly, at every moment of a run, exactly when none of
      them is given up on an exposure that is still before its clearExposing. */
  lemma OrderlyExactlyWhen(events: seq<Event>)
    requires Exec(Step, IDLE, events).Some?
    ensures (forall n: nat :: n <= |events| ==>
               Exec(Step, IDLE, events[..n]).Some? && Orderly(Exec(Step, IDLE, events[..n]).value))
            <==> forall i: nat :: !Premature(events, i)
  {
    hide Step;
    hide Orderly;
    if forall i: nat :: !Premature(events, i) {
      forall n: nat | n <= |events|
        ensures Exec(Step, IDLE, events[..n]).Some? && Orderly(Exec(Step, IDLE, events[..n]).value)
      {
        PrefixRuns(events, n);
        forall i: nat
          ensures !Premature(events[..n], i)
        {
          if i < n {
            assert events[..n][..i] == events[..i] && !Premature(events, i);
          }
        }
        InvWithoutPremature(events[..n]);
        InvIsOrderly(Exec(Step, IDLE, events[..n]).value);
      }
    } else {
      var i: nat :| Premature(events, i);
      PrematureIsDisorderly(events, i);
    }
  }

  /** Expired waits or not, the handles are always set or clear together. */
  lemma {:induction false} AlwaysPaired(events: seq<Event>)
    requires Exec(Step, IDLE, events).Some?
    ensures Paired(Exec(Step, IDLE, events).value.handles)
  {
    Kept(Step, (s: State) => Paired(s.handles), IDLE, events);
  }

  /** Whether the last call told the camera to start. */
  predicate Running(calls: seq<Call>) {
    calls != [] && calls[|calls| - 1] == Launch
  }

  /** A stop that found an exposure set aborts one that was started; while the command goroutine is
      past taking the handles there are none. */
  ghost predicate Flagged(s: State) {
    && (s.handles.exposing || s.control.Installing? ==> Running(s.calls))
    && ((s.control.Grabbed? || s.control.Awaiting? || s.control.Stopped?) && s.control.was ==> Running(s.calls))
    && (!s.control.Resting? && !s.control.Stopping? ==> s.handles == CLEAR)
  }

  ghost predicate Matched(s: State) {
    Flagged(s) && forall i :: 0 <= i < |s.calls| && s.calls[i] == Halt ==> Running(s.calls[..i])
  }

  lemma CallsStep(s: State, e: Event)
    requires Flagged(s) && Step(s, e).Some?
    ensures var t := Step(s, e).value;
            t.calls == s.calls || t.calls == s.calls + [Launch] || (t.calls == s.calls + [Halt] && Running(s.calls))
  {
  }

  lemma FlaggedNext(s: State, e: Event)
    requires Flagged(s) && Step(s, e).Some?
    ensures Flagged(Step(s, e).value)
  {
    hide Running;
    hide Moved;
    hide Cancelled;
    var t := Step(s, e).value;
    if e.StartExposure? {
      LastCall(s.calls, Launch);
    } else if e.Quit? || e.Poll? || e.Frame? || e.Deliver? || e.Clear? || e.Publish? {
      MovedOnly(s, e.i, Ended);
      MovedOnly(s, e.i, if e.Poll? && e.ready then Reading else Polling);
      MovedOnly(s, e.i, if e.Frame? && e.ok then Sending else Clearing);
      MovedOnly(s, e.i, Publishing);
    }
  }

  lemma LastCall(calls: seq<Call>, c: Call)
    ensures Running(calls + [c]) <==> c == Launch
  {
  }

  lemma MovedOnly(s: State, i: nat, p: Place)
    requires i < |s.waiters|
    ensures var t := Moved(s, i, p); t.handles == s.handles && t.control == s.control && t.calls == s.calls
  {
  }

  lemma MatchedNext(s: State, e: Event)
    requires Matched(s) && Step(s, e).Some?
    ensures Matched(Step(s, e).value)
  {
    hide Flagged;
    hide Step;
    CallsStep(s, e);
    FlaggedNext(s, e);
    var t := Step(s, e).value;
    assert t.calls[..|s.calls|] == s.calls;
    forall i | 0 <= i < |t.calls| && t.calls[i] == Halt
      ensures Running(t.calls[..i])
    {
      if i < |s.calls| {
        assert t.calls[..i] == s.calls[..i];
      }
    }
  }

  lemma AlwaysMatched(events: seq<Event>)
    requires Exec(Step, IDLE, events).Some?
    ensures Matched(Exec(Step, IDLE, events).value)
  {
    forall s: State, e: Event | Matched(s) && Step(s, e).Some?
      ensures Matched(Step(s, e).value)
    {
      MatchedNext(s, e);
    }
    Kept(Step, Matched, IDLE, events);
  }

  /** Expired waits or not, the camera is told to abort only right after it was told to start. */
  lemma AbortsWhatItStarted(events: seq<Event>)
    requires Exec(Step, IDLE, events).Some?
    ensures var calls := Exec(Step, IDLE, events).value.calls;
            forall i :: 0 <= i < |calls| && calls[i] == Halt ==> i > 0 && calls[i - 1] == Launch
  {
    AlwaysMatched(events);
    var calls := Exec(Step, IDLE, events).value.calls;
    forall i | 0 <= i < |calls| && calls[i] == Halt
      ensures i > 0 && calls[i - 1] == Launch
    {
      assert Running(calls[..i]);
    }
  }

  // ---- the camera's calls, read off the events ----

  /** An exposure has been installed and neither taken by a stop nor cleared since. */
  predicate HandlesSet(events: seq<Event>) {
    if events == [] then false
    else
      var last := events[|events| - 1];
      last == Install || (last != Grab && !last.Clear? && HandlesSet(events[..|events| - 1]))
  }

  /** The last command was for a new exposure, or for a stop with a camera. */
  predicate CameraGiven(events: seq<Event>) {
    if events == [] then false
    else
      var last := events[|events| - 1];
      last == StartCommand || (if last.StopCommand? then last.camera else CameraGiven(events[..|events| - 1]))
  }

  /** The last taking of the handles found them set. */
  predicate FoundSet(events: seq<Event>) {
    if events == [] then false
    else
      var init := events[..|events| - 1];
      if events[|events| - 1] == Grab then HandlesSet(init) else FoundSet(init)
  }

  /** A StartExposure that succeeds, and an abort for a stop that found an exposure and has a camera. */
  function CallsOf(events: seq<Event>): seq<Call> {
    if events == [] then []
    else
      var init, last := events[..|events| - 1], events[|events| - 1];
      CallsOf(init) + (if last == StartExposure(true) then [Launch]
                       else if last == Abort && FoundSet(init) && CameraGiven(init) then [Halt]
                       else [])
  }

  ghost predicate Tracked(events: seq<Event>, s: State) {
    && (s.handles.exposing <==> HandlesSet(events))
    && (s.control.Stopping? || s.control.Grabbed? || s.control.Awaiting? || s.control.Stopped? ==>
          (s.control.camera <==> CameraGiven(events)))
    && (s.control.Grabbed? || s.control.Awaiting? || s.control.Stopped? ==> (s.control.was <==> FoundSet(events)))
    && s.calls == CallsOf(events)
  }

  lemma TrackedNext(events: seq<Event>, s: State, e: Event)
    requires Tracked(events, s) && Step(s, e).Some?
    ensures Tracked(events + [e], Step(s, e).value)
  {
    if e.ParentDone? || e.Quit? || e.Poll? || e.Frame? || e.Deliver? || e.Clear? || e.Publish? {
      TrackedByWaiter(events, s, e);
    } else {
      TrackedByCommand(events, s, e);
    }
  }

  lemma TrackedByCommand(events: seq<Event>, s: State, e: Event)
    requires Tracked(events, s) && Step(s, e).Some?
    requires !(e.ParentDone? || e.Quit? || e.Poll? || e.Frame? || e.Deliver? || e.Clear? || e.Publish?)
    ensures Tracked(events + [e], Step(s, e).value)
  {
    hide Cancelled;
    hide Moved;
    var more := events + [e];
    assert more[..|events|] == events && more[|events|] == e;
  }

  lemma TrackedByWaiter(events: seq<Event>, s: State, e: Event)
    requires Tracked(events, s) && Step(s, e).Some?
    requires e.ParentDone? || e.Quit? || e.Poll? || e.Frame? || e.Deliver? || e.Clear? || e.Publish?
    ensures Tracked(events + [e], Step(s, e).value)
  {
    WaiterStepOnly(s, e);
    WaiterEventOnly(events, e);
    hide Step;
    hide HandlesSet;
    hide CameraGiven;
    hide FoundSet;
    hide CallsOf;
  }

  lemma WaiterStepOnly(s: State, e: Event)
    requires Step(s, e).Some?
    requires e.ParentDone? || e.Quit? || e.Poll? || e.Frame? || e.Deliver? || e.Clear? || e.Publish?
    ensures var t := Step(s, e).value;
            t.control == s.control && t.calls == s.calls && t.handles == if e.Clear? then CLEAR else s.handles
  {
    hide Cancelled;
  }

  lemma WaiterEventOnly(events: seq<Event>, e: Event)
    requires e.ParentDone? || e.Quit? || e.Poll? || e.Frame? || e.Deliver? || e.Clear? || e.Publish?
    ensures var more := events + [e];
            && (HandlesSet(more) <==> !e.Clear? && HandlesSet(events)) && (CameraGiven(more) <==> CameraGiven(events))
            && (FoundSet(more) <==> FoundSet(events)) && CallsOf(more) == CallsOf(events)
  {
    assert (events + [e])[..|events|] == events;
    assert CallsOf(events) + [] == CallsOf(events);
  }

  /** Expired waits or not, the camera gets exactly these calls: it is told to abort exactly by the
      stops that found an exposure set and have a camera. */
  lemma {:induction false} CallsAsRun(events: seq<Event>)
    requires Exec(Step, IDLE, events).Some?
    ensures Tracked(events, Exec(Step, IDLE, events).value)
    ensures Exec(Step, IDLE, events).value.calls == CallsOf(events)
  {
    hide Step;
    if events != [] {
      var init, e := events[..|events| - 1], events[|events| - 1];
      CallsAsRun(init);
      hide Tracked;
      assert init + [e] == events;
      TrackedNext(init, Exec(Step, IDLE, init).value, e);
    }
    TrackedCalls(events, Exec(Step, IDLE, events).value);
  }

  lemma TrackedCalls(events: seq<Event>, s: State)
    requires Tracked(events, s)
    ensures s.calls == CallsOf(events)
  {
  }

  /** The last command was for a new exposure. */
  predicate StartGiven(events: seq<Event>) {
    if events == [] then false
    else
      var last := events[|events| - 1];
      last == StartCommand || (!last.StopCommand? && StartGiven(events[..|events| - 1]))
  }

  /** A command is under way: until its exposure is installed, or its start fails, or it has stopped
      what it had to and asked for no more. */
  predicate Commanded(events: seq<Event>) {
    if events == [] then false
    else
      var init, last := events[..|events| - 1], events[|events| - 1];
      if last == StartCommand || last.StopCommand? then true
      else if last == Install || last == StartExposure(false) then false
      else if last == Abort then StartGiven(init)
      else Commanded(init)
  }

  function Installs(events: seq<Event>): nat {
    if events == [] then 0
    else Installs(events[..|events| - 1]) + if events[|events| - 1] == Install then 1 else 0
  }

  ghost predicate Followed(events: seq<Event>, s: State) {
    && (s.control != Resting <==> Commanded(events))
    && (s.control.Stopping? || s.control.Grabbed? || s.control.Awaiting? || s.control.Stopped? ==>
          (s.control.start <==> StartGiven(events)))
    && |s.waiters| == Installs(events)
  }

  lemma FollowedNext(events: seq<Event>, s: State, e: Event)
    requires Followed(events, s) && Step(s, e).Some?
    ensures Followed(events + [e], Step(s, e).value)
  {
    var more := events + [e];
    assert more[..|events|] == events && more[|events|] == e;
  }

  /** In every run the next command is taken exactly when none is under way, and there have been as
      many exposures as were installed. */
  lemma {:induction false} CommandsAsRun(events: seq<Event>)
    requires Exec(Step, IDLE, events).Some?
    ensures Followed(events, Exec(Step, IDLE, events).value)
    ensures Step(Exec(Step, IDLE, events).value, StartCommand).Some? <==> !Commanded(events)
    ensures |Exec(Step, IDLE, events).value.waiters| == Installs(events)
  {
    if events != [] {
      var init, e := events[..|events| - 1], events[|events| - 1];
      CommandsAsRun(init);
      assert init + [e] == events;
      hide Step;
      hide Followed;
      FollowedNext(init, Exec(Step, IDLE, init).value, e);
    }
    Restful(events, Exec(Step, IDLE, events).value);
  }

  lemma Restful(events: seq<Event>, s: State)
    requires Followed(events, s)
    ensures Step(s, StartCommand).Some? <==> !Commanded(events)
    ensures |s.waiters| == Installs(events)
  {
  }

  /** A stop that waits long enough always ends: once cancelled, the exposure it waits for returns by at
      most four steps of its own, with no call to start or abort, and then the stop goes on. */
  lemma StopCanFinish(events: seq<Event>) returns (es: seq<Event>)
    requires Exec(Patient, IDLE, events).Some? && Exec(Patient, IDLE, events).value.control.Awaiting?
    ensures var s := Exec(Patient, IDLE, events).value;
            && |es| <= 4 && (s.control.done.None? ==> es == [])
            && (s.control.done.Some? ==>
                  var i := s.control.done.value;
                  && i < |s.waiters| && s.waiters[i].cancelled
                  && forall e :: e in es ==> e in [Quit(i), Frame(i, true), Deliver(i), Clear(i), Publish(i)])
            && var t := Exec(Step, s, es);
               t.Some? && t.value.control == s.control && t.value.calls == s.calls && Step(t.value, DoneSeen).Some?
  {
    forall s: State, e: Event | Held(s) && Patient(s, e).Some?
      ensures Held(Patient(s, e).value)
    {
      HeldNext(s, e);
    }
    Kept(Patient, Held, IDLE, events);
    var s := Exec(Patient, IDLE, events).value;
    if s.control.done.Some? {
      es := WaiterEnds(s, s.control.done.value);
    } else {
      es := [];
    }
  }

  /** A cancelled exposure returns by steps of its own: at once when it is polling. */
  lemma {:induction false} WaiterEnds(s: State, i: nat) returns (es: seq<Event>)
    requires i < |s.waiters| && s.waiters[i].cancelled
    ensures |es| <= (match s.waiters[i].place
                     case Ended => 0 case Polling => 1 case Publishing => 1 case Clearing => 2 case Sending => 3
                     case Reading => 4)
    ensures forall e :: e in es ==> e in [Quit(i), Frame(i, true), Deliver(i), Clear(i), Publish(i)]
    ensures var t := Exec(Step, s, es);
            t.Some? && t.value.control == s.control && t.value.calls == s.calls && At(t.value.waiters, i, Ended)
    decreases match s.waiters[i].place
              case Ended => 0 case Polling => 1 case Publishing => 1 case Clearing => 2 case Sending => 3 case Reading => 4
  {
    if s.waiters[i].place == Ended {
      es := [];
    } else {
      var e := match s.waiters[i].place
        case Polling => Quit(i)
        case Reading => Frame(i, true)
        case Sending => Deliver(i)
        case Clearing => Clear(i)
        case _ => Publish(i);
      var t := Step(s, e).value;
      assert t.control == s.control && t.calls == s.calls && t.waiters[i].cancelled;
      var rest := WaiterEnds(t, i);
      es := [e] + rest;
      hide Step;
      StepFirst(s, e, rest);
    }
  }

  lemma {:induction false} StepFirst(s: State, e: Event, rest: seq<Event>)
    requires Step(s, e).Some?
    ensures Exec(Step, s, [e] + rest) == Exec(Step, Step(s, e).value, rest)
  {
    hide Step;
    var all := [e] + rest;
    if rest == [] {
      assert all[..0] == [];
    } else {
      assert all[..|all| - 1] == [e] + rest[..|rest| - 1];
      StepFirst(s, e, rest[..|rest| - 1]);
    }
  }

  /** What a stop holds belongs to a known exposure, cancelled before it is waited for. */
  predicate Held(s: State) {
    && Paired(s.handles)
    && (s.handles.cancelExp.Some? ==> s.handles.cancelExp.value < |s.waiters|)
    && (s.control.Grabbed? ==>
          s.control.cancel == s.control.done && (s.control.done.Some? ==> s.control.done.value < |s.waiters|))
    && (s.control.Awaiting? && s.control.done.Some? ==>
          s.control.done.value < |s.waiters| && s.waiters[s.control.done.value].cancelled)
  }

  lemma HeldNext(s: State, e: Event)
    requires Held(s) && Step(s, e).Some?
    ensures Held(Step(s, e).value)
  {
  }

  // ---- what an expired wait can do ----

  /** A run ending in `s`, without expired waits after its first `n` steps. */
  ghost predicate Run(events: seq<Event>, s: State, n: nat) {
    && Exec(Step, IDLE, events) == Some(s)
    && n <= |events| && forall i :: n <= i < |events| ==> !events[i].Expired?
  }

  lemma Go(events: seq<Event>, s: State, e: Event, n: nat) returns (more: seq<Event>, t: State)
    requires Run(events, s, n) && Step(s, e).Some? && !e.Expired?
    ensures Step(s, e) == Some(t) && Run(more, t, n) && |events| < |more| && more[..|events|] == events
  {
    hide Step;
    more, t := OneMore(Step, IDLE, events, s, e);
  }

  /** An undisturbed stop and start from rest. */
  lemma Supersede(events: seq<Event>, s: State, n: nat) returns (more: seq<Event>, t: State)
    requires Run(events, s, n) && s.control == Resting && s.handles == CLEAR
    ensures Run(more, t, n) && |events| <= |more| && more[..|events|] == events
    ensures t.handles == Installed(|s.waiters|) && t.control == Resting
    ensures t.waiters == s.waiters + [Waiter(false, Polling)]
  {
    hide Run;
    more, t := Go(events, s, StartCommand, n);
    more, t := Follow(events, more, t, Grab, n);
    more, t := Follow(events, more, t, Cancel, n);
    more, t := Follow(events, more, t, DoneSeen, n);
    more, t := Follow(events, more, t, Abort, n);
    more, t := Follow(events, more, t, StartExposure(true), n);
    more, t := Follow(events, more, t, Install, n);
  }

  lemma Follow(from: seq<Event>, events: seq<Event>, s: State, e: Event, n: nat) returns (more: seq<Event>, t: State)
    requires Run(events, s, n) && Step(s, e).Some? && !e.Expired?
    requires |from| <= |events| && events[..|from|] == from
    ensures Step(s, e) == Some(t) && Run(more, t, n) && |from| <= |more| && more[..|from|] == from
  {
    hide Step;
    more, t := Go(events, s, e, n);
    assert more[..|from|] == more[..|events|][..|from|];
  }

  /** After every premature expiry, in a start or in a stop, there is a way on, without any further
      expiry, by which two exposures are before their clearExposing at once. */
  lemma OverlapFollows(events: seq<Event>, i: nat) returns (more: seq<Event>, t: State)
    requires Exec(Step, IDLE, events).Some? && Premature(events, i)
    ensures Run(more, t, i + 1) && more[..i + 1] == events[..i + 1]
    ensures exists a: nat, b: nat :: a < b && Live(t.waiters, a) && Live(t.waiters, b)
  {
    hide Run;
    hide Matched;
    var start := events[..i + 1];
    var s := JustExpired(events, i);
    var was := Exec(Step, IDLE, events[..i]).value;
    hide Exec;
    hide Step;
    var a := was.control.done.value;
    more, t := Resume(start, s, i + 1);
    assert Live(t.waiters, a) && Live(t.waiters, |s.waiters|);
  }

  /** The state after a premature expiry. */
  lemma JustExpired(events: seq<Event>, i: nat) returns (s: State)
    requires Exec(Step, IDLE, events).Some? && Premature(events, i)
    ensures Run(events[..i + 1], s, i + 1) && s.control.Stopped? && s.handles == CLEAR
    ensures Exec(Step, IDLE, events[..i]).Some? && s.waiters == Exec(Step, IDLE, events[..i]).value.waiters
  {
    var start := events[..i + 1];
    PrefixRuns(events, i + 1);
    assert start[..i] == events[..i];
    s := Exec(Step, IDLE, start).value;
    assert Step(Exec(Step, IDLE, events[..i]).value, Expired) == Some(s);
    AlwaysMatched(start);
    Arrived(start, s);
  }

  /** Going on with a stop, and with the start it belongs to or else another one. */
  lemma Resume(start: seq<Event>, s: State, n: nat) returns (more: seq<Event>, t: State)
    requires Run(start, s, n) && |start| == n && s.control.Stopped? && s.handles == CLEAR
    ensures Run(more, t, n) && |more| >= n && more[..n] == start && t.waiters == s.waiters + [Waiter(false, Polling)]
  {
    hide Run;
    more, t := Go(start, s, Abort, n);
    if s.control.start {
      more, t := Follow(start, more, t, StartExposure(true), n);
      more, t := Follow(start, more, t, Install, n);
    } else {
      var before := more;
      more, t := Supersede(more, t, n);
      assert more[..n] == more[..|before|][..n];
    }
  }

  lemma Arrived(events: seq<Event>, s: State)
    requires Exec(Step, IDLE, events) == Some(s)
    ensures Run(events, s, |events|)
  {
  }

  /** If the wait for an exposure that is sending its frame expires, that exposure goes on to erase
      the handles of the one that superseded it; a third then starts with nothing to cancel,
      and two of them poll the camera. */
  lemma ExpiredWaitOverlaps() returns (events: seq<Event>, s: State)
    ensures Exec(Step, IDLE, events) == Some(s)
    ensures At(s.waiters, 1, Polling) && !s.waiters[1].cancelled
    ensures At(s.waiters, 2, Polling) && !s.waiters[2].cancelled
  {
    hide Run;
    hide Exec;
    hide Step;
    var n;
    events, s, n := StartedMeanwhile();
    events, s := Supersede(events, s, n);
    RunEnds(events, s, n);
  }

  lemma StartedMeanwhile() returns (events: seq<Event>, s: State, n: nat)
    ensures Run(events, s, n)
    ensures s.handles == CLEAR && s.control == Resting && s.waiters == [Waiter(true, Publishing), Waiter(false, Polling)]
  {
    hide Run;
    hide Exec;
    events, s, n := GivenUpWhileSending();
    events, s := Go(events, s, Abort, n);
    events, s := Go(events, s, StartExposure(true), n);
    events, s := Go(events, s, Install, n);
    events, s := Go(events, s, Deliver(0), n);
    events, s := Go(events, s, Clear(0), n);
  }

  lemma GivenUpWhileSending() returns (events: seq<Event>, s: State, n: nat)
    ensures Run(events, s, n)
    ensures s.handles == CLEAR && s.waiters == [Waiter(true, Sending)] && s.control == Stopped(true, true, true)
  {
    hide Run;
    hide Exec;
    StartsIdle();
    Arrived([], IDLE);
    events, s := Supersede([], IDLE, 0);
    events, s := Go(events, s, Poll(0, true), 0);
    events, s := Go(events, s, Frame(0, true), 0);
    events, s := Go(events, s, StartCommand, 0);
    events, s := Go(events, s, Grab, 0);
    events, s := Go(events, s, Cancel, 0);
    RunEnds(events, s, 0);
    events, s := OneMore(Step, IDLE, events, s, Expired);
    n := |events|;
    Arrived(events, s);
  }

  lemma StartsIdle()
    ensures Exec(Step, IDLE, []) == Some(IDLE)
  {
  }

  lemma RunEnds(events: seq<Event>, s: State, n: nat)
    requires Run(events, s, n)
    ensures Exec(Step, IDLE, events) == Some(s)
  {
  }

  // ---- the device object ----

  class Device {
    var exposing: bool
    var cancelExp: Option<nat>
    var exposeDone: Option<nat>

    ghost function View(): Handles
      reads this
    {
      Handles(exposing, cancelExp, exposeDone)
    }

    constructor ()
      ensures View() == CLEAR
    {
      exposing, cancelExp, exposeDone := false, None, None;
    }

    /** The critical section of stopExposure. */
    method TakeHandles() returns (cancel: Option<nat>, done: Option<nat>, was: bool)
      requires Paired(View())
      modifies this
      ensures View() == CLEAR && was == old(exposing) && cancel == done == old(cancelExp) && (was <==> cancel.Some?)
    {
      cancel, done, was := cancelExp, exposeDone, exposing;
      cancelExp, exposeDone, exposing := None, None, false;
    }

    /** The critical section of startExposure. */
    method SetHandles(i: nat)
      modifies this
      ensures View() == Installed(i) && Paired(View())
    {
      exposing := true;
      cancelExp := Some(i);
      exposeDone := Some(i);
    }

    method ClearExposing()
      modifies this
      ensures View() == CLEAR && Paired(View())
    {
      exposing, cancelExp, exposeDone := false, None, None;
    }
  }
}
