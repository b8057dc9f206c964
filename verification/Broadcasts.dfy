/** What the runs of the hub come to, in terms of their events alone: who was sent what, and why not. */
module Broadcasts {
  import opened ByteText
  import opened BlobPolicy
  import opened Outbound
  import opened Runs
  import opened Hub

  // ---- reading a run ----

  /** How many messages were taken up. */
  function Begins(events: seq<Event>): nat {
    if events == [] then 0
    else Begins(events[..|events| - 1]) + if IsBegin(events[|events| - 1]) then 1 else 0
  }

  /** The number of the message goroutine g took up last. */
  function Latest(events: seq<Event>, g: nat): Option<nat> {
    if events == [] then None
    else
      var init, last := events[..|events| - 1], events[|events| - 1];
      if IsBegin(last) && last.g == g then Some(Begins(init)) else Latest(init, g)
  }

  /** The connection has come and nobody has taken it off the list. */
  predicate ListedIn(events: seq<Event>, c: nat) {
    if events == [] then false
    else
      var init, last := events[..|events| - 1], events[|events| - 1];
      if last == Connect(c) then true
      else if last.Unlist? && last.c == c then false
      else ListedIn(init, c)
  }

  /** The settings the connection has sent. */
  function Asked(events: seq<Event>, c: nat): seq<Setting> {
    if events == [] then []
    else
      var last := events[|events| - 1];
      Asked(events[..|events| - 1], c) + if last.Subscribe? && last.c == c then [last.s] else []
  }

  /** Whether those settings let the message through. */
  predicate Admits(asked: seq<Setting>, j: Job) {
    j.kind.None? || Wants(Settled(asked), j.device, j.name, j.kind.value)
  }

  /** The message is the one that event begins. */
  predicate BegunBy(j: Job, e: Event) {
    match e
    case Broadcast(g, body, d, n, kind) => j == Job(g, body + [10], d, n, Some(kind), j.to)
    case Address(g, to, body, d, n, only) => j == Job(g, body + [10], d, n, only, {to})
    case _ => false
  }

  /** Step n is goroutine g's look at the policy of c for message k. */
  ghost predicate CheckedAt(events: seq<Event>, n: nat, g: nat, c: nat, k: nat) {
    n < |events| && events[n] == Check(g, c) && Latest(events[..n], g) == Some(k)
  }

  ghost predicate PutAt(events: seq<Event>, n: nat, g: nat, c: nat, k: nat) {
    n < |events| && events[n] == Put(g, c) && Latest(events[..n], g) == Some(k)
  }

  // ---- one more event ----

  lemma Longer(events: seq<Event>, e: Event)
    ensures (events + [e])[..|events|] == events
    ensures forall n: nat :: n <= |events| ==> (events + [e])[..n] == events[..n]
  {
  }

  /** The state before the last event, and that event a step from it. */
  lemma BeforeLast(events: seq<Event>)
    requires events != [] && Exec(Step, QUIET, events).Some?
    ensures var init := events[..|events| - 1];
            && Exec(Step, QUIET, init).Some?
            && Step(Exec(Step, QUIET, init).value, events[|events| - 1]) == Exec(Step, QUIET, events)
            && (forall n: nat :: n <= |init| ==> events[..n] == init[..n])
            && events[..|init|] == init
  {
    hide Step;
  }

  lemma PolicyStep(h: Net, e: Event, c: nat)
    requires Step(h, e).Some?
    ensures var t := Step(h, e).value;
            if c in h.peers then
              c in t.peers && t.peers[c].policy
                == if e.Subscribe? && e.c == c then Settle(h.peers[c].policy, e.s) else h.peers[c].policy
            else c in t.peers ==> e == Connect(c) && t.peers[c].policy == map[]
    ensures e.Subscribe? ==> e.c in h.peers
  {
    hide Settle;
    hide Queued;
    hide Advance;
    hide ShutDown;
    hide VerdictFor;
    hide Wants;
  }

  /** The table a connection has is what its own settings, in order, make it. */
  lemma {:induction false} PolicyIsSettled(events: seq<Event>, c: nat)
    requires Exec(Step, QUIET, events).Some?
    ensures var h := Exec(Step, QUIET, events).value;
            if c in h.peers then h.peers[c].policy == Settled(Asked(events, c)) else Asked(events, c) == []
  {
    hide Step;
    if events != [] {
      var init, last := events[..|events| - 1], events[|events| - 1];
      PolicyIsSettled(init, c);
      PolicyStep(Exec(Step, QUIET, init).value, last, c);
      if last.Subscribe? && last.c == c {
        assert (Asked(init, c) + [last.s])[..|Asked(init, c)|] == Asked(init, c);
      } else {
        assert Asked(events, c) == Asked(init, c);
      }
    }
  }

  lemma ListStep(h: Net, e: Event, c: nat)
    requires Step(h, e).Some?
    ensures c in Step(h, e).value.listed <==> e == Connect(c) || (c in h.listed && !(e.Unlist? && e.c == c))
  {
    hide Settle;
    hide Enqueued;
    hide Advance;
    hide ShutDown;
    hide VerdictFor;
    hide Wanted;
  }

  lemma {:induction false} ListedAsRun(events: seq<Event>, c: nat)
    requires Exec(Step, QUIET, events).Some?
    ensures c in Exec(Step, QUIET, events).value.listed <==> ListedIn(events, c)
  {
    hide Step;
    if events != [] {
      BeforeLast(events);
      ListedAsRun(events[..|events| - 1], c);
      ListStep(Exec(Step, QUIET, events[..|events| - 1]).value, events[|events| - 1], c);
    }
  }

  lemma PeerStep(h: Net, e: Event, c: nat)
    requires Step(h, e).Some?
    ensures var t := Step(h, e).value;
            && (c in t.peers <==> c in h.peers || e == Connect(c))
            && (c in h.peers ==> (t.peers[c].line.closed <==> h.peers[c].line.closed || (e.Close? && e.c == c)))
            && (c !in h.peers && c in t.peers ==> !t.peers[c].line.closed)
    ensures e.Close? ==> e.c in h.peers
  {
    hide Settle;
    hide Overfull;
    hide Wanted;
  }

  /** The connections are those that came, and the closed ones those someone has removed. */
  lemma {:induction false} PeersAsRun(events: seq<Event>, c: nat)
    requires Exec(Step, QUIET, events).Some?
    ensures var h := Exec(Step, QUIET, events).value;
            && (c in h.peers <==> exists i :: 0 <= i < |events| && events[i] == Connect(c))
            && (c in h.peers ==>
                  (h.peers[c].line.closed <==> exists i :: 0 <= i < |events| && events[i].Close? && events[i].c == c))
            && (c !in h.peers ==> forall i :: 0 <= i < |events| && events[i].Close? ==> events[i].c != c)
  {
    hide Step;
    if events != [] {
      var init, last := events[..|events| - 1], events[|events| - 1];
      BeforeLast(events);
      PeersAsRun(init, c);
      PeerStep(Exec(Step, QUIET, init).value, last, c);
      assert events[|init|] == last && forall i :: 0 <= i < |init| ==> events[i] == init[i];
    }
  }

  /** A goroutine that hangs up on a connection, or was refused by its queue, takes it off the list
      and closes it in two steps that nothing can prevent, and goes back to what it did. */
  lemma RemovalEnds(h: Net, g: nat, c: nat, back: Task)
    requires TaskOf(h, g) == Dropping(c, false, back) && c in h.peers
    ensures var end := Exec(Step, h, [Unlist(g, c), Close(g, c)]);
            && end.Some? && c in end.value.peers && end.value.peers[c].line.closed
            && end.value.listed == h.listed - {c} && TaskOf(end.value, g) == back && end.value.jobs == h.jobs
            && end.value.peers == h.peers[c := end.value.peers[c]]
            && end.value.peers[c].line.queue == h.peers[c].line.queue
  {
    var mid := Step(h, Unlist(g, c)).value;
    assert Step(mid, Close(g, c)).Some?;
    TwoSteps(h, Unlist(g, c), Close(g, c));
    hide Exec;
  }

  lemma TwoSteps(h: Net, a: Event, b: Event)
    requires Step(h, a).Some?
    ensures Exec(Step, h, [a, b]) == Step(Step(h, a).value, b)
  {
    hide Step;
    assert [a, b][..1] == [a] && [a][..0] == [];
    assert Exec(Step, h, [a]) == Step(h, a);
  }

  lemma HangUpBegins(h: Net, g: nat, c: nat)
    requires TaskOf(h, g) == Idle && c in h.peers
    ensures var t := Step(h, HangUp(g, c));
            && t.Some? && TaskOf(t.value, g) == Dropping(c, false, Idle)
            && t.value.peers == h.peers && t.value.listed == h.listed && t.value.jobs == h.jobs
  {
  }

  lemma JobStep(h: Net, e: Event)
    requires Step(h, e).Some?
    ensures var t := Step(h, e).value;
            if IsBegin(e) then
              && |t.jobs| == |h.jobs| + 1 && t.jobs[..|h.jobs|] == h.jobs && BegunBy(t.jobs[|h.jobs|], e)
              && (e.Broadcast? ==> t.jobs[|h.jobs|].to == h.listed)
            else t.jobs == h.jobs
  {
    hide Settle;
    hide Enqueued;
    hide Advance;
    hide ShutDown;
    hide VerdictFor;
    hide Wanted;
  }

  /** Message number k is the k-th one taken up; a broadcast is meant for exactly the connections
      that were listed when it was taken up. */
  lemma {:induction false} JobsAsRun(events: seq<Event>)
    requires Exec(Step, QUIET, events).Some?
    ensures var jobs := Exec(Step, QUIET, events).value.jobs;
            && |jobs| == Begins(events)
            && forall b: nat :: b < |events| && IsBegin(events[b]) ==>
                 var k := Begins(events[..b]);
                 && k < |jobs| && BegunBy(jobs[k], events[b])
                 && (events[b].Broadcast? ==> forall c :: c in jobs[k].to <==> ListedIn(events[..b], c))
  {
    hide Step;
    hide BegunBy;
    hide ListedIn;
    if events != [] {
      var init, last := events[..|events| - 1], events[|events| - 1];
      BeforeLast(events);
      JobsAsRun(init);
      var h, jobs := Exec(Step, QUIET, init).value, Exec(Step, QUIET, events).value.jobs;
      JobStep(h, last);
      forall b: nat | b < |events| && IsBegin(events[b])
        ensures var k := Begins(events[..b]);
                && k < |jobs| && BegunBy(jobs[k], events[b])
                && (events[b].Broadcast? ==> forall c :: c in jobs[k].to <==> ListedIn(events[..b], c))
      {
        var k := Begins(events[..b]);
        if b < |init| {
          assert events[b] == init[b] && events[..b] == init[..b];
          assert k < |h.jobs| && jobs[k] == h.jobs[k];
        } else {
          forall c: nat
            ensures c in h.listed <==> ListedIn(init, c)
          {
            ListedAsRun(init, c);
          }
        }
      }
    }
  }

  lemma TaskStep(h: Net, e: Event, g: nat)
    requires Step(h, e).Some?
    ensures var t := Step(h, e).value;
            && (IsBegin(e) && e.g == g ==> Pending(TaskOf(t, g)) == Some(|h.jobs|) && TaskOf(t, g).Sending?)
            && (!(IsBegin(e) && e.g == g) && Pending(TaskOf(t, g)).Some? ==>
                  Pending(TaskOf(t, g)) == Pending(TaskOf(h, g)))
  {
    hide Settle;
    hide Enqueued;
    hide Advance;
    hide ShutDown;
    hide VerdictFor;
    hide Wanted;
    if e.Check? || e.Put? {
      var u := TaskOf(h, e.g);
      WhileDropping(e.c, false, RestOf(u, e.c));
      WhileDropping(e.c, false, Sending(u.job, u.left));
    } else if e.HangUp? {
      WhileDropping(e.c, false, Idle);
    }
  }

  /** What a goroutine is busy with is what it took up last. */
  lemma {:induction false} PendingIsLatest(events: seq<Event>, g: nat)
    requires Exec(Step, QUIET, events).Some?
    ensures var t := TaskOf(Exec(Step, QUIET, events).value, g);
            Pending(t).Some? ==> Latest(events, g) == Pending(t)
  {
    hide Step;
    hide Pending;
    if events == [] {
      assert Pending(Idle) == None by { WhileDropping(0, false, Idle); }
    } else {
      var init := events[..|events| - 1];
      BeforeLast(events);
      PendingIsLatest(init, g);
      JobsAsRun(init);
      TaskStep(Exec(Step, QUIET, init).value, events[|events| - 1], g);
    }
  }

  lemma {:induction false} LatestBegun(events: seq<Event>, g: nat) returns (b: nat)
    requires Latest(events, g).Some?
    ensures b < |events| && IsBegin(events[b]) && events[b].g == g && Begins(events[..b]) == Latest(events, g).value
  {
    var init, last := events[..|events| - 1], events[|events| - 1];
    if IsBegin(last) && last.g == g {
      b := |init|;
    } else {
      b := LatestBegun(init, g);
      assert events[..b] == init[..b];
    }
  }

  // ---- why a message was or was not enqueued ----

  /** At step n goroutine g looked at the policy and found the message wanted. */
  ghost predicate Admitted(events: seq<Event>, n: nat, g: nat, c: nat, k: nat, j: Job) {
    CheckedAt(events, n, g, c, k) && Admits(Asked(events[..n], c), j)
  }

  lemma CheckStep(h: Net, e: Event, g: nat)
    requires Step(h, e).Some? && (TaskOf(h, g).Dropping? ==> !TaskOf(h, g).back.Offering?)
    ensures var u := TaskOf(Step(h, e).value, g);
            u.Offering? ==>
              || u == TaskOf(h, g)
              || (e == Check(g, u.c) && u.c in h.peers && u.job < |h.jobs| && Wanted(h.peers[u.c], h.jobs[u.job])
                  && Pending(TaskOf(h, g)) == Some(u.job))
  {
    hide Settle;
    hide Enqueued;
    hide Advance;
    hide ShutDown;
    hide VerdictFor;
    hide Wanted;
  }

  lemma BackNotOffering(events: seq<Event>, g: nat)
    requires Exec(Step, QUIET, events).Some?
    ensures var t := TaskOf(Exec(Step, QUIET, events).value, g); t.Dropping? ==> !t.back.Offering?
  {
    hide Step;
    Reachable(events);
    var h := Exec(Step, QUIET, events).value;
    if g in h.tasks {
      assert TaskOk(h, g, h.tasks[g]);
    }
  }

  /** A message about to be enqueued was admitted by the policy at some earlier step. */
  lemma {:induction false} OfferingChecked(events: seq<Event>, g: nat)
    requires Exec(Step, QUIET, events).Some?
    ensures var h := Exec(Step, QUIET, events).value;
            var u := TaskOf(h, g);
            u.Offering? ==> u.job < |h.jobs| && exists n: nat :: Admitted(events, n, g, u.c, u.job, h.jobs[u.job])
  {
    hide Step;
    hide Admits;
    hide Asked;
    hide Latest;
    if events != [] {
      var init, last := events[..|events| - 1], events[|events| - 1];
      BeforeLast(events);
      OfferingChecked(init, g);
      BackNotOffering(init, g);
      var h, t := Exec(Step, QUIET, init).value, Exec(Step, QUIET, events).value;
      CheckStep(h, last, g);
      JobStep(h, last);
      var u := TaskOf(t, g);
      if u.Offering? {
        if u == TaskOf(h, g) {
          var n: nat :| Admitted(init, n, g, u.c, u.job, h.jobs[u.job]);
          assert events[..n] == init[..n] && events[n] == init[n] && t.jobs[u.job] == h.jobs[u.job];
          assert Admitted(events, n, g, u.c, u.job, t.jobs[u.job]);
        } else {
          WantedIsAdmitted(init, u.c, u.job);
          PendingIsLatest(init, g);
          assert Admitted(events, |init|, g, u.c, u.job, t.jobs[u.job]);
        }
      }
    }
  }

  lemma WantedIsAdmitted(events: seq<Event>, c: nat, k: nat)
    requires Exec(Step, QUIET, events).Some?
    requires c in Exec(Step, QUIET, events).value.peers && k < |Exec(Step, QUIET, events).value.jobs|
    ensures var h := Exec(Step, QUIET, events).value;
            Wanted(h.peers[c], h.jobs[k]) <==> Admits(Asked(events, c), h.jobs[k])
  {
    hide Step;
    hide Wants;
    hide Asked;
    PolicyIsSettled(events, c);
  }

  /** At step n the policy admitted the message, and at step m, after it, this was the verdict of the
      queue as it then was. */
  ghost predicate OfferedAt(events: seq<Event>, n: nat, m: nat, c: nat, v: Hearing, j: Job) {
    && Admitted(events, n, j.sender, c, v.job, j) && n < m && PutAt(events, m, j.sender, c, v.job)
    && var was := Exec(Step, QUIET, events[..m]);
       && was.Some? && c in was.value.peers
       && var l := was.value.peers[c].line;
          v.verdict == if l.closed then Gone else if RoomFor(l, j.message) then Taken else Refused
  }

  /** At step n the policy turned the message away. */
  ghost predicate TurnedAwayAt(events: seq<Event>, n: nat, c: nat, v: Hearing, j: Job) {
    CheckedAt(events, n, j.sender, c, v.job) && !Admits(Asked(events[..n], c), j)
  }

  ghost predicate Explained(events: seq<Event>, c: nat, v: Hearing, j: Job) {
    if v.verdict == Unwanted then exists n: nat :: TurnedAwayAt(events, n, c, v, j)
    else exists n: nat, m: nat :: OfferedAt(events, n, m, c, v, j)
  }

  lemma ExplainedLater(events: seq<Event>, e: Event, c: nat, v: Hearing, j: Job)
    requires Explained(events, c, v, j)
    ensures Explained(events + [e], c, v, j)
  {
    hide Step;
    hide Admits;
    hide Asked;
    hide Latest;
    hide RoomFor;
    var more := events + [e];
    Longer(events, e);
    if v.verdict == Unwanted {
      var n: nat :| TurnedAwayAt(events, n, c, v, j);
      assert more[n] == events[n];
      assert TurnedAwayAt(more, n, c, v, j);
    } else {
      var n: nat, m: nat :| OfferedAt(events, n, m, c, v, j);
      assert more[n] == events[n] && more[m] == events[m];
      assert OfferedAt(more, n, m, c, v, j);
    }
  }

  lemma HearStep(h: Net, e: Event, c: nat)
    requires Step(h, e).Some? && c in Step(h, e).value.peers
    ensures var heard := Step(h, e).value.peers[c].heard;
            if c !in h.peers then heard == []
            else if heard == h.peers[c].heard then true
            else
              && (e.Check? || e.Put?) && e.c == c
              && var u := TaskOf(h, e.g);
                 && (u.Sending? || u.Offering?) && u.job < |h.jobs| && Pending(u) == Some(u.job)
                 && if e.Check? then
                      !Wanted(h.peers[c], h.jobs[u.job]) && heard == h.peers[c].heard + [Hearing(u.job, Unwanted)]
                    else
                      && u.Offering? && u.c == c
                      && heard == h.peers[c].heard
                                  + [Hearing(u.job, VerdictFor(h.peers[c].line, h.jobs[u.job].message))]
  {
    hide Settle;
    hide Queued;
    hide Advance;
    hide ShutDown;
    hide VerdictFor;
    hide Wanted;
  }

  /** Every verdict has its reason in the run: the policy as set by the settings sent before the
      look at it, or the queue as it was at the enqueueing. */
  lemma {:induction false} HearingsExplained(events: seq<Event>, c: nat)
    requires Exec(Step, QUIET, events).Some? && c in Exec(Step, QUIET, events).value.peers
    ensures var h := Exec(Step, QUIET, events).value;
            var heard := h.peers[c].heard;
            forall i :: 0 <= i < |heard| ==>
              heard[i].job < |h.jobs| && Explained(events, c, heard[i], h.jobs[heard[i].job])
  {
    hide Step;
    hide Explained;
    if events != [] {
      var init, last := events[..|events| - 1], events[|events| - 1];
      BeforeLast(events);
      var h, t := Exec(Step, QUIET, init).value, Exec(Step, QUIET, events).value;
      HearStep(h, last, c);
      JobStep(h, last);
      if c in h.peers {
        HearingsExplained(init, c);
        var was, heard := h.peers[c].heard, t.peers[c].heard;
        forall i | 0 <= i < |heard|
          ensures heard[i].job < |t.jobs| && Explained(events, c, heard[i], t.jobs[heard[i].job])
        {
          if i < |was| {
            assert heard[i] == was[i] && t.jobs[was[i].job] == h.jobs[was[i].job];
            assert events == init + [last];
            ExplainedLater(init, last, c, was[i], h.jobs[was[i].job]);
          } else {
            JustSettled(init, last, c);
          }
        }
      }
    }
  }

  lemma JustSettled(init: seq<Event>, e: Event, c: nat)
    requires Exec(Step, QUIET, init).Some? && Step(Exec(Step, QUIET, init).value, e).Some?
    requires var h := Exec(Step, QUIET, init).value;
             c in h.peers && c in Step(h, e).value.peers && Step(h, e).value.peers[c].heard != h.peers[c].heard
    ensures var h := Exec(Step, QUIET, init).value;
            var was, heard := h.peers[c].heard, Step(h, e).value.peers[c].heard;
            && |heard| == |was| + 1 && heard[|was|].job < |h.jobs|
            && Explained(init + [e], c, heard[|was|], h.jobs[heard[|was|].job])
  {
    var h := Exec(Step, QUIET, init).value;
    HearStep(h, e, c);
    var u, events := TaskOf(h, e.g), init + [e];
    var v := Step(h, e).value.peers[c].heard[|h.peers[c].heard|];
    hide Step;
    hide Admits;
    hide Asked;
    hide Latest;
    Longer(init, e);
    SenderOf(init, e.g, u.job);
    PendingIsLatest(init, e.g);
    var j := h.jobs[u.job];
    if e.Check? {
      WantedIsAdmitted(init, c, u.job);
      assert TurnedAwayAt(events, |init|, c, v, j);
    } else {
      OfferingChecked(init, e.g);
      var n: nat :| Admitted(init, n, e.g, c, u.job, j);
      assert events[n] == init[n];
      PeerSteady(init, c);
      VerdictMeaning(h.peers[c].line, j.message);
      hide Steady;
      hide RoomFor;
      hide VerdictFor;
      assert OfferedAt(events, n, |init|, c, v, j);
    }
  }

  lemma SenderOf(events: seq<Event>, g: nat, k: nat)
    requires Exec(Step, QUIET, events).Some? && Pending(TaskOf(Exec(Step, QUIET, events).value, g)) == Some(k)
    ensures var jobs := Exec(Step, QUIET, events).value.jobs; k < |jobs| && jobs[k].sender == g
  {
    hide Step;
    Reachable(events);
    var h := Exec(Step, QUIET, events).value;
    WhileDropping(0, false, Idle);
    assert TaskOk(h, g, h.tasks[g]);
  }

  // ---- no silent gaps ----

  /** Message k, taken up at step b, was meant for c: it has been settled there, or its sender has
      it still to offer. */
  ghost predicate Reached(h: Net, c: nat, e: Event, k: nat) {
    && k < |h.jobs| && BegunBy(h.jobs[k], e) && c in h.jobs[k].to && c in h.peers
    && (Outstanding(h, c, k) || HasHeard(h.peers[c], k))
  }

  /** After any run, a connection that is open and that nobody is removing: every broadcast taken
      up while it was listed has reached it, or is still to be offered to it; of those that
      reached it, each was enqueued, or was turned away by the connection's own settings as they
      stood when the sender looked, after taking the message up; what was enqueued is exactly
      the former, each once, in the order of the offers, and one sender's in the order sent. */
  lemma NoSilentGaps(events: seq<Event>, c: nat)
    requires Exec(Step, QUIET, events).Some?
    requires var h := Exec(Step, QUIET, events).value;
             c in h.peers && !h.peers[c].line.closed && !Doomed(h, c)
    ensures var h := Exec(Step, QUIET, events).value;
            forall b: nat :: b < |events| && events[b].Broadcast? && ListedIn(events[..b], c) ==>
              Reached(h, c, events[b], Begins(events[..b]))
    ensures var h := Exec(Step, QUIET, events).value;
            var p := h.peers[c];
            forall i :: 0 <= i < |p.heard| ==>
              var v := p.heard[i];
              && v.job < |h.jobs| && v.verdict in {Taken, Unwanted}
              && (v.verdict == Taken ==>
                    exists n: nat :: Admitted(events, n, h.jobs[v.job].sender, c, v.job, h.jobs[v.job]))
              && (v.verdict == Unwanted ==> exists n: nat :: TurnedAwayAt(events, n, c, v, h.jobs[v.job]))
    ensures var h := Exec(Step, QUIET, events).value;
            h.peers[c].line.accepted == Delivered(h.jobs, h.peers[c].heard) && Ordered(h, c, h.peers[c])
  {
    hide Step;
    hide Admitted;
    hide TurnedAwayAt;
    hide Delivered;
    hide Ordered;
    Reachable(events);
    var h := Exec(Step, QUIET, events).value;
    OpenPeer(h, c);
    AllReached(events, c);
    HearingsExplained(events, c);
    var p := h.peers[c];
    forall i | 0 <= i < |p.heard| && p.heard[i].verdict == Taken
      ensures var k := p.heard[i].job;
              exists n: nat :: Admitted(events, n, h.jobs[k].sender, c, k, h.jobs[k])
    {
      var v, j := p.heard[i], h.jobs[p.heard[i].job];
      var n: nat, m: nat :| OfferedAt(events, n, m, c, v, j);
    }
  }

  lemma OpenPeer(h: Net, c: nat)
    requires Inv(h) && c in h.peers && !h.peers[c].line.closed && !Doomed(h, c)
    ensures var p := h.peers[c];
            && (forall i :: 0 <= i < |p.heard| ==> p.heard[i].job < |h.jobs| && p.heard[i].verdict in {Taken, Unwanted})
            && p.line.accepted == Delivered(h.jobs, p.heard) && Ordered(h, c, p) && Complete(h, c, p)
  {
    hide Steady;
    hide Delivered;
  }

  lemma AllReached(events: seq<Event>, c: nat)
    requires Exec(Step, QUIET, events).Some?
    requires var h := Exec(Step, QUIET, events).value; c in h.peers && Complete(h, c, h.peers[c])
    ensures var h := Exec(Step, QUIET, events).value;
            forall b: nat :: b < |events| && events[b].Broadcast? && ListedIn(events[..b], c) ==>
              Reached(h, c, events[b], Begins(events[..b]))
  {
    hide Step;
    hide Outstanding;
    hide HasHeard;
    hide ListedIn;
    hide BegunBy;
    JobsAsRun(events);
  }

  // ---- BLOBs ----

  /** A payload enters a queue only if, at a step after it was taken up, the setting in force for
      that connection and property asked for BLOBs. */
  lemma PayloadsOnlyOnRequest(events: seq<Event>, c: nat, i: nat)
    requires Exec(Step, QUIET, events).Some?
    requires var h := Exec(Step, QUIET, events).value;
             && c in h.peers && i < |h.peers[c].heard| && h.peers[c].heard[i].verdict == Taken
             && h.peers[c].heard[i].job < |h.jobs| && h.jobs[h.peers[c].heard[i].job].kind == Some(BlobSet)
             && NulFree(h.jobs[h.peers[c].heard[i].job].device)
    requires Plain(Asked(events, c))
    ensures var h := Exec(Step, QUIET, events).value;
            var k := h.peers[c].heard[i].job;
            var j := h.jobs[k];
            exists n: nat, a: nat :: CheckedAt(events, n, j.sender, c, k)
              && (DecidedBy(Asked(events[..n], c), a, j.device, j.name, Also)
                  || DecidedBy(Asked(events[..n], c), a, j.device, j.name, Only))
  {
    hide Step;
    hide Asked;
    hide Latest;
    hide DecidedBy;
    HearingsExplained(events, c);
    var h := Exec(Step, QUIET, events).value;
    var v := h.peers[c].heard[i];
    var j := h.jobs[v.job];
    var n: nat, m: nat :| OfferedAt(events, n, m, c, v, j);
    AskedPrefix(events, n, c);
    WantsExactlyWhen(Asked(events[..n], c), j.device, j.name);
    var a: nat :| DecidedBy(Asked(events[..n], c), a, j.device, j.name, Also)
               || DecidedBy(Asked(events[..n], c), a, j.device, j.name, Only);
    assert CheckedAt(events, n, j.sender, c, v.job);
  }

  lemma {:induction false} AskedPrefix(events: seq<Event>, n: nat, c: nat)
    requires n <= |events|
    ensures Asked(events[..n], c) <= Asked(events, c)
    ensures Plain(Asked(events, c)) ==> Plain(Asked(events[..n], c))
    ensures (forall b :: n <= b < |events| ==> !(events[b].Subscribe? && events[b].c == c)) ==>
              Asked(events[..n], c) == Asked(events, c)
  {
    if n == |events| {
      assert events[..n] == events;
    } else {
      var init := events[..|events| - 1];
      AskedPrefix(init, n, c);
      assert init[..n] == events[..n];
      assert forall b :: 0 <= b < |init| ==> init[b] == events[b];
    }
  }

  /** Between the look at the policy and the enqueueing the connection may change its mind, and the
      payload is enqueued all the same. It is then one the connection no longer wants exactly
      when one of the settings sent in between says Never and decides; with none in between it
      is still wanted. */
  lemma StaleExactlyWhen(events: seq<Event>, g: nat, c: nat)
    requires Exec(Step, QUIET, events).Some?
    requires var h := Exec(Step, QUIET, events).value;
             var u := TaskOf(h, g);
             && u.Offering? && u.c == c && u.job < |h.jobs|
             && h.jobs[u.job].kind == Some(BlobSet) && NulFree(h.jobs[u.job].device)
    requires Plain(Asked(events, c))
    ensures var h := Exec(Step, QUIET, events).value;
            var k := TaskOf(h, g).job;
            var j, now := h.jobs[k], Asked(events, c);
            exists n: nat :: CheckedAt(events, n, g, c, k)
              && Asked(events[..n], c) <= now
              && (!Wants(Settled(now), j.device, j.name, BlobSet) <==>
                    exists a: nat :: |Asked(events[..n], c)| <= a && DecidedBy(now, a, j.device, j.name, Never))
              && ((forall b :: n <= b < |events| ==> !(events[b].Subscribe? && events[b].c == c)) ==>
                    Wants(Settled(now), j.device, j.name, BlobSet))
  {
    hide Step;
    hide Asked;
    hide Latest;
    hide DecidedBy;
    hide Wants;
    hide Settled;
    OfferingChecked(events, g);
    var h := Exec(Step, QUIET, events).value;
    var u := TaskOf(h, g);
    var j, now := h.jobs[u.job], Asked(events, c);
    var n: nat :| Admitted(events, n, g, c, u.job, j);
    AskedPrefix(events, n, c);
    var early := Asked(events[..n], c);
    assert early == now[..|early|];
    WithdrawnExactlyWhen(now, |early|, j.device, j.name);
    assert CheckedAt(events, n, g, c, u.job);
  }

  lemma AlsoText()
    ensures Ascii("Also") == [65, 108, 115, 111] && Ascii("also") == [97, 108, 115, 111]
  {
    var s, t := "Also", "also";
    assert s[0] == 'A' && t[0] == 'a' && s[1] == t[1] == 'l' && s[2] == t[2] == 's' && s[3] == t[3] == 'o';
  }

  lemma NeverText()
    ensures Ascii("Never") == [78, 101, 118, 101, 114] && Ascii("never") == [110, 101, 118, 101, 114]
  {
    var s, t := "Never", "never";
    assert s[0] == 'N' && t[0] == 'n' && s[1] == t[1] == 'e' && s[2] == t[2] == 'v' && s[3] == t[3] == 'e'
           && s[4] == t[4] == 'r';
  }

  /** A text that begins and ends with a letter is not trimmed. */
  lemma Untrimmed(s: bytes)
    requires Solid(s)
    ensures TrimSpace(s) == s
  {
    TrimPadded(0, s, 0);
    assert Blanks(0) + s + Blanks(0) == s;
  }

  lemma ModesParse()
    ensures ParsePolicy(Ascii("Also")) == Some(Also) && ParsePolicy(Ascii("Never")) == Some(Never)
  {
    hide TrimSpace;
    hide Ascii;
    AlsoText();
    NeverText();
    Untrimmed(Ascii("Also"));
    Untrimmed(Ascii("Never"));
    assert ToLower(Ascii("Also")) == Ascii("also") && ToLower(Ascii("Never")) == Ascii("never");
    assert |Ascii("also")| != |Ascii("never")|;
  }

  lemma AskedOneMore(events: seq<Event>, e: Event, c: nat)
    ensures Asked(events + [e], c) == Asked(events, c) + if e.Subscribe? && e.c == c then [e.s] else []
  {
    Longer(events, e);
  }

  /** Such a run, for every property and payload: the connection asks for the property's BLOBs, the
      sender looks, the connection withdraws in that very scope, and the payload is enqueued. */
  lemma WithdrawnYetSent(d: bytes, n: bytes, body: bytes) returns (events: seq<Event>, h: Net)
    requires NulFree(d)
    ensures Exec(Step, QUIET, events) == Some(h) && |events| == 6 && events[5] == Put(7, 0)
    ensures 0 in h.peers && h.peers[0].line.accepted == [Framed(body)]
    ensures !Wants(Settled(Asked(events[..5], 0)), d, n, BlobSet)
  {
    hide Settled;
    hide ParsePolicy;
    hide Key;
    hide Asked;
    ModesParse();
    var also, never := Setting(d, n, Ascii("Also")), Setting(d, n, Ascii("Never"));
    events, h := OneMore(Step, QUIET, [], QUIET, Connect(0));
    AskedOneMore([], Connect(0), 0);
    var before := events;
    events, h := OneMore(Step, QUIET, events, h, Subscribe(0, also));
    AskedOneMore(before, Subscribe(0, also), 0);
    assert Wants(h.peers[0].policy, d, n, BlobSet);
    before := events;
    events, h := OneMore(Step, QUIET, events, h, Broadcast(7, body, d, n, BlobSet));
    AskedOneMore(before, Broadcast(7, body, d, n, BlobSet), 0);
    before := events;
    events, h := OneMore(Step, QUIET, events, h, Check(7, 0));
    AskedOneMore(before, Check(7, 0), 0);
    before := events;
    events, h := OneMore(Step, QUIET, events, h, Subscribe(0, never));
    AskedOneMore(before, Subscribe(0, never), 0);
    PolicyIsSettled(events, 0);
    before := events;
    events, h := OneMore(Step, QUIET, events, h, Put(7, 0));
    assert events[..5] == before;
  }
}
