/** One client that never reads: nothing any other connection sees depends on it. */
module Stalled {
  import opened ByteText
  import opened BlobPolicy
  import opened Outbound
  import opened Runs
  import opened Hub

  /** What a goroutine is in the middle of, leaving out what it does about connection d. */
  function Bare(t: Task, d: nat): Task {
    match t
    case Idle => Idle
    case Sending(k, left) => Sending(k, left - {d})
    case Offering(k, c, left) => if c == d then Sending(k, left - {d}) else Offering(k, c, left - {d})
    case Dropping(c, unlisted, back) => if c == d then Bare(back, d) else Dropping(c, unlisted, Bare(back, d))
  }

  /** The messages are the same but for whether they are meant for d. */
  ghost predicate SameJobs(h: Net, t: Net, d: nat) {
    && |h.jobs| == |t.jobs|
    && forall k :: 0 <= k < |h.jobs| ==>
         h.jobs[k].to - {d} == t.jobs[k].to - {d} && t.jobs[k] == h.jobs[k].(to := t.jobs[k].to)
  }

  ghost predicate SamePeers(h: Net, t: Net, d: nat) {
    && h.peers.Keys == t.peers.Keys && h.listed - {d} == t.listed - {d}
    && forall c :: c in h.peers && c != d ==> c in t.peers && t.peers[c] == h.peers[c]
  }

  /** Every connection but d is the same in both, and so is all that is going on about them; in t
      nobody is in the middle of anything about d. */
  ghost predicate Alike(h: Net, t: Net, d: nat) {
    && SamePeers(h, t, d) && SameJobs(h, t, d)
    && forall g: nat :: TaskOf(t, g) == Bare(TaskOf(h, g), d)
  }

  /** A step about connection d that brings no message with it. */
  predicate About(e: Event, d: nat) {
    match e
    case Advanced(c, _) => c == d
    case HangUp(_, c) => c == d
    case Check(_, c) => c == d
    case Put(_, c) => c == d
    case Unlist(_, c) => c == d
    case Close(_, c) => c == d
    case _ => false
  }

  lemma BareFacts(k: nat, c: nat, left: set<nat>, unlisted: bool, back: Task, d: nat)
    ensures Bare(Idle, d) == Idle
    ensures Bare(Sending(k, left), d) == Sending(k, left - {d})
    ensures Bare(Offering(k, c, left), d) == if c == d then Sending(k, left - {d}) else Offering(k, c, left - {d})
    ensures Bare(Dropping(c, unlisted, back), d)
            == if c == d then Bare(back, d) else Dropping(c, unlisted, Bare(back, d))
  {
  }

  /** A step about d changes nothing about the others. */
  lemma AboutOnly(h: Net, e: Event, t: Net, d: nat)
    requires Alike(h, t, d) && About(e, d) && Step(h, e).Some?
    ensures Alike(Step(h, e).value, t, d)
  {
    hide Wanted;
    hide Enqueued;
    hide ShutDown;
    hide Advance;
    hide Bare;
    var next := Step(h, e).value;
    assert next.peers.Keys == h.peers.Keys;
    if !e.Advanced? {
      var u := TaskOf(h, e.g);
      BareMoves(h, e, d);
      forall g: nat
        ensures TaskOf(t, g) == Bare(TaskOf(next, g), d)
      {
      }
    }
  }

  lemma BareMoves(h: Net, e: Event, d: nat)
    requires About(e, d) && Step(h, e).Some? && !e.Advanced?
    ensures Bare(TaskOf(Step(h, e).value, e.g), d) == Bare(TaskOf(h, e.g), d)
  {
    hide Wanted;
    hide Enqueued;
    hide ShutDown;
    var u := TaskOf(h, e.g);
    if e.Check? {
      BareFacts(u.job, d, u.left - {d}, false, Idle, d);
      assert u.left - {d} - {d} == u.left - {d};
    } else if e.Put? {
      BareFacts(u.job, d, u.left, false, Sending(u.job, u.left), d);
    } else if e.HangUp? {
      BareFacts(0, d, {}, false, Idle, d);
    } else {
      BareFacts(0, d, {}, true, u.back, d);
    }
  }

  /** A step about some other connection can be taken in t as well. */
  lemma SameStep(h: Net, e: Event, t: Net, d: nat)
    requires Alike(h, t, d) && !About(e, d) && !IsBegin(e) && Step(h, e).Some?
    ensures Step(t, e).Some? && Alike(Step(h, e).value, Step(t, e).value, d)
  {
    if IsMove(e) || e.HangUp? {
      SameMove(h, e, t, d);
    } else {
      SameLocal(h, e, t, d);
    }
  }

  lemma SameLocal(h: Net, e: Event, t: Net, d: nat)
    requires Alike(h, t, d) && !About(e, d) && (e.Connect? || e.Subscribe? || e.Advanced?) && Step(h, e).Some?
    ensures Step(t, e).Some? && Alike(Step(h, e).value, Step(t, e).value, d)
  {
    hide Settle;
    hide Advance;
    hide Bare;
    LocalPeers(h, e, t, d);
    var h', t' := Step(h, e).value, Step(t, e).value;
    forall g: nat
      ensures TaskOf(t', g) == Bare(TaskOf(h', g), d)
    {
      assert TaskOf(h', g) == TaskOf(h, g) && TaskOf(t', g) == TaskOf(t, g);
    }
  }

  lemma LocalPeers(h: Net, e: Event, t: Net, d: nat)
    requires SamePeers(h, t, d) && !About(e, d) && (e.Connect? || e.Subscribe? || e.Advanced?) && Step(h, e).Some?
    ensures Step(t, e).Some? && SamePeers(Step(h, e).value, Step(t, e).value, d)
  {
    hide Settle;
    hide Advance;
    var h', t' := Step(h, e).value, Step(t, e).value;
    assert h'.peers.Keys == h.peers.Keys + {e.c} && t'.peers.Keys == t.peers.Keys + {e.c};
    if e.Connect? {
      assert h.listed + {e.c} - {d} == h.listed - {d} + ({e.c} - {d});
      assert t.listed + {e.c} - {d} == t.listed - {d} + ({e.c} - {d});
    }
  }

  lemma SameMove(h: Net, e: Event, t: Net, d: nat)
    requires Alike(h, t, d) && !About(e, d) && (IsMove(e) || e.HangUp?) && Step(h, e).Some?
    ensures Step(t, e).Some? && Alike(Step(h, e).value, Step(t, e).value, d)
  {
    hide Wants;
    hide Queued;
    hide VerdictFor;
    hide ShutDown;
    var u, v := TaskOf(h, e.g), TaskOf(t, e.g);
    assert v == Bare(u, d);
    MoveTasks(h, e, t, d);
    var h', t' := Step(h, e).value, Step(t, e).value;
    hide Bare;
    forall g: nat
      ensures TaskOf(t', g) == Bare(TaskOf(h', g), d)
    {
      if g != e.g { assert TaskOf(h', g) == TaskOf(h, g) && TaskOf(t', g) == TaskOf(t, g); }
    }
    MovePeers(h, e, t, d);
  }

  lemma MoveTasks(h: Net, e: Event, t: Net, d: nat)
    requires Alike(h, t, d) && !About(e, d) && (IsMove(e) || e.HangUp?) && Step(h, e).Some?
    ensures Step(t, e).Some?
    ensures TaskOf(Step(t, e).value, e.g) == Bare(TaskOf(Step(h, e).value, e.g), d)
  {
    hide Wants;
    hide Queued;
    hide VerdictFor;
    hide ShutDown;
    var u := TaskOf(h, e.g);
    if e.Check? {
      BareFacts(u.job, e.c, u.left, false, Idle, d);
      BareFacts(u.job, e.c, u.left - {e.c}, false, Idle, d);
      assert u.left - {e.c} - {d} == u.left - {d} - {e.c};
    } else if e.Put? {
      BareFacts(u.job, e.c, u.left, false, Sending(u.job, u.left), d);
    } else if e.HangUp? {
      BareFacts(0, e.c, {}, false, Idle, d);
    } else if e.Unlist? || e.Close? {
      BareFacts(0, e.c, {}, true, u.back, d);
      BareFacts(0, e.c, {}, false, u.back, d);
    }
  }

  lemma MovePeers(h: Net, e: Event, t: Net, d: nat)
    requires Alike(h, t, d) && !About(e, d) && (IsMove(e) || e.HangUp?) && Step(h, e).Some? && Step(t, e).Some?
    ensures SamePeers(Step(h, e).value, Step(t, e).value, d) && SameJobs(Step(h, e).value, Step(t, e).value, d)
  {
    hide Wants;
    hide Queued;
    hide VerdictFor;
    hide ShutDown;
    assert TaskOf(t, e.g) == Bare(TaskOf(h, e.g), d);
    if e.Check? || e.Put? {
      OfferPeers(h, e, t, d);
    } else {
      hide Bare;
      var h', t' := Step(h, e).value, Step(t, e).value;
      assert h'.peers.Keys == h.peers.Keys && t'.peers.Keys == t.peers.Keys;
      if e.Unlist? {
        assert h.listed - {e.c} - {d} == h.listed - {d} - {e.c};
        assert t.listed - {e.c} - {d} == t.listed - {d} - {e.c};
      }
    }
  }

  lemma OfferPeers(h: Net, e: Event, t: Net, d: nat)
    requires (e.Check? || e.Put?) && e.c != d && Step(h, e).Some? && Step(t, e).Some?
    requires SamePeers(h, t, d) && SameJobs(h, t, d) && TaskOf(t, e.g) == Bare(TaskOf(h, e.g), d)
    ensures SamePeers(Step(h, e).value, Step(t, e).value, d) && SameJobs(Step(h, e).value, Step(t, e).value, d)
  {
    hide Wants;
    hide Queued;
    hide VerdictFor;
    var u := TaskOf(h, e.g);
    BareFacts(u.job, e.c, u.left, false, Idle, d);
    hide Bare;
    var h', t' := Step(h, e).value, Step(t, e).value;
    assert h'.peers.Keys == h.peers.Keys && t'.peers.Keys == t.peers.Keys;
  }

  // ---- a message taken up ----

  lemma SameBegin(h: Net, e: Event, t: Net, d: nat)
    requires Alike(h, t, d) && IsBegin(e) && Step(h, e).Some?
    ensures Step(t, e).Some?
    ensures var h', t' := Step(h, e).value, Step(t, e).value;
            && SamePeers(h', t', d) && SameJobs(h', t', d)
            && TaskOf(t', e.g).Sending? && Bare(TaskOf(t', e.g), d) == Bare(TaskOf(h', e.g), d)
            && forall g: nat :: g != e.g ==> TaskOf(t', g) == Bare(TaskOf(h', g), d)
  {
    BareFacts(0, 0, {}, false, Idle, d);
    assert TaskOf(t, e.g) == Bare(TaskOf(h, e.g), d);
    var h', t' := Step(h, e).value, Step(t, e).value;
    hide Bare;
    BareFacts(|h.jobs|, 0, h'.jobs[|h.jobs|].to, false, Idle, d);
    BareFacts(|h.jobs|, 0, t'.jobs[|h.jobs|].to, false, Idle, d);
    forall g: nat | g != e.g
      ensures TaskOf(t', g) == Bare(TaskOf(h', g), d)
    {
      assert TaskOf(t', g) == TaskOf(t, g) && TaskOf(h', g) == TaskOf(h, g);
    }
  }

  ghost predicate NeverReads(events: seq<Event>, d: nat) {
    forall e :: e in events ==> !(e.Advanced? && e.c == d)
  }

  lemma Another(events: seq<Event>, h: Net, e: Event, d: nat) returns (more: seq<Event>, t: Net)
    requires Exec(Step, QUIET, events) == Some(h) && Step(h, e).Some?
    requires NeverReads(events, d) && !(e.Advanced? && e.c == d)
    ensures Exec(Step, QUIET, more) == Some(t) && Step(h, e) == Some(t) && NeverReads(more, d)
  {
    hide Step;
    more, t := OneMore(Step, QUIET, events, h, e);
  }

  /** Only things about d and about what g does have changed, and g is through with d. */
  ghost predicate Served(t: Net, t': Net, g: nat, d: nat) {
    && SamePeers(t, t', d) && t'.jobs == t.jobs
    && (forall f: nat :: f != g ==> TaskOf(t', f) == TaskOf(t, f))
    && TaskOf(t, g).Sending? && TaskOf(t', g) == Bare(TaskOf(t, g), d)
  }

  /** A goroutine deals with d, removing it if its queue turns out to be full. */
  lemma Serve(events: seq<Event>, t: Net, g: nat, d: nat) returns (more: seq<Event>, t': Net)
    requires Exec(Step, QUIET, events) == Some(t) && NeverReads(events, d)
    requires TaskOf(t, g).Sending? && d in TaskOf(t, g).left
    ensures Exec(Step, QUIET, more) == Some(t') && NeverReads(more, d) && Served(t, t', g, d)
  {
    hide Step;
    hide Exec;
    hide Serving;
    hide Served;
    hide Inv;
    hide NeverReads;
    Reachable(events);
    var u := TaskOf(t, g);
    CheckD(t, g, d);
    more, t' := Another(events, t, Check(g, d), d);
    if TaskOf(t', g).Offering? {
      PutD(t, t', g, d);
      more, t' := Another(more, t', Put(g, d), d);
      if TaskOf(t', g).Dropping? {
        DropD(t, t', g, d);
        more, t' := Another(more, t', Unlist(g, d), d);
        more, t' := Another(more, t', Close(g, d), d);
      }
    }
    IsServed(t, t', g, d);
  }

  lemma IsServed(t: Net, t': Net, g: nat, d: nat)
    requires Serving(t, t', g, d) && TaskOf(t, g).Sending?
    requires TaskOf(t', g) == Sending(TaskOf(t, g).job, TaskOf(t, g).left - {d})
    ensures Served(t, t', g, d)
  {
    BareFacts(TaskOf(t, g).job, 0, TaskOf(t, g).left, false, Idle, d);
  }

  /** The same, up to what g is doing. */
  ghost predicate Serving(t: Net, t': Net, g: nat, d: nat) {
    && SamePeers(t, t', d) && t'.jobs == t.jobs && d in t'.peers
    && (forall f: nat :: f != g ==> TaskOf(t', f) == TaskOf(t, f))
  }

  lemma CheckD(t: Net, g: nat, d: nat)
    requires Inv(t) && TaskOf(t, g).Sending? && d in TaskOf(t, g).left
    ensures var u, next := TaskOf(t, g), Step(t, Check(g, d));
            && next.Some? && Serving(t, next.value, g, d) && u.job < |t.jobs|
            && (TaskOf(next.value, g) == Sending(u.job, u.left - {d})
                || TaskOf(next.value, g) == Offering(u.job, d, u.left - {d}))
  {
    hide Wanted;
    hide Settle;
    hide PeerOk;
    assert TaskOk(t, g, t.tasks[g]);
    var next := Step(t, Check(g, d)).value;
    assert next.peers.Keys == t.peers.Keys;
  }

  lemma PutD(t: Net, t1: Net, g: nat, d: nat)
    requires Serving(t, t1, g, d) && TaskOf(t1, g).Offering? && TaskOf(t1, g).c == d && TaskOf(t1, g).job < |t.jobs|
    ensures var u, next := TaskOf(t1, g), Step(t1, Put(g, d));
            && next.Some? && Serving(t, next.value, g, d)
            && (TaskOf(next.value, g) == Sending(u.job, u.left)
                || TaskOf(next.value, g) == Dropping(d, false, Sending(u.job, u.left)))
  {
    hide Queued;
    hide VerdictFor;
    var next := Step(t1, Put(g, d)).value;
    assert next.peers.Keys == t1.peers.Keys;
  }

  lemma DropD(t: Net, t1: Net, g: nat, d: nat)
    requires Serving(t, t1, g, d) && TaskOf(t1, g).Dropping? && TaskOf(t1, g).c == d && !TaskOf(t1, g).unlisted
    ensures Step(t1, Unlist(g, d)).Some?
    ensures var next := Step(Step(t1, Unlist(g, d)).value, Close(g, d));
            next.Some? && Serving(t, next.value, g, d) && TaskOf(next.value, g) == TaskOf(t1, g).back
  {
    hide ShutDown;
    var a := Step(t1, Unlist(g, d)).value;
    var next := Step(a, Close(g, d)).value;
    assert next.peers.Keys == t1.peers.Keys;
    assert a.listed - {d} == t1.listed - {d};
  }

  /** For every run there is one in which client d takes nothing off its queue, ever, so that it is
      dropped once that is full, and in which every other connection ends up the same: the same
      queue, the same bytes on the wire, the same policy, the same messages heard. */
  lemma {:induction false} StalledClientChangesNothing(events: seq<Event>, d: nat) returns (calm: seq<Event>, t: Net)
    requires Exec(Step, QUIET, events).Some?
    ensures Exec(Step, QUIET, calm) == Some(t) && NeverReads(calm, d)
    ensures Alike(Exec(Step, QUIET, events).value, t, d)
  {
    hide Step;
    hide Alike;
    if events == [] {
      calm, t := [], QUIET;
      AlikeAtStart(d);
    } else {
      var init, e := events[..|events| - 1], events[|events| - 1];
      var h := Exec(Step, QUIET, init).value;
      calm, t := StalledClientChangesNothing(init, d);
      if About(e, d) {
        AboutOnly(h, e, t, d);
      } else if !IsBegin(e) {
        SameStep(h, e, t, d);
        calm, t := Another(calm, t, e, d);
      } else {
        SameBegin(h, e, t, d);
        calm, t := Another(calm, t, e, d);
        var begun := t;
        if d in TaskOf(t, e.g).left {
          calm, t := Serve(calm, t, e.g, d);
          AfterServing(Step(h, e).value, begun, t, e.g, d);
        } else {
          AfterBegin(Step(h, e).value, t, e.g, d);
        }
      }
    }
  }

  lemma AlikeAtStart(d: nat)
    ensures Alike(QUIET, QUIET, d)
  {
    BareFacts(0, 0, {}, false, Idle, d);
  }

  lemma AfterServing(h: Net, t: Net, t': Net, g: nat, d: nat)
    requires SamePeers(h, t, d) && SameJobs(h, t, d) && Served(t, t', g, d)
    requires Bare(TaskOf(t, g), d) == Bare(TaskOf(h, g), d)
    requires forall f: nat :: f != g ==> TaskOf(t, f) == Bare(TaskOf(h, f), d)
    ensures Alike(h, t', d)
  {
    hide Bare;
    forall f: nat
      ensures TaskOf(t', f) == Bare(TaskOf(h, f), d)
    {
      if f != g { assert TaskOf(t', f) == TaskOf(t, f); }
    }
  }

  lemma AfterBegin(h: Net, t: Net, g: nat, d: nat)
    requires SamePeers(h, t, d) && SameJobs(h, t, d) && TaskOf(t, g).Sending? && d !in TaskOf(t, g).left
    requires Bare(TaskOf(t, g), d) == Bare(TaskOf(h, g), d)
    requires forall f: nat :: f != g ==> TaskOf(t, f) == Bare(TaskOf(h, f), d)
    ensures Alike(h, t, d)
  {
    var u := TaskOf(t, g);
    BareFacts(u.job, 0, u.left, false, Idle, d);
    assert u.left - {d} == u.left;
    hide Bare;
    forall f: nat
      ensures TaskOf(t, f) == Bare(TaskOf(h, f), d)
    {
      if f != g { assert TaskOf(t, f) == Bare(TaskOf(h, f), d); }
    }
  }
}
