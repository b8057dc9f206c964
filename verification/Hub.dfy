/** Goroutines broadcasting to many connections while others subscribe, hang up and write. */
module Hub {
  import opened ByteText
  import opened BlobPolicy
  import opened Outbound
  import opened Runs

  /** What became of a message offered to a connection. */
  datatype Verdict = Taken | Refused | Unwanted | Gone

  datatype Hearing = Hearing(job: nat, verdict: Verdict)

  /** A message and the connections it was meant for: those listed when the broadcast began, or
      the one addressed. Without a kind it is sent whatever the policy. */
  datatype Job = Job(sender: nat, message: bytes, device: bytes, name: bytes, kind: Option<Kind>, to: set<nat>)

  datatype Peer = Peer(line: Line, policy: map<bytes, Policy>, heard: seq<Hearing>)

  /** What a goroutine is in the middle of: going through the rest of its connections; having found
      that one of them wants the message, about to enqueue it; or removing a connection and then
      going back to what it did. */
  datatype Task =
    | Idle
    | Sending(job: nat, left: set<nat>)
    | Offering(job: nat, c: nat, left: set<nat>)
    | Dropping(c: nat, unlisted: bool, back: Task)

  datatype Net = Net(peers: map<nat, Peer>, listed: set<nat>, tasks: map<nat, Task>, jobs: seq<Job>)

  const QUIET := Net(map[], {}, map[], [])

  datatype Event =
    | Connect(c: nat)
    | Subscribe(c: nat, s: Setting)
    | Advanced(c: nat, w: WriterStep)
    | Broadcast(g: nat, body: bytes, device: bytes, name: bytes, kind: Kind)
    | Address(g: nat, to: nat, body: bytes, device: bytes, name: bytes, only: Option<Kind>)
    | HangUp(g: nat, c: nat)
    | Check(g: nat, c: nat)
    | Put(g: nat, c: nat)
    | Unlist(g: nat, c: nat)
    | Close(g: nat, c: nat)
    | Finish(g: nat)

  function TaskOf(h: Net, g: nat): Task {
    if g in h.tasks then h.tasks[g] else Idle
  }

  function Wanted(p: Peer, j: Job): bool {
    j.kind.None? || Wants(p.policy, j.device, j.name, j.kind.value)
  }

  function VerdictFor(l: Line, message: bytes): Verdict {
    if l.closed then Gone else if Overfull(l, message) then Refused else Taken
  }

  function Heard(p: Peer, k: nat, v: Verdict): Peer {
    p.(heard := p.heard + [Hearing(k, v)])
  }

  function Enqueued(p: Peer, k: nat, message: bytes): Peer {
    Heard(p, k, VerdictFor(p.line, message)).(line := Queued(p.line, message))
  }

  function Begun(h: Net, g: nat, j: Job): Net {
    h.(tasks := h.tasks[g := Sending(|h.jobs|, j.to)], jobs := h.jobs + [j])
  }

  function Step(h: Net, e: Event): Option<Net> {
    match e
    case Connect(c) =>
      if c in h.peers then None
      else Some(h.(peers := h.peers[c := Peer(NEW_LINE, map[], [])], listed := h.listed + {c}))
    case Subscribe(c, s) =>
      if c !in h.peers then None
      else Some(h.(peers := h.peers[c := h.peers[c].(policy := Settle(h.peers[c].policy, s))]))
    case Advanced(c, w) =>
      if c !in h.peers || Advance(h.peers[c].line, w).None? then None
      else Some(h.(peers := h.peers[c := h.peers[c].(line := Advance(h.peers[c].line, w).value)]))
    case Broadcast(g, body, d, n, kind) =>
      if TaskOf(h, g) != Idle then None
      else Some(Begun(h, g, Job(g, Framed(body), d, n, Some(kind), h.listed)))
    case Address(g, to, body, d, n, only) =>
      if TaskOf(h, g) != Idle || to !in h.peers then None
      else Some(Begun(h, g, Job(g, Framed(body), d, n, only, {to})))
    case HangUp(g, c) =>
      if TaskOf(h, g) != Idle || c !in h.peers then None
      else Some(h.(tasks := h.tasks[g := Dropping(c, false, Idle)]))
    case _ => Act(h, e, TaskOf(h, e.g))
  }

  /** The events by which a goroutine takes up a message. */
  predicate IsBegin(e: Event) {
    e.Broadcast? || e.Address?
  }

  /** The events that are a move of a goroutine in the middle of something. */
  predicate IsMove(e: Event) {
    e.Check? || e.Put? || e.Unlist? || e.Close? || e.Finish?
  }

  /** The check of the policy and the enqueueing are separate critical sections. */
  function Act(h: Net, e: Event, t: Task): Option<Net>
    requires IsMove(e)
  {
    match e
    case Check(g, c) =>
      if !t.Sending? || c !in t.left || t.job >= |h.jobs| || c !in h.peers then None
      else if Wanted(h.peers[c], h.jobs[t.job]) then
        Some(h.(tasks := h.tasks[g := Offering(t.job, c, t.left - {c})]))
      else
        Some(h.(peers := h.peers[c := Heard(h.peers[c], t.job, Unwanted)],
                tasks := h.tasks[g := Sending(t.job, t.left - {c})]))
    case Put(g, c) =>
      if !t.Offering? || t.c != c || t.job >= |h.jobs| || c !in h.peers then None
      else
        var rest := Sending(t.job, t.left);
        var full := VerdictFor(h.peers[c].line, h.jobs[t.job].message) == Refused;
        Some(h.(peers := h.peers[c := Enqueued(h.peers[c], t.job, h.jobs[t.job].message)],
                tasks := h.tasks[g := if full then Dropping(c, false, rest) else rest]))
    case Unlist(g, c) =>
      if !t.Dropping? || t.c != c || t.unlisted then None
      else Some(h.(listed := h.listed - {c}, tasks := h.tasks[g := Dropping(c, true, t.back)]))
    case Close(g, c) =>
      if !t.Dropping? || t.c != c || !t.unlisted || c !in h.peers then None
      else Some(h.(peers := h.peers[c := h.peers[c].(line := ShutDown(h.peers[c].line))],
                   tasks := h.tasks[g := t.back]))
    case Finish(g) =>
      if !t.Sending? || t.left != {} then None
      else Some(h.(tasks := h.tasks[g := Idle]))
  }

  // ---- what every run keeps ----

  /** The message a goroutine is busy with, and to whom it has still to be offered. */
  function Pending(t: Task): (job: Option<nat>) {
    match t
    case Idle => None
    case Sending(k, _) => Some(k)
    case Offering(k, _, _) => Some(k)
    case Dropping(_, _, back) => Pending(back)
  }

  function Left(t: Task): set<nat> {
    match t
    case Idle => {}
    case Sending(_, left) => left
    case Offering(_, c, left) => left + {c}
    case Dropping(_, _, back) => Left(back)
  }

  ghost predicate TaskOk(h: Net, g: nat, t: Task) {
    && Left(t) <= h.peers.Keys
    && (Pending(t).Some? ==>
          && Pending(t).value < |h.jobs|
          && h.jobs[Pending(t).value].sender == g
          && Left(t) <= h.jobs[Pending(t).value].to)
    && (t.Offering? ==> t.c !in t.left)
    && (t.Dropping? ==> t.c in h.peers && !t.back.Dropping? && !t.back.Offering?)
  }

  ghost predicate Framework(h: Net) {
    && h.listed <= h.peers.Keys
    && (forall g :: g in h.tasks ==> TaskOk(h, g, h.tasks[g]))
    && (forall k :: 0 <= k < |h.jobs| ==> h.jobs[k].to <= h.peers.Keys && h.jobs[k].message != [])
  }

  /** The messages behind the hearings that ended in the queue. */
  function Delivered(jobs: seq<Job>, heard: seq<Hearing>): seq<bytes>
    requires forall i :: 0 <= i < |heard| ==> heard[i].job < |jobs|
  {
    if heard == [] then []
    else
      var init, last := heard[..|heard| - 1], heard[|heard| - 1];
      assert forall i :: 0 <= i < |init| ==> init[i] == heard[i];
      Delivered(jobs, init) + if last.verdict == Taken then [jobs[last.job].message] else []
  }

  ghost predicate DroppedBy(h: Net, c: nat, g: nat) {
    TaskOf(h, g).Dropping? && TaskOf(h, g).c == c
  }

  /** Some goroutine has found the queue full, or seen the connection end, and is removing it. */
  ghost predicate Doomed(h: Net, c: nat) {
    exists g: nat :: DroppedBy(h, c, g)
  }

  ghost predicate HasHeard(p: Peer, k: nat) {
    exists i :: 0 <= i < |p.heard| && p.heard[i].job == k
  }

  ghost predicate Outstanding(h: Net, c: nat, k: nat) {
    k < |h.jobs| && Pending(TaskOf(h, h.jobs[k].sender)) == Some(k) && c in Left(TaskOf(h, h.jobs[k].sender))
  }

  /** Every hearing is of a message meant for this connection; those of one sender are in the
      order in which it sent them, and all older than one it has still to offer. */
  ghost predicate Ordered(h: Net, c: nat, p: Peer) {
    && (forall i :: 0 <= i < |p.heard| ==> p.heard[i].job < |h.jobs| && c in h.jobs[p.heard[i].job].to)
    && (forall i, j :: 0 <= i < j < |p.heard| && h.jobs[p.heard[i].job].sender == h.jobs[p.heard[j].job].sender ==>
          p.heard[i].job < p.heard[j].job)
    && (forall i, k: nat :: 0 <= i < |p.heard| && k < |h.jobs| && Outstanding(h, c, k)
                            && h.jobs[p.heard[i].job].sender == h.jobs[k].sender ==>
          p.heard[i].job < k)
  }

  ghost predicate Complete(h: Net, c: nat, p: Peer) {
    forall k: nat :: k < |h.jobs| && c in h.jobs[k].to ==> Outstanding(h, c, k) || HasHeard(p, k)
  }

  ghost predicate Honest(h: Net, c: nat, p: Peer) {
    forall i :: 0 <= i < |p.heard| ==>
      && (p.heard[i].verdict == Gone ==> p.line.closed)
      && (p.heard[i].verdict == Refused ==> p.line.closed || Doomed(h, c))
  }

  ghost predicate PeerOk(h: Net, c: nat, p: Peer) {
    && Steady(p.line)
    && Ordered(h, c, p)
    && Complete(h, c, p)
    && Honest(h, c, p)
    && p.line.accepted == Delivered(h.jobs, p.heard)
  }

  ghost predicate Inv(h: Net) {
    Framework(h) && forall c :: c in h.peers ==> PeerOk(h, c, h.peers[c])
  }

  /** A step that leaves what this connection has heard, and has still to hear, as it was. */
  lemma PeerKept(h: Net, t: Net, c: nat, p: Peer, q: Peer)
    requires PeerOk(h, c, p) && t.jobs == h.jobs && q.heard == p.heard
    requires forall k: nat :: Outstanding(t, c, k) <==> Outstanding(h, c, k)
    requires Steady(q.line) && q.line.accepted == p.line.accepted
    requires p.line.closed ==> q.line.closed
    requires Doomed(h, c) ==> Doomed(t, c) || q.line.closed
    ensures PeerOk(t, c, q)
  {
    hide Steady;
    hide Delivered;
    hide Outstanding;
    hide Doomed;
    forall k: nat | k < |t.jobs| && c in t.jobs[k].to
      ensures Outstanding(t, c, k) || HasHeard(q, k)
    {
      assert Outstanding(h, c, k) || HasHeard(p, k);
    }
  }

  /** Steps that touch one connection's policy or queue and no goroutine's task. */
  lemma FrameworkLocal(h: Net, e: Event)
    requires Framework(h) && Step(h, e).Some? && (e.Connect? || e.Subscribe? || e.Advanced?)
    ensures var t := Step(h, e).value;
            Framework(t) && t.jobs == h.jobs && t.tasks == h.tasks && t.peers.Keys == h.peers.Keys + {e.c}
  {
    hide Settle;
    hide Advance;
    var t := Step(h, e).value;
    assert t.peers.Keys == h.peers.Keys + {e.c};
    forall g | g in t.tasks
      ensures TaskOk(t, g, t.tasks[g])
    {
      assert TaskOk(h, g, h.tasks[g]);
    }
  }

  lemma LocalPeer(h: Net, t: Net, c: nat, p: Peer, q: Peer)
    requires PeerOk(h, c, p) && t.jobs == h.jobs && t.tasks == h.tasks && q.heard == p.heard
    requires Steady(q.line) && q.line.accepted == p.line.accepted && q.line.closed == p.line.closed
    ensures PeerOk(t, c, q)
  {
    hide Steady;
    hide Delivered;
    hide PeerOk;
    assert forall k: nat :: Outstanding(t, c, k) <==> Outstanding(h, c, k);
    if g: nat :| DroppedBy(h, c, g) {
      assert DroppedBy(t, c, g);
    }
    PeerKept(h, t, c, p, q);
  }

  lemma LocalKeeps(h: Net, e: Event)
    requires Inv(h) && Step(h, e).Some? && (e.Connect? || e.Subscribe? || e.Advanced?)
    ensures Inv(Step(h, e).value)
  {
    hide Settle;
    hide Advance;
    hide PeerOk;
    hide Framework;
    var t := Step(h, e).value;
    FrameworkLocal(h, e);
    forall c | c in t.peers
      ensures PeerOk(t, c, t.peers[c])
    {
      if c !in h.peers {
        Newcomer(h, t, c);
      } else {
        PeerIsSteady(h, c, h.peers[c]);
        if e.Advanced? && c == e.c {
          AdvanceKeeps(h.peers[c].line, e.w);
        }
        LocalPeer(h, t, c, h.peers[c], t.peers[c]);
      }
    }
  }

  lemma PeerIsSteady(h: Net, c: nat, p: Peer)
    requires PeerOk(h, c, p)
    ensures Steady(p.line)
  {
  }

  /** Nothing begun before a connection was listed was meant for it. */
  lemma Newcomer(h: Net, t: Net, c: nat)
    requires Framework(h) && c !in h.peers && t.jobs == h.jobs
    ensures PeerOk(t, c, Peer(NEW_LINE, map[], []))
  {
    NewLineSteady();
    DeliveredNone(t.jobs);
    assert forall k: nat :: k < |h.jobs| ==> c !in h.jobs[k].to;
  }

  lemma NewLineSteady()
    ensures Steady(NEW_LINE)
  {
  }

  lemma DeliveredNone(jobs: seq<Job>)
    ensures Delivered(jobs, []) == []
  {
  }

  lemma {:induction false} DeliveredFrame(jobs: seq<Job>, j: Job, heard: seq<Hearing>)
    requires forall i :: 0 <= i < |heard| ==> heard[i].job < |jobs|
    ensures Delivered(jobs + [j], heard) == Delivered(jobs, heard)
  {
    if heard != [] {
      var init := heard[..|heard| - 1];
      assert forall i :: 0 <= i < |init| ==> init[i] == heard[i];
      DeliveredFrame(jobs, j, init);
    }
  }

  lemma {:induction false} DeliveredNext(jobs: seq<Job>, heard: seq<Hearing>, v: Hearing)
    requires (forall i :: 0 <= i < |heard| ==> heard[i].job < |jobs|) && v.job < |jobs|
    ensures Delivered(jobs, heard + [v])
            == Delivered(jobs, heard) + if v.verdict == Taken then [jobs[v.job].message] else []
  {
    assert (heard + [v])[..|heard|] == heard;
  }

  /** A goroutine with nothing pending takes up a new message. */
  lemma BegunKeeps(h: Net, g: nat, j: Job)
    requires Inv(h) && TaskOf(h, g) == Idle && j.sender == g && j.to <= h.peers.Keys && j.message != []
    ensures Inv(Begun(h, g, j))
  {
    var t := Begun(h, g, j);
    FrameworkBegun(h, g, j);
    forall c | c in t.peers
      ensures PeerOk(t, c, t.peers[c])
    {
      BegunPeer(h, g, j, c);
    }
  }

  lemma FrameworkBegun(h: Net, g: nat, j: Job)
    requires Framework(h) && TaskOf(h, g) == Idle && j.sender == g && j.to <= h.peers.Keys && j.message != []
    ensures Framework(Begun(h, g, j))
  {
    var t := Begun(h, g, j);
    assert forall k :: 0 <= k < |h.jobs| ==> t.jobs[k] == h.jobs[k];
    forall f | f in t.tasks
      ensures TaskOk(t, f, t.tasks[f])
    {
      if f != g {
        assert TaskOk(h, f, h.tasks[f]);
      }
    }
  }

  lemma BegunPeer(h: Net, g: nat, j: Job, c: nat)
    requires Inv(h) && TaskOf(h, g) == Idle && j.sender == g && j.to <= h.peers.Keys && c in h.peers
    ensures PeerOk(Begun(h, g, j), c, h.peers[c])
  {
    hide Steady;
    hide Delivered;
    var t, p := Begun(h, g, j), h.peers[c];
    DeliveredFrame(h.jobs, j, p.heard);
    assert forall k :: 0 <= k < |h.jobs| ==> t.jobs[k] == h.jobs[k];
    assert forall k: nat :: k < |h.jobs| ==> (Outstanding(t, c, k) <==> Outstanding(h, c, k));
    assert Outstanding(t, c, |h.jobs|) <==> c in j.to;
    forall f: nat | DroppedBy(h, c, f)
      ensures DroppedBy(t, c, f)
    {
    }
    assert Complete(h, c, p);
  }

  /** A step of one goroutine that leaves the message it is busy with and its list alone. */
  lemma TaskMoves(h: Net, t: Net, g: nat, c: nat)
    requires Framework(h) && t.jobs == h.jobs && g in t.tasks && t.tasks == h.tasks[g := t.tasks[g]]
    requires Pending(t.tasks[g]) == Pending(TaskOf(h, g)) || Left(TaskOf(h, g)) == {} == Left(t.tasks[g])
    requires Left(t.tasks[g]) == Left(TaskOf(h, g))
    ensures forall k: nat :: Outstanding(t, c, k) <==> Outstanding(h, c, k)
  {
  }

  lemma RemovalKeeps(h: Net, e: Event)
    requires Inv(h) && Step(h, e).Some? && (e.HangUp? || e.Unlist? || e.Close? || e.Finish?)
    ensures Inv(Step(h, e).value)
  {
    hide Steady;
    hide Delivered;
    hide ShutDown;
    hide Outstanding;
    hide Ordered;
    hide Complete;
    var t := Step(h, e).value;
    FrameworkRemoval(h, e);
    if e.Close? {
      ShutKeeps(h.peers[TaskOf(h, e.g).c].line);
    }
    forall c | c in t.peers
      ensures PeerOk(t, c, t.peers[c])
    {
      TaskMoves(h, t, e.g, c);
      DoomStays(h, t, e, c);
      PeerKept(h, t, c, h.peers[c], t.peers[c]);
    }
  }

  /** Whoever is removing this connection goes on doing so until it has closed it. */
  lemma DoomStays(h: Net, t: Net, e: Event, c: nat)
    requires Framework(h) && (e.HangUp? || e.Unlist? || e.Close? || e.Finish?)
    requires Step(h, e) == Some(t) && c in h.peers
    ensures c in t.peers && (Doomed(h, c) ==> Doomed(t, c) || t.peers[c].line.closed)
  {
    if Doomed(h, c) {
      var g: nat :| DroppedBy(h, c, g);
      if g != e.g || e.Unlist? {
        assert DroppedBy(t, c, g);
      }
    }
  }

  lemma WhileDropping(c: nat, unlisted: bool, back: Task)
    ensures Pending(Dropping(c, unlisted, back)) == Pending(back) && Left(Dropping(c, unlisted, back)) == Left(back)
    ensures Pending(Idle) == None && Left(Idle) == {}
  {
  }

  lemma FrameworkRemoval(h: Net, e: Event)
    requires Framework(h) && Step(h, e).Some? && (e.HangUp? || e.Unlist? || e.Close? || e.Finish?)
    ensures Framework(Step(h, e).value)
  {
    hide ShutDown;
    var t := Step(h, e).value;
    assert t.peers.Keys == h.peers.Keys;
    forall g | g in t.tasks
      ensures TaskOk(t, g, t.tasks[g])
    {
      if g in h.tasks {
        assert TaskOk(h, g, h.tasks[g]);
      }
      if g == e.g && e.HangUp? {
        WhileDropping(e.c, false, Idle);
      }
    }
  }

  // ---- offering ----

  /** What is left to a goroutine after a check or an enqueueing. */
  function RestOf(t: Task, c: nat): Task
    requires t.Sending? || t.Offering?
  {
    Sending(t.job, t.left - {c})
  }

  lemma FrameworkOffer(h: Net, e: Event)
    requires Framework(h) && Step(h, e).Some? && (e.Check? || e.Put?)
    ensures Framework(Step(h, e).value)
  {
    hide Queued;
    hide VerdictFor;
    hide Wanted;
    var t := Step(h, e).value;
    assert t.peers.Keys == h.peers.Keys;
    forall g | g in t.tasks
      ensures TaskOk(t, g, t.tasks[g])
    {
      if g in h.tasks {
        assert TaskOk(h, g, h.tasks[g]);
      }
      if g == e.g {
        var u := TaskOf(h, g);
        WhileDropping(e.c, false, RestOf(u, e.c));
        assert u.Offering? ==> u.left - {e.c} == u.left;
      }
    }
  }

  /** Whether this step settles what becomes of the message at this connection. */
  predicate Settles(h: Net, e: Event)
    requires Step(h, e).Some? && (e.Check? || e.Put?)
  {
    e.Put? || !Wanted(h.peers[e.c], h.jobs[TaskOf(h, e.g).job])
  }

  /** Of the connections a goroutine has still to serve, a step takes away the one it settled. */
  lemma OfferLeft(h: Net, e: Event, c: nat)
    requires Framework(h) && Step(h, e).Some? && (e.Check? || e.Put?)
    ensures var t := Step(h, e).value;
            forall k: nat :: Outstanding(t, c, k) <==>
              Outstanding(h, c, k) && !(Settles(h, e) && c == e.c && k == TaskOf(h, e.g).job)
    ensures Outstanding(h, e.c, TaskOf(h, e.g).job)
  {
    hide Queued;
    hide VerdictFor;
    hide Wanted;
    var t, u := Step(h, e).value, TaskOf(h, e.g);
    WhileDropping(e.c, false, RestOf(u, e.c));
    assert u.Offering? ==> u.left - {e.c} == u.left;
    assert TaskOk(h, e.g, h.tasks[e.g]);
    LeftAfter(u, e.c);
    forall k: nat
      ensures Outstanding(t, c, k) <==> Outstanding(h, c, k) && !(Settles(h, e) && c == e.c && k == u.job)
    {
    }
  }

  lemma LeftAfter(u: Task, c: nat)
    requires (u.Sending? && c in u.left) || (u.Offering? && u.c == c && c !in u.left)
    ensures Left(RestOf(u, c)) == Left(u) - {c} && Left(Offering(u.job, c, u.left - {c})) == Left(u)
    ensures Pending(RestOf(u, c)) == Pending(u) == Pending(Offering(u.job, c, u.left - {c})) == Some(u.job)
  {
  }

  lemma OfferDoom(h: Net, e: Event, c: nat)
    requires Framework(h) && Step(h, e).Some? && (e.Check? || e.Put?)
    ensures var t := Step(h, e).value;
            && (Doomed(h, c) ==> Doomed(t, c))
            && (c == e.c && e.Put? && VerdictFor(h.peers[c].line, h.jobs[TaskOf(h, e.g).job].message) == Refused ==>
                  Doomed(t, c))
  {
    hide Queued;
    hide VerdictFor;
    hide Wanted;
    var t := Step(h, e).value;
    if g: nat :| DroppedBy(h, c, g) {
      assert g != e.g && DroppedBy(t, c, g);
    }
    if c == e.c && e.Put? && VerdictFor(h.peers[c].line, h.jobs[TaskOf(h, e.g).job].message) == Refused {
      assert DroppedBy(t, c, e.g);
    }
  }

  /** A goroutine is busy with one message at a time. */
  lemma OneAtATime(h: Net, c: nat, k: nat, m: nat)
    requires Outstanding(h, c, k) && Outstanding(h, c, m) && h.jobs[k].sender == h.jobs[m].sender
    ensures k == m
  {
  }

  lemma OrderedNext(h: Net, t: Net, c: nat, p: Peer, q: Peer, k: nat)
    requires Ordered(h, c, p) && t.jobs == h.jobs && k < |h.jobs| && c in h.jobs[k].to
    requires |q.heard| == |p.heard| + 1 && q.heard[|p.heard|].job == k && q.heard[..|p.heard|] == p.heard
    requires Outstanding(h, c, k)
    requires forall m: nat :: Outstanding(t, c, m) ==> Outstanding(h, c, m) && m != k
    ensures Ordered(t, c, q)
  {
    hide Outstanding;
    assert forall i :: 0 <= i < |p.heard| ==> q.heard[i] == q.heard[..|p.heard|][i];
    forall i, m: nat | 0 <= i < |q.heard| && Outstanding(t, c, m) && m < |h.jobs|
                       && h.jobs[q.heard[i].job].sender == h.jobs[m].sender
      ensures q.heard[i].job < m
    {
      if i == |p.heard| {
        OneAtATime(h, c, k, m);
      }
    }
  }

  /** The connection at which the message has been settled, by verdict v. */
  lemma SettledHere(h: Net, t: Net, c: nat, p: Peer, q: Peer, k: nat, v: Verdict)
    requires PeerOk(h, c, p) && t.jobs == h.jobs && Outstanding(h, c, k) && c in h.jobs[k].to
    requires q.heard == p.heard + [Hearing(k, v)] && Steady(q.line) && (p.line.closed ==> q.line.closed)
    requires q.line.accepted == p.line.accepted + if v == Taken then [h.jobs[k].message] else []
    requires forall m: nat :: Outstanding(t, c, m) <==> Outstanding(h, c, m) && m != k
    requires Doomed(h, c) ==> Doomed(t, c)
    requires (v == Gone ==> q.line.closed) && (v == Refused ==> Doomed(t, c))
    ensures PeerOk(t, c, q)
  {
    hide Steady;
    hide Delivered;
    hide Outstanding;
    hide Doomed;
    OutstandingJob(h, c, k);
    DeliveredNext(h.jobs, p.heard, Hearing(k, v));
    OrderedNext(h, t, c, p, q, k);
    assert q.heard[|p.heard|].job == k;
    forall m: nat | m < |t.jobs| && c in t.jobs[m].to
      ensures Outstanding(t, c, m) || HasHeard(q, m)
    {
      if m != k && !Outstanding(t, c, m) {
        assert HasHeard(p, m);
        var i :| 0 <= i < |p.heard| && p.heard[i].job == m;
        assert q.heard[i].job == m;
      }
    }
    forall i | 0 <= i < |q.heard|
      ensures q.heard[i].verdict == Gone ==> q.line.closed
      ensures q.heard[i].verdict == Refused ==> q.line.closed || Doomed(t, c)
    {
      if i < |p.heard| {
        assert q.heard[i] == p.heard[i];
      }
    }
  }

  lemma OutstandingJob(h: Net, c: nat, k: nat)
    requires Outstanding(h, c, k)
    ensures k < |h.jobs|
  {
  }

  /** The queue takes exactly what the verdict says. */
  lemma EnqueuedLine(p: Peer, k: nat, message: bytes)
    requires Steady(p.line) && message != []
    ensures var q, v := Enqueued(p, k, message), VerdictFor(p.line, message);
            && Steady(q.line) && q.line.closed == p.line.closed
            && q.line.accepted == p.line.accepted + (if v == Taken then [message] else [])
            && (v == Gone ==> p.line.closed) && q.heard == p.heard + [Hearing(k, v)]
  {
    hide Steady;
    EnqueueKeeps(p.line, message);
    assert p.line.accepted + [] == p.line.accepted;
  }

  lemma OfferServes(h: Net, e: Event)
    requires Inv(h) && Step(h, e).Some? && (e.Check? || e.Put?) && Settles(h, e)
    ensures var t := Step(h, e).value;
            e.c in t.peers && PeerOk(t, e.c, t.peers[e.c])
  {
    hide Steady;
    hide Delivered;
    hide Outstanding;
    hide Doomed;
    hide Queued;
    hide VerdictFor;
    hide Wanted;
    hide PeerOk;
    var t, c := Step(h, e).value, e.c;
    var k := TaskOf(h, e.g).job;
    var p, j := h.peers[c], h.jobs[k];
    OfferLeft(h, e, c);
    OfferDoom(h, e, c);
    PeerIsSteady(h, c, p);
    OutstandingTo(h, e.g, c, k);
    if e.Put? {
      EnqueuedLine(p, k, j.message);
      SettledHere(h, t, c, p, t.peers[c], k, VerdictFor(p.line, j.message));
    } else {
      assert p.line.accepted + [] == p.line.accepted;
      SettledHere(h, t, c, p, t.peers[c], k, Unwanted);
    }
  }

  lemma OutstandingTo(h: Net, g: nat, c: nat, k: nat)
    requires Framework(h) && Pending(TaskOf(h, g)) == Some(k) && c in Left(TaskOf(h, g))
    ensures k < |h.jobs| && c in h.jobs[k].to && h.jobs[k].message != [] && h.jobs[k].sender == g
  {
    assert TaskOk(h, g, h.tasks[g]);
  }

  lemma OfferKeeps(h: Net, e: Event)
    requires Inv(h) && Step(h, e).Some? && (e.Check? || e.Put?)
    ensures Inv(Step(h, e).value)
  {
    hide Steady;
    hide Outstanding;
    hide Doomed;
    hide Queued;
    hide VerdictFor;
    hide Wanted;
    hide PeerOk;
    var t := Step(h, e).value;
    FrameworkOffer(h, e);
    if Settles(h, e) {
      OfferServes(h, e);
    }
    forall c | c in t.peers && (c == e.c ==> !Settles(h, e))
      ensures PeerOk(t, c, t.peers[c])
    {
      OfferLeft(h, e, c);
      OfferDoom(h, e, c);
      PeerIsSteady(h, c, h.peers[c]);
      PeerKept(h, t, c, h.peers[c], t.peers[c]);
    }
  }

  lemma InvNext(h: Net, e: Event)
    requires Inv(h) && Step(h, e).Some?
    ensures Inv(Step(h, e).value)
  {
    hide Inv;
    hide Act;
    if e.Check? || e.Put? {
      OfferKeeps(h, e);
    } else if e.HangUp? || e.Unlist? || e.Close? || e.Finish? {
      RemovalKeeps(h, e);
    } else if e.Broadcast? || e.Address? {
      ListedKnown(h);
      var j := Step(h, e).value.jobs[|h.jobs|];
      BegunKeeps(h, e.g, j);
    } else {
      LocalKeeps(h, e);
    }
  }

  lemma ListedKnown(h: Net)
    requires Inv(h)
    ensures h.listed <= h.peers.Keys
  {
  }

  lemma Reachable(events: seq<Event>)
    requires Exec(Step, QUIET, events).Some?
    ensures Inv(Exec(Step, QUIET, events).value)
  {
    forall h: Net, e: Event | Inv(h) && Step(h, e).Some?
      ensures Inv(Step(h, e).value)
    {
      InvNext(h, e);
    }
    Kept(Step, Inv, QUIET, events);
  }

  /** Over every interleaving of senders, writers and removers: the byte count is what is queued
      plus the one message taken but not yet given back, it is over the budget only while a
      single message is counted, the channel is closed at most once and never written to
      afterwards, and the socket has a prefix of what was accepted. */
  lemma QueueAccounts(events: seq<Event>, c: nat)
    requires Exec(Step, QUIET, events).Some? && c in Exec(Step, QUIET, events).value.peers
    ensures var l := Exec(Step, QUIET, events).value.peers[c].line;
            && l.qbytes == |Flat(l.queue)| + (if l.writer.Counting? then |l.writer.b| else 0)
            && |l.queue| <= 64
            && (l.qbytes > 33554432 ==> |l.queue| + (if l.writer.Counting? then 1 else 0) == 1)
            && !l.panicked && l.closings <= 1
            && l.wire <= Flat(l.accepted) && (l.writer.Done? ==> l.wire == Flat(l.accepted))
  {
    Reachable(events);
    WrittenIsPrefix(Exec(Step, QUIET, events).value.peers[c].line);
  }

  /** There is room for a message: the connection is open, fewer than 64 messages are queued, and
      with what is queued and what the writer holds uncounted it comes to at most 32 MiB, unless
      there is nothing of either. */
  predicate RoomFor(l: Line, message: bytes) {
    var n := |Flat(l.queue)| + (if l.writer.Counting? then |l.writer.b| else 0);
    !l.closed && |l.queue| < 64 && (n == 0 || n + |message| <= 33554432)
  }

  lemma VerdictMeaning(l: Line, message: bytes)
    requires Steady(l)
    ensures VerdictFor(l, message) == Taken <==> RoomFor(l, message)
    ensures VerdictFor(l, message) == Gone <==> l.closed
    ensures VerdictFor(l, message) == Refused <==> !l.closed && !RoomFor(l, message)
  {
  }

  lemma PeerSteady(events: seq<Event>, c: nat)
    requires Exec(Step, QUIET, events).Some? && c in Exec(Step, QUIET, events).value.peers
    ensures Steady(Exec(Step, QUIET, events).value.peers[c].line)
  {
    Reachable(events);
  }

  /** After any run, an enqueueing that can happen now: it is settled by whether there is room, the
      queue has the message exactly when there is, and the goroutine turns to removing the
      connection exactly when the connection is open and there is none. */
  lemma PutDecides(events: seq<Event>, g: nat, c: nat)
    requires Exec(Step, QUIET, events).Some? && Step(Exec(Step, QUIET, events).value, Put(g, c)).Some?
    ensures var h := Exec(Step, QUIET, events).value;
            TaskOf(h, g).Offering? && TaskOf(h, g).c == c && TaskOf(h, g).job < |h.jobs| && c in h.peers
    ensures var h := Exec(Step, QUIET, events).value;
            var t, k, left := Step(h, Put(g, c)).value, TaskOf(h, g).job, TaskOf(h, g).left;
            var l, m := h.peers[c].line, h.jobs[k].message;
            var v := if l.closed then Gone else if RoomFor(l, m) then Taken else Refused;
            && c in t.peers && t.peers[c].heard == h.peers[c].heard + [Hearing(k, v)]
            && t.peers[c].line == (if v == Taken then l.(queue := l.queue + [m], qbytes := l.qbytes + |m|,
                                                        accepted := l.accepted + [m]) else l)
            && TaskOf(t, g) == (if v == Refused then Dropping(c, false, Sending(k, left)) else Sending(k, left))
  {
    PeerSteady(events, c);
    var h := Exec(Step, QUIET, events).value;
    hide Exec;
    var l, m := h.peers[c].line, h.jobs[TaskOf(h, g).job].message;
    VerdictMeaning(l, m);
    SteadyOpen(l);
    QueuedMeaning(l, m);
    RoomIsCounted(l, m);
    hide VerdictFor;
    hide Queued;
    hide Steady;
    hide RoomFor;
  }

  lemma RoomIsCounted(l: Line, message: bytes)
    requires Steady(l)
    ensures RoomFor(l, message) <==> !l.closed && (l.qbytes <= 0 || l.qbytes + |message| <= 33554432) && |l.queue| < 64
  {
  }

  // ---- nobody is held up ----

  /** How many more steps of its own a goroutine needs at most. */
  function Work(t: Task): nat {
    match t
    case Idle => 0
    case Sending(_, left) => 4 * |left| + 1
    case Offering(_, _, left) => 4 * |left| + 4
    case Dropping(_, unlisted, back) => Work(back) + if unlisted then 1 else 2
  }

  /** Whatever the queues are like, a goroutine in the middle of a broadcast or a removal has a
      step it can take now, and each such step brings it nearer to the end: it is done after at
      most four steps a connection, however many clients have stalled. */
  lemma NeverHeldUp(events: seq<Event>, g: nat) returns (e: Event)
    requires Exec(Step, QUIET, events).Some? && TaskOf(Exec(Step, QUIET, events).value, g) != Idle
    ensures IsMove(e) && e.g == g
    ensures var h := Exec(Step, QUIET, events).value;
            Step(h, e).Some? && Work(TaskOf(Step(h, e).value, g)) < Work(TaskOf(h, g))
  {
    hide Work;
    hide Step;
    Reachable(events);
    var h := Exec(Step, QUIET, events).value;
    hide Exec;
    var t := TaskOf(h, g);
    if t.Dropping? {
      e := if t.unlisted then Close(g, t.c) else Unlist(g, t.c);
      DropWork(h, e);
    } else if t.Offering? {
      e := Put(g, t.c);
      PutWork(h, g, t.c);
    } else if t.left == {} {
      e := Finish(g);
      FinishWork(h, g);
    } else {
      var c :| c in t.left;
      e := Check(g, c);
      CheckWork(h, g, c);
    }
  }

  lemma FinishWork(h: Net, g: nat)
    requires TaskOf(h, g).Sending? && TaskOf(h, g).left == {}
    ensures Step(h, Finish(g)).Some? && Work(TaskOf(Step(h, Finish(g)).value, g)) < Work(TaskOf(h, g))
  {
  }

  lemma DropWork(h: Net, e: Event)
    requires Framework(h) && (e.Unlist? || e.Close?) && TaskOf(h, e.g).Dropping? && TaskOf(h, e.g).unlisted == e.Close?
    requires e.c == TaskOf(h, e.g).c
    ensures Step(h, e).Some? && Work(TaskOf(Step(h, e).value, e.g)) < Work(TaskOf(h, e.g))
  {
    hide ShutDown;
    assert TaskOk(h, e.g, h.tasks[e.g]);
  }

  lemma PutWork(h: Net, g: nat, c: nat)
    requires Framework(h) && TaskOf(h, g).Offering? && c == TaskOf(h, g).c
    ensures Step(h, Put(g, c)).Some?
    ensures Work(TaskOf(Step(h, Put(g, c)).value, g)) < Work(TaskOf(h, g))
  {
    hide VerdictFor;
    hide Enqueued;
    var t := h.tasks[g];
    assert TaskOk(h, g, t) && c in Left(t);
    assert Work(Sending(t.job, t.left)) == 4 * |t.left| + 1;
  }

  lemma CheckWork(h: Net, g: nat, c: nat)
    requires Framework(h) && TaskOf(h, g).Sending? && c in TaskOf(h, g).left
    ensures Step(h, Check(g, c)).Some?
    ensures Work(TaskOf(Step(h, Check(g, c)).value, g)) < Work(TaskOf(h, g))
  {
    hide Wanted;
    var t := h.tasks[g];
    assert TaskOk(h, g, t);
    assert |t.left - {c}| == |t.left| - 1;
    assert Work(Sending(t.job, t.left - {c})) == 4 * (|t.left| - 1) + 1;
  }

  /** And no one else's step sets it back. */
  lemma OwnTaskOnly(h: Net, e: Event, g: nat)
    requires Step(h, e).Some? && TaskOf(h, g) != Idle
    requires !(IsMove(e) && e.g == g)
    ensures TaskOf(Step(h, e).value, g) == TaskOf(h, g)
  {
    hide Enqueued;
    hide Wanted;
    hide Settle;
    hide Advance;
    hide ShutDown;
    hide VerdictFor;
  }
}
