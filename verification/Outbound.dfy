/** One connection's outbound queue: senders, the writer and removers, a critical section at a time. */
module Outbound {
  import opened ByteText

  const QUEUE_MSGS: nat := 64
  const QUEUE_BYTES: nat := 33554432

  /** The writer: waiting on the channel; holding a message whose size is still counted; writing
      it; stopped by a failed write; or done because the channel was closed and drained. */
  datatype Writer = Waiting | Counting(b: bytes) | Writing(b: bytes) | Failed | Done

  /** `wire` is what the socket took. A send on a closed channel and a second close set `panicked`. */
  datatype Line = Line(queue: seq<bytes>, open: bool, qbytes: int, closed: bool, writer: Writer, wire: bytes,
                       accepted: seq<bytes>, closings: nat, panicked: bool)

  const NEW_LINE := Line([], true, 0, false, Waiting, [], [], 0, false)

  function Framed(b: bytes): bytes {
    b + [10]
  }

  // ---- the critical sections ----

  predicate Overfull(l: Line, b: bytes) {
    (l.qbytes > 0 && l.qbytes + |b| > QUEUE_BYTES) || |l.queue| >= QUEUE_MSGS
  }

  function Queued(l: Line, b: bytes): Line {
    if l.closed || Overfull(l, b) then l
    else l.(queue := l.queue + [b], qbytes := l.qbytes + |b|, accepted := l.accepted + [b],
            panicked := l.panicked || !l.open)
  }

  function ShutDown(l: Line): Line {
    if l.closed then l
    else l.(closed := true, open := false, closings := l.closings + 1, panicked := l.panicked || !l.open)
  }

  datatype WriterStep = Take | Count | WriteAll | WriteSome(n: nat)

  /** One step of the writer; nothing where it has to wait. */
  function Advance(l: Line, w: WriterStep): Option<Line> {
    match w
    case Take =>
      if l.writer != Waiting then None
      else if l.queue != [] then Some(l.(queue := l.queue[1..], writer := Counting(l.queue[0])))
      else if !l.open then Some(l.(writer := Done))
      else None
    case Count =>
      if !l.writer.Counting? then None else Some(l.(qbytes := l.qbytes - |l.writer.b|, writer := Writing(l.writer.b)))
    case WriteAll =>
      if !l.writer.Writing? then None else Some(l.(wire := l.wire + l.writer.b, writer := Waiting))
    case WriteSome(n) =>
      if !l.writer.Writing? || n > |l.writer.b| then None
      else Some(l.(wire := l.wire + l.writer.b[..n], writer := Failed))
  }

  /** A message goes into the queue exactly when the connection has not been closed, fewer than 64
      messages are queued, and nothing is counted or the count stays within 32 MiB; the queue, the
      count and the log of what was accepted then grow by it, and otherwise nothing changes. */
  lemma QueuedMeaning(l: Line, b: bytes)
    ensures !l.closed && (l.qbytes <= 0 || l.qbytes + |b| <= 33554432) && |l.queue| < 64 ==>
              Queued(l, b) == Line(l.queue + [b], l.open, l.qbytes + |b|, l.closed, l.writer, l.wire, l.accepted + [b],
                                   l.closings, l.panicked || !l.open)
    ensures !(!l.closed && (l.qbytes <= 0 || l.qbytes + |b| <= 33554432) && |l.queue| < 64) ==> Queued(l, b) == l
  {
  }

  // ---- what every step keeps ----

  /** The message taken from the channel but not yet subtracted. */
  function InHand(l: Line): bytes {
    if l.writer.Counting? then l.writer.b else []
  }

  predicate Counted(l: Line) {
    && l.qbytes == |Flat(l.queue)| + |InHand(l)|
    && (forall i :: 0 <= i < |l.queue| ==> l.queue[i] != [])
    && (l.writer.Counting? ==> l.writer.b != [])
  }

  /** The budget is exceeded only while a single message is being counted. */
  predicate Bounded(l: Line) {
    && |l.queue| <= QUEUE_MSGS
    && (l.qbytes <= QUEUE_BYTES || |l.queue| + (if l.writer.Counting? then 1 else 0) == 1)
  }

  predicate ClosedOnce(l: Line) {
    !l.panicked && (l.open <==> !l.closed) && l.closings == if l.closed then 1 else 0
  }

  /** What was accepted is what is written, then what the writer holds, then what is queued. */
  predicate InOrder(l: Line) {
    match l.writer
    case Waiting => l.wire + Flat(l.queue) == Flat(l.accepted)
    case Counting(b) => l.wire + b + Flat(l.queue) == Flat(l.accepted)
    case Writing(b) => l.wire + b + Flat(l.queue) == Flat(l.accepted)
    case Failed => l.wire <= Flat(l.accepted)
    case Done => l.closed && l.queue == [] && l.wire == Flat(l.accepted)
  }

  predicate Steady(l: Line) {
    Counted(l) && Bounded(l) && ClosedOnce(l) && InOrder(l)
  }

  /** A message is accepted exactly when the connection is open and there is room for it; a
      refused one changes nothing. Everything else stays as it was. */
  lemma EnqueueKeeps(l: Line, b: bytes)
    requires Steady(l) && b != []
    ensures Steady(Queued(l, b))
    ensures Queued(l, b).accepted
            == if !l.closed && (l.qbytes == 0 || l.qbytes + |b| <= 33554432) && |l.queue| < 64 then l.accepted + [b]
               else l.accepted
  {
    QueuedMeaning(l, b);
    if !l.closed && !Overfull(l, b) {
      AcceptedCounts(l, b);
      AcceptedInOrder(l, b);
      hide Counted;
      hide Bounded;
      hide InOrder;
    }
  }

  lemma AcceptedCounts(l: Line, b: bytes)
    requires Counted(l) && Bounded(l) && b != [] && !l.closed && !Overfull(l, b)
    ensures Counted(Queued(l, b)) && Bounded(Queued(l, b))
  {
    FlatSnoc(l.queue, b);
    hide Flat;
    if l.qbytes == 0 && l.queue != [] {
      HeadCounts(l.queue);
    }
    assert forall i :: 0 <= i < |l.queue| ==> (l.queue + [b])[i] == l.queue[i];
  }

  lemma AcceptedInOrder(l: Line, b: bytes)
    requires InOrder(l) && !l.closed && !Overfull(l, b)
    ensures InOrder(Queued(l, b))
  {
    FlatSnoc(l.queue, b);
    FlatSnoc(l.accepted, b);
    hide Flat;
    hide Overfull;
    WireStays(l.wire, if l.writer.Counting? || l.writer.Writing? then l.writer.b else [], Flat(l.queue), b);
  }

  lemma WireStays(wire: bytes, hand: bytes, rest: bytes, b: bytes)
    ensures wire + (rest + b) == wire + rest + b && wire + hand + (rest + b) == wire + hand + rest + b
  {
  }

  lemma HeadCounts(queue: seq<bytes>)
    requires queue != []
    ensures Flat(queue) == queue[0] + Flat(queue[1..])
  {
    FlatSplit(queue, 1);
    assert queue[..1] == [queue[0]] && [queue[0]][..0] == [];
  }

  lemma ShutKeeps(l: Line)
    requires Steady(l)
    ensures Steady(ShutDown(l)) && ShutDown(l).closed && ShutDown(l).accepted == l.accepted
  {
  }

  lemma AdvanceKeeps(l: Line, w: WriterStep)
    requires Steady(l) && Advance(l, w).Some?
    ensures Steady(Advance(l, w).value)
    ensures Advance(l, w).value.accepted == l.accepted && Advance(l, w).value.closed == l.closed
  {
    if w.Take? && l.queue != [] {
      HeadCounts(l.queue);
      assert l.wire + (l.queue[0] + Flat(l.queue[1..])) == l.wire + l.queue[0] + Flat(l.queue[1..]);
    } else if w.WriteSome? {
      assert l.wire + l.writer.b[..w.n] <= l.wire + l.writer.b + Flat(l.queue);
    }
  }

  /** Bytes reach the peer in the order in which whole messages were accepted, with none left out
      before them; a writer that ends by draining the closed channel has written them all. */
  lemma WrittenIsPrefix(l: Line)
    requires Steady(l)
    ensures l.wire <= Flat(l.accepted)
    ensures l.writer.Done? ==> l.wire == Flat(l.accepted)
    ensures l.qbytes >= 0
  {
  }

  lemma SteadyOpen(l: Line)
    requires Steady(l)
    ensures !l.panicked && (l.open <==> !l.closed) && l.qbytes >= 0 && l.closings == if l.closed then 1 else 0
  {
  }

  // ---- the connection object ----

  class Conn {
    var queue: seq<bytes>
    var open: bool
    var qbytes: int
    var closed: bool
    var writer: Writer
    var wire: bytes
    ghost var accepted: seq<bytes>
    ghost var closings: nat
    ghost var panicked: bool

    ghost function View(): Line
      reads this
    {
      Line(queue, open, qbytes, closed, writer, wire, accepted, closings, panicked)
    }

    ghost predicate Valid()
      reads this
    {
      Steady(View())
    }

    constructor ()
      ensures Valid() && View() == NEW_LINE
    {
      queue, open, qbytes, closed := [], true, 0, false;
      writer, wire := Waiting, [];
      accepted, closings, panicked := [], 0, false;
    }

    /** A send that does not block; on a closed channel it would panic. */
    method Send(b: bytes) returns (sent: bool)
      requires open
      modifies `queue
      ensures sent <==> old(|queue|) < QUEUE_MSGS
      ensures queue == if sent then old(queue) + [b] else old(queue)
    {
      sent := |queue| < QUEUE_MSGS;
      if sent {
        queue := queue + [b];
      }
    }

    method Enqueue(b: bytes) returns (ok: bool, full: bool)
      requires Valid() && b != []
      modifies this
      ensures Valid() && View() == Queued(old(View()), b)
      ensures ok <==> old(!closed && (qbytes == 0 || qbytes + |b| <= 33554432) && |queue| < 64)
      ensures full <==> old(!closed && !((qbytes == 0 || qbytes + |b| <= 33554432) && |queue| < 64))
      ensures queue == (if ok then old(queue) + [b] else old(queue))
      ensures qbytes == (if ok then old(qbytes) + |b| else old(qbytes))
      ensures accepted == (if ok then old(accepted) + [b] else old(accepted))
      ensures open == old(open) && closed == old(closed) && writer == old(writer) && wire == old(wire)
    {
      ghost var was := View();
      EnqueueKeeps(was, b);
      QueuedMeaning(was, b);
      SteadyOpen(was);
      hide *;
      if closed {
        assert View() == was;
        return false, false;
      }
      if qbytes > 0 && qbytes + |b| > QUEUE_BYTES {
        assert View() == was;
        return false, true;
      }
      ok := Send(b);
      full := !ok;
      if ok {
        qbytes := qbytes + |b|;
        accepted := accepted + [b];
        assert View() == was.(queue := was.queue + [b], qbytes := was.qbytes + |b|, accepted := was.accepted + [b]);
      } else {
        assert View() == was;
      }
    }

    /** The part of removeConn under the queue lock: the channel is closed by the first caller only. */
    method Shut()
      requires Valid()
      modifies this
      ensures Valid() && View() == ShutDown(old(View()))
      ensures closed && !open && closings == 1 && queue == old(queue) && accepted == old(accepted) && wire == old(wire)
    {
      ShutKeeps(View());
      if !closed {
        closed := true;
        assert open;
        open := false;
        closings := closings + 1;
      }
    }

    method Receive() returns (got: bool)
      requires Valid() && writer == Waiting && (queue != [] || !open)
      modifies this
      ensures Valid() && Advance(old(View()), Take) == Some(View())
      ensures got <==> old(queue) != []
    {
      AdvanceKeeps(View(), Take);
      got := queue != [];
      if got {
        queue, writer := queue[1..], Counting(queue[0]);
      } else {
        writer := Done;
      }
    }

    method GiveBack()
      requires Valid() && writer.Counting?
      modifies this
      ensures Valid() && Advance(old(View()), Count) == Some(View())
    {
      AdvanceKeeps(View(), Count);
      qbytes, writer := qbytes - |writer.b|, Writing(writer.b);
    }

    /** `n` is how much of the message the socket takes; less than all of it is a failed write. */
    method Write(n: nat) returns (ok: bool)
      requires Valid() && writer.Writing?
      modifies this
      ensures Valid() && ok == (n >= old(|writer.b|))
      ensures Advance(old(View()), if ok then WriteAll else WriteSome(n)) == Some(View())
    {
      ok := n >= |writer.b|;
      AdvanceKeeps(View(), if ok then WriteAll else WriteSome(n));
      if ok {
        wire, writer := wire + writer.b, Waiting;
      } else {
        wire, writer := wire + writer.b[..n], Failed;
      }
    }

    /** One turn of the write loop with nobody else in between. */
    method WriteTurn(n: nat) returns (more: bool)
      requires Valid() && writer == Waiting && (queue != [] || !open)
      modifies this
      ensures Valid() && accepted == old(accepted) && closed == old(closed)
      ensures more <==> old(queue != [] && n >= |queue[0]|)
      ensures writer == if more then Waiting else if old(queue) == [] then Done else Failed
      ensures old(queue) != [] ==>
                && queue == old(queue[1..])
                && wire == old(wire + if n < |queue[0]| then queue[0][..n] else queue[0])
      ensures old(queue) == [] ==> queue == [] && wire == old(wire)
    {
      hide Steady;
      more := Receive();
      if more {
        GiveBack();
        more := Write(n);
      }
    }
  }
}
