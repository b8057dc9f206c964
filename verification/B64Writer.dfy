/** The client's base64 stream decoder, one chardata token at a time, and the writers it feeds. */
module B64Writer {
  import opened ByteText
  import opened FitsFrame
  import opened FitsWriter
  import opened Base64

  /** How a writer's life ended: not at all, by Close, or by CloseWithError. */
  datatype Ending = Open | Closed | Aborted

  /** A writer handed to the client by a sink callback. It logs what each Write was given. It is
      either a FITSWriter or any other writer, whose failures are a function of what it has been
      given so far. `closer` and `aborter` say which of Close and CloseWithError it offers. */
  class BlobSink {
    const closer: bool
    const aborter: bool
    const fits: FITSWriter?
    const refuses: seq<bytes> -> bool
    const closeFails: bool
    var log: seq<bytes>
    var failed: bool
    var ending: Ending

    ghost function Owned(): set<object>
      reads this, fits
    {
      {this as object} + (if fits == null then {} else {fits as object} + fits.Owned())
    }

    ghost predicate Valid()
      reads this, fits, if fits == null then {} else fits.Owned()
    {
      && (failed ==> log != [])
      && (fits != null ==>
            && closer && !aborter && fits.Valid()
            && (failed <==> fits.err.Some? && !fits.done)
            && fits.fed == Flat(log))
    }

    constructor (closer: bool, aborter: bool, refuses: seq<bytes> -> bool, closeFails: bool)
      ensures Valid() && log == [] && !failed && ending == Open && fits == null && fresh(Owned())
      ensures this.closer == closer && this.aborter == aborter && this.refuses == refuses
    {
      this.closer, this.aborter, this.refuses, this.closeFails := closer, aborter, refuses, closeFails;
      fits := null;
      log, failed, ending := [], false, Open;
    }

    /** A FITSWriter offers Close and no CloseWithError. */
    constructor ForFits(f: FITSWriter)
      requires f.Valid() && f.fed == [] && !f.done && f.err == None
      ensures Valid() && log == [] && !failed && ending == Open && fits == f && closer && !aborter
      ensures fresh(Owned() - {f as object} - f.Owned())
    {
      closer, aborter, refuses, closeFails := true, false, _ => false, false;
      fits := f;
      log, failed, ending := [], false, Open;
    }

    method Write(buf: array<byte>, n: nat) returns (ok: bool)
      requires Valid() && n <= buf.Length && !failed && ending == Open && buf !in Owned()
      requires fits != null ==> !fits.done
      modifies Owned()
      ensures Valid() && fresh(Owned() - old(Owned())) && ending == old(ending)
      ensures log == old(log) + [old(buf[..n])] && failed == !ok && buf[..] == old(buf[..])
      ensures fits != null ==> !fits.done
    {
      var given := buf[..n];
      FlatSnoc(log, given);
      log := log + [given];
      if fits != null {
        ok := WriteFits(buf, n, given);
      } else {
        ok := !refuses(log);
      }
      failed := !ok;
    }

    /** The same of a FITSWriter alone. */
    method WriteFits(buf: array<byte>, n: nat, ghost given: bytes) returns (ok: bool)
      requires fits != null && fits.Valid() && fits.err == None && !fits.done
      requires n <= buf.Length && buf !in fits.Owned() && given == buf[..n]
      modifies fits, fits.Owned()
      ensures fits.Valid() && !fits.done && (ok <==> fits.err == None) && fits.fed == old(fits.fed) + given
      ensures fresh(fits.Owned() - old(fits.Owned())) && buf[..] == old(buf[..])
    {
      hide FITSWriter.Valid;
      var _, e := fits.Write(buf, n);
      ok := e == None;
    }

    /** io.Closer; true is an error. */
    method Close() returns (err: bool)
      requires Valid() && closer && ending == Open
      requires fits != null ==> !fits.done
      modifies Owned()
      ensures ending == Closed && log == old(log) && failed == old(failed) && Owned() == old(Owned())
      ensures fits == null ==> err == closeFails
      ensures fits != null ==> fits.Valid() && fits.fed == old(fits.fed) && (fits.err.Some? || fits.done)
      ensures fits != null ==> err == Streamed(fits.fl, fits.fed).Err?
    {
      ending := Closed;
      if fits != null {
        var e := fits.Close();
        return e.Some?;
      }
      return closeFails;
    }

    /** CloseWithError. */
    method Abort()
      requires Valid() && aborter && ending == Open
      modifies `ending
      ensures ending == Aborted
    {
      ending := Aborted;
    }
  }

  // ---- one character ----

  /** A padded quantum ended the text. */
  predicate Ended(t: bytes) {
    |t| % 4 == 0 && Quads(t) > 0 && QuadLen(QuadAt(t, Quads(t) - 1)) < 3
  }

  lemma EmptyText()
    ensures Live([]) && DecodedText([]) == [] && !Ended([])
  {
  }

  /** After padding, any further character spoils the text. */
  lemma AfterPadding(t: bytes, ch: byte)
    requires Ended(t)
    ensures !Live(t + [ch])
  {
    var k := Quads(t) - 1;
    QuadAtPrefix(t, [ch], k);
    assert k < Quads(t + [ch]);
  }

  /** A character that does not complete a quantum changes nothing yet. */
  lemma WithinQuad(t: bytes, ch: byte)
    requires Live(t) && !Ended(t) && |t| % 4 < 3
    ensures Live(t + [ch]) && !Ended(t + [ch]) && DecodedText(t + [ch]) == DecodedText(t)
  {
    hide QuadOk;
    hide QuadLen;
    hide QuadBytes;
    hide QuadAt;
    hide Payload;
    PayloadPrefix(t, [ch], Quads(t));
    assert Quads(t + [ch]) == Quads(t);
    forall k: nat | k < Quads(t + [ch])
      ensures QuadOk(QuadAt(t + [ch], k)) && QuadLen(QuadAt(t + [ch], k)) == 3
    {
      QuadAtPrefix(t, [ch], k);
    }
  }

  lemma TailNext(t: bytes, ch: byte, n: nat)
    requires n <= |t|
    ensures (t + [ch])[|t| - n..] == t[|t| - n..] + [ch]
  {
  }

  /** A character that completes a quantum: the text stays live exactly when the quantum is good. */
  lemma CompletesQuad(t: bytes, ch: byte)
    requires Live(t) && |t| % 4 == 3
    ensures var q := t[|t| - 3..] + [ch];
            && (Live(t + [ch]) <==> QuadOk(q))
            && DecodedText(t + [ch]) == DecodedText(t) + QuadBytes(q)
            && (Ended(t + [ch]) <==> QuadLen(q) < 3)
  {
    hide QuadOk;
    hide QuadBytes;
    hide QuadLen;
    var u := t + [ch];
    var q := t[|t| - 3..] + [ch];
    assert Quads(u) == Quads(t) + 1 && QuadAt(u, Quads(t)) == q;
    PayloadPrefix(t, [ch], Quads(t));
    if QuadOk(q) {
      forall k: nat | k < Quads(u)
        ensures QuadOk(QuadAt(u, k)) && (QuadLen(QuadAt(u, k)) < 3 ==> 4 * k + 4 == |u|)
      {
        if k < Quads(t) { QuadAtPrefix(t, [ch], k); }
      }
    }
  }

  /** The bitwise or of two numbers. */
  function Or(a: nat, b: nat): nat {
    if a == 0 then b
    else if b == 0 then a
    else 2 * Or(a / 2, b / 2) + if a % 2 == 1 || b % 2 == 1 then 1 else 0
  }

  /** Bit k of x, the lowest being bit 0. */
  function Bit(x: nat, k: nat): nat {
    if k == 0 then x % 2 else Bit(x / 2, k - 1)
  }

  /** A bit of the or is set exactly when it is set in one of the two. */
  lemma {:induction false} OrBits(a: nat, b: nat, k: nat)
    ensures Bit(Or(a, b), k) == 1 <==> Bit(a, k) == 1 || Bit(b, k) == 1
  {
    OrHalves(a, b);
    if k > 0 {
      OrBits(a / 2, b / 2, k - 1);
    } else {
      hide Or;
    }
  }

  lemma OrHalves(a: nat, b: nat)
    ensures Or(a, b) / 2 == Or(a / 2, b / 2)
    ensures Or(a, b) % 2 == 1 <==> a % 2 == 1 || b % 2 == 1
  {
  }

  /** A shift to the left, before any bits are cut off. */
  function Shl(x: nat, k: nat): nat {
    if k == 0 then x else 2 * Shl(x, k - 1)
  }

  /** Or with bits that a shift has made room for adds them. */
  lemma {:induction false} OrAdds(x: nat, y: nat, k: nat)
    requires y < Pow2(k)
    ensures Or(Shl(x, k), y) == Shl(x, k) + y
  {
    if k > 0 {
      OrAdds(x, y / 2, k - 1);
      OrDouble(Shl(x, k - 1), y);
    }
  }

  lemma OrDouble(a: nat, y: nat)
    requires Or(a, y / 2) == a + y / 2
    ensures Or(2 * a, y) == 2 * a + y
  {
  }

  /** The shifts and ors of the decoder; the low 8 bits are kept. */
  lemma QuadArithmetic(q: bytes)
    requires QuadOk(q)
    ensures var v0, v1, v2, v3 := Bits(q[0]), Bits(q[1]), Bits(q[2]), Bits(q[3]);
            ThreeBytes(Group(q)) == [(Or(v0 * 4, v1 / 16) % 256) as byte, (Or(v1 * 16, v2 / 4) % 256) as byte,
                                     (Or(v2 * 64, v3) % 256) as byte]
  {
    hide Or;
    hide Bits;
    hide Shl;
    var v0, v1, v2, v3 := Bits(q[0]), Bits(q[1]), Bits(q[2]), Bits(q[3]);
    SmallShifts(v0);
    SmallShifts(v1);
    SmallShifts(v2);
    OrAdds(v0, v1 / 16, 2);
    OrAdds(v1, v2 / 4, 4);
    OrAdds(v2, v3, 6);
    SplitGroup(v0, v1, v2, v3);
  }

  lemma SmallShifts(v: nat)
    ensures Shl(v, 2) == v * 4 && Shl(v, 4) == v * 16 && Shl(v, 6) == v * 64
    ensures Pow2(2) == 4 && Pow2(4) == 16 && Pow2(6) == 64
  {
    assert Shl(v, 1) == 2 * v && Shl(v, 3) == 8 * v && Shl(v, 5) == 32 * v;
    assert Pow2(1) == 2 && Pow2(3) == 8 && Pow2(5) == 32;
  }

  lemma SplitGroup(v0: nat, v1: nat, v2: nat, v3: nat)
    requires v0 < 64 && v1 < 64 && v2 < 64 && v3 < 64
    ensures var g := ((v0 * 64 + v1) * 64 + v2) * 64 + v3;
            && g / 65536 == (v0 * 4 + v1 / 16) % 256
            && g / 256 % 256 == (v1 * 16 + v2 / 4) % 256
            && g % 256 == (v2 * 64 + v3) % 256
  {
    var g := ((v0 * 64 + v1) * 64 + v2) * 64 + v3;
    var h, l, t, u := v1 / 16, v1 % 16, v2 / 4, v2 % 4;
    var a, b, c := v0 * 4 + h, l * 16 + t, u * 64 + v3;
    assert g == (a * 256 + b) * 256 + c;
    By256(g, a * 256 + b, c);
    By256(a * 256 + b, a, b);
    By256(a, 0, a);
    By256(v1 * 16 + t, h, b);
    By256(v2 * 64 + v3, t, c);
    assert g / 65536 == g / 256 / 256;
  }

  method DecodeQuad(quad: array<byte>, out: array<byte>) returns (n: nat, ok: bool)
    requires quad.Length == 4 && out.Length == 3 && quad != out
    modifies out
    ensures ok <==> QuadOk(quad[..])
    ensures ok ==> n == QuadLen(quad[..]) && out[..n] == QuadBytes(quad[..])
  {
    hide Group;
    n := 3;
    if quad[0] == PAD || quad[1] == PAD {
      return 0, false;
    } else if quad[2] == PAD {
      if quad[3] != PAD {
        return 0, false;
      }
      n := 1;
    } else if quad[3] == PAD {
      n := 2;
    }
    var v := new int[4](_ => 0);
    var i := 0;
    while i < 4
      invariant 0 <= i <= 4
      invariant forall j :: 0 <= j < i ==> v[j] == Bits(quad[j]) && (quad[j] == PAD || Digit(quad[j]) >= 0)
      invariant forall j :: i <= j < 4 ==> v[j] == 0
    {
      var ch := quad[i];
      if ch != PAD {
        var d := Digit(ch);
        if d < 0 {
          return 0, false;
        }
        v[i] := d;
      }
      i := i + 1;
    }
    QuadArithmetic(quad[..]);
    out[0] := (Or(v[0] * 4, v[1] / 16) % 256) as byte;
    out[1] := (Or(v[1] * 16, v[2] / 4) % 256) as byte;
    out[2] := (Or(v[2] * 64, v[3]) % 256) as byte;
    assert out[..] == ThreeBytes(Group(quad[..]));
    return n, true;
  }

  // ---- the decoder ----

  class B64Writer {
    var w: BlobSink?
    const teeing: bool
    /** What the tee has been given. */
    var teed: bytes
    var werr: bool
    var total: nat
    var scratch: array<byte>
    const quad: array<byte>
    var n: nat
    var done: bool
    /** The characters taken so far, white space apart. */
    ghost var text: bytes

    /** The fields are what the text taken so far makes them. */
    ghost predicate InStep()
      reads `text, `n, `total, `done, quad
    {
      && quad.Length == 4
      && Live(text) && n == |text| % 4 && quad[..n] == text[|text| - n..]
      && total == |DecodedText(text)| && (done <==> Ended(text))
    }

    ghost predicate Valid()
      reads this, quad, if w == null then {} else w.Owned(), if w == null then {} else {w},
            if w == null || w.fits == null then {} else {w.fits}
    {
      && InStep() && scratch != quad
      && (w != null ==> Usable(w))
    }

    /** A sink this decoder may write to. */
    ghost predicate Usable(s: BlobSink)
      reads this, s, s.Owned(), if s.fits == null then {} else {s.fits}
    {
      && s.Valid() && !s.failed && s.ending == Open
      && {this as object, quad as object, scratch as object} !! s.Owned()
      && (s.fits != null ==> !s.fits.done)
    }

    constructor (teeing: bool)
      ensures Valid() && w == null && text == [] && this.teeing == teeing && teed == [] && !werr && total == 0
      ensures fresh(quad) && fresh(scratch)
    {
      hide *;
      w, this.teeing, teed, werr, total := null, teeing, [], false, 0;
      scratch := new byte[0];
      quad := new byte[4];
      n, done, text := 0, false, [];
      new;
      AtStart();
    }

    lemma AtStart()
      requires w == null && text == [] && n == 0 && total == 0 && !done && quad.Length == 4 && scratch != quad
      ensures Valid()
    {
      hide Live;
      hide DecodedText;
      hide Ended;
      EmptyText();
      assert quad[..0] == text[|text|..];
    }

    lemma StillLive()
      requires Valid()
      ensures Live(text)
    {
    }

    lemma InStepCount()
      requires InStep()
      ensures quad.Length == 4 && n == |text| % 4
    {
    }

    /** One non-blank character. Decoded bytes go to out[m..k]. */
    method TakeChar(ch: byte, out: array<byte>, m: nat, dec: array<byte>) returns (ok: bool, k: nat)
      requires InStep() && out != quad && dec != quad && dec != out && dec.Length == 3
      requires n == 3 ==> m + 3 <= out.Length
      requires m <= out.Length
      modifies `n, `total, `done, `text, quad, out, dec
      ensures ok ==> InStep() && text == old(text) + [ch] && m <= k <= out.Length
      ensures ok ==> DecodedText(text) == DecodedText(old(text)) + out[m..k] && out[..m] == old(out[..m])
      ensures ok ==> k <= m + 3 && (old(n) < 3 ==> k == m)
      ensures !ok ==> !Live(old(text) + [ch])
    {
      hide Live;
      hide DecodedText;
      hide QuadBytes;
      hide QuadOk;
      hide Ended;
      hide QuadLen;
      if done {
        AfterPadding(text, ch);
        return false, m;
      }
      ghost var t, held := text, quad[..n];
      TailNext(t, ch, n);
      quad[n] := ch;
      n := n + 1;
      assert quad[..n] == held + [ch];
      if n < 4 {
        WithinQuad(t, ch);
        text := text + [ch];
        assert out[m..m] == [];
        return true, m;
      }
      assert quad[..] == quad[..n];
      ok, k := FinishQuad(t, ch, out, m, dec);
    }

    /** Four characters in hand: decodes them behind out[..m]. */
    method FinishQuad(ghost t: bytes, ch: byte, out: array<byte>, m: nat, dec: array<byte>) returns (ok: bool, k: nat)
      requires quad.Length == 4 && |t| % 4 == 3 && quad[..] == t[|t| - 3..] + [ch] && Live(t) && text == t
      requires total == |DecodedText(t)| && !done
      requires out != quad && dec != quad && dec != out && dec.Length == 3 && m + 3 <= out.Length
      modifies `n, `total, `done, `text, out, dec
      ensures ok ==> InStep() && text == t + [ch] && m <= k <= out.Length && k <= m + 3
      ensures ok ==> DecodedText(text) == DecodedText(t) + out[m..k] && out[..m] == old(out[..m])
      ensures !ok ==> !Live(t + [ch])
    {
      hide Live;
      hide DecodedText;
      hide QuadBytes;
      hide QuadOk;
      hide Ended;
      n := 0;
      CompletesQuad(t, ch);
      var size, good := DecodeQuad(quad, dec);
      if !good {
        return false, m;
      }
      if size < 3 {
        done := true;
      }
      total := total + size;
      forall i | 0 <= i < size {
        out[m + i] := dec[i];
      }
      text := text + [ch];
      assert forall i :: 0 <= i < size ==> out[m..m + size][i] == dec[..size][i];
      assert out[m..m + size] == dec[..size];
      return true, m + size;
    }

    /** What has been decoded beyond before. */
    ghost function Fresh(before: bytes): bytes
      reads `text
    {
      if |before| <= |DecodedText(text)| then DecodedText(text)[|before|..] else []
    }

    /** Decodes p and hands the bytes to the tee and the writer. A writer that fails is dropped
        and the rest of the payload still decoded; a malformed text hands over nothing more. */
    method Write(p: bytes) returns (ok: bool)
      requires Valid()
      modifies this, quad, scratch, if w == null then {} else w.Owned()
      ensures scratch == old(scratch) || fresh(scratch)
      ensures !ok ==> !Live(old(text) + Strip(p)) && w == old(w) && werr == old(werr) && teed == old(teed)
      ensures !ok && old(w) != null ==> unchanged(old(w)) && unchanged(old(w.Owned()))
      ensures ok ==> Valid() && text == old(text) + Strip(p)
      ensures ok ==> var more := Fresh(DecodedText(old(text)));
                     && DecodedText(text) == DecodedText(old(text)) + more
                     && (teeing ==> teed == old(teed) + more)
                     && (old(w) == null ==> w == null && werr == old(werr))
      ensures ok && old(w) != null ==> Delivered(old(w), Fresh(DecodedText(old(text))))
    {
      hide InStep;
      hide Live;
      hide DecodedText;
      hide Strip;
      hide FITSWriter.Valid;
      hide BlobSink.Valid;
      assert w != null ==> forall o | o in w.Owned() :: allocated(o);
      var out, m, good := DecodeInto(p);
      if !good {
        return false;
      }
      assert w != null ==> out !in w.Owned() && w.Owned() == old(w.Owned()) && w.Valid();
      scratch := out;
      assert out[..m] == Fresh(DecodedText(old(text)));
      Deliver(m);
      return true;
    }

    /** Sink s was given these bytes, if there are any, and was dropped if it failed on them. */
    twostate predicate Delivered(s: BlobSink, more: bytes)
      reads this, s, s.Owned(), if s.fits == null then {} else {s.fits}
    {
      && s.Valid() && (s.fits != null ==> !s.fits.done)
      && s.ending == old(s.ending) && fresh(s.Owned() - old(s.Owned()))
      && {this as object, quad as object, scratch as object} !! s.Owned()
      && if more == [] then
           w == s && werr == old(werr) && s.log == old(s.log) && s.failed == old(s.failed)
         else
           && s.log == old(s.log) + [more]
           && w == (if s.failed then null else s) && werr == (old(werr) || s.failed)
    }

    /** Hands scratch[..m] on. */
    method Deliver(m: nat)
      requires Valid() && m <= scratch.Length
      modifies `w, `werr, `teed, if w == null then {} else w.Owned()
      ensures Valid()
      ensures teed == if teeing then old(teed) + old(scratch[..m]) else old(teed)
      ensures old(w) == null ==> w == null && werr == old(werr)
      ensures old(w) != null ==> Delivered(old(w), old(scratch[..m]))
    {
      hide InStep;
      hide FITSWriter.Valid;
      hide BlobSink.Valid;
      if m == 0 {
        return;
      }
      if teeing {
        teed := teed + scratch[..m];
      }
      if w == null {
        return;
      }
      var wrote := w.Write(scratch, m);
      if !wrote {
        werr := true;
        w := null;
      }
    }

    /** The decoding loop of Write. The room set aside is always enough for what one call decodes. */
    method DecodeInto(p: bytes) returns (out: array<byte>, m: nat, ok: bool)
      requires InStep() && scratch != quad
      modifies `n, `total, `done, `text, quad, scratch
      ensures out == scratch || fresh(out)
      ensures m <= out.Length && out != quad
      ensures ok ==> InStep() && text == old(text) + Strip(p)
      ensures ok ==> DecodedText(text) == DecodedText(old(text)) + out[..m]
      ensures !ok ==> !Live(old(text) + Strip(p))
    {
      hide InStep;
      hide Live;
      hide DecodedText;
      hide Strip;
      hide Kept;
      assert Kept(|text|, |text|, 0, 0) by { KeptStart(|text|); }
      out := scratch;
      var need := |p| / 4 * 3 + 3;
      if out.Length < need {
        out := new byte[need];
      }
      var dec := new byte[3];
      m := 0;
      var i := 0;
      ghost var start := text;
      assert p[..0] == [] && Strip([]) == [] by { EmptyStrip(); }
      assert out[..0] == [];
      while i < |p|
        invariant 0 <= i <= |p| && m <= out.Length
        invariant InStep() && text == start + Strip(p[..i])
        invariant DecodedText(text) == DecodedText(start) + out[..m]
        invariant Kept(|start|, |text|, i, m)
      {
        StripNext(p, i);
        KeptOn(|start|, |text|, i, m);
        if IsBlank(p[i]) {
          i := i + 1;
          continue;
        }
        InStepCount();
        Room(|start|, |text|, i, |p|, m);
        var good;
        ghost var had, k, t := out[..m], m, |text|;
        good, m := TakeChar(p[i], out, m, dec);
        if !good {
          SpoiledForGood(start, p, i);
          return out, 0, false;
        }
        SpliceAt(out[..], k, m);
        Regroup(start, Strip(p[..i]), [p[i]]);
        Regroup(DecodedText(start), had, out[k..m]);
        KeptNext(|start|, t, i, k, m);
        i := i + 1;
      }
      assert p[..|p|] == p;
      return out, m, true;
    }
  }

  /** At most three bytes were decoded for each quantum completed in this call, whose first i
      characters took the text from length a to length t. */
  predicate Kept(a: nat, t: nat, i: nat, m: nat) {
    a <= t && t - a <= i && m <= 3 * (t / 4 - a / 4)
  }

  /** So len / 4 * 3 + 3 bytes always hold what a call of len characters decodes, even when up
      to three characters were held over from the call before. */
  lemma Room(a: nat, t: nat, i: nat, len: nat, m: nat)
    requires Kept(a, t, i, m) && i < len
    ensures t % 4 == 3 ==> m + 3 <= len / 4 * 3 + 3
  {
  }

  lemma KeptNext(a: nat, t: nat, i: nat, m: nat, k: nat)
    requires Kept(a, t, i, m) && k <= m + 3 && (t % 4 < 3 ==> k == m)
    ensures Kept(a, t + 1, i + 1, k)
  {
  }

  lemma KeptStart(a: nat)
    ensures Kept(a, a, 0, 0)
  {
  }

  lemma KeptOn(a: nat, t: nat, i: nat, m: nat)
    requires Kept(a, t, i, m)
    ensures Kept(a, t, i + 1, m)
  {
  }

  lemma SpliceAt(s: bytes, k: nat, m: nat)
    requires k <= m <= |s|
    ensures s[..m] == s[..k] + s[k..m]
  {
  }

  lemma EmptyStrip()
    ensures Strip([]) == []
  {
  }

  lemma StripNext(p: bytes, i: nat)
    requires i < |p|
    ensures Strip(p[..i + 1]) == Strip(p[..i]) + (if IsBlank(p[i]) then [] else [p[i]])
  {
    assert p[..i + 1][..i] == p[..i];
  }

  /** A text spoiled after i characters of p is spoiled after all of p. */
  lemma SpoiledForGood(start: bytes, p: bytes, i: nat)
    requires i < |p| && !IsBlank(p[i]) && !Live(start + Strip(p[..i]) + [p[i]])
    ensures !Live(start + Strip(p))
  {
    hide Live;
    hide Strip;
    StripNext(p, i);
    StripConcat(p[..i + 1], p[i + 1..]);
    assert p[..i + 1] + p[i + 1..] == p;
    var t := start + Strip(p[..i + 1]);
    assert t == start + Strip(p[..i]) + [p[i]];
    assert start + Strip(p) == t + Strip(p[i + 1..]);
    if Live(start + Strip(p)) {
      LivePrefix(t, Strip(p[i + 1..]));
    }
  }
}
