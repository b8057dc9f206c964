/** The incremental decoder: FITS bytes in pieces of any size to the same frame. */
module FitsWriter {
  import opened ByteText
  import opened Chunks
  import opened FitsHeader
  import opened FitsFrame

  // ---- what the bytes fed so far amount to ----

  /** Refused is final. Sized carries the layout and the data bytes fed after the header. */
  datatype Phase = Header | Refused(why: FitsError) | Sized(hdr: FitsHeader.Header, l: Layout, data: bytes)

  function PhaseOf(fl: Floats, fed: bytes): (p: Phase)
    ensures p.Sized? ==> FitsSupported(p.l.bitpix) && p.l.w > 0 && p.l.h > 0
  {
    if |fed| < BLOCK then Header else
    match ScanHeader(fed)
    case Err(e) => if IsFitsMagic(fed) then Header else Refused(e)
    case Ok(s) =>
      match Plan(fl, s.hdr)
      case Err(e) => Refused(e)
      case Ok(l) => Sized(s.hdr, l, fed[s.off..])
  }

  lemma PhaseCases(fl: Floats, fed: bytes)
    ensures |fed| < BLOCK ==> PhaseOf(fl, fed) == Header
    ensures |fed| >= BLOCK && ScanHeader(fed).Err? ==>
              PhaseOf(fl, fed) == if IsFitsMagic(fed) then Header else Refused(ScanHeader(fed).error)
    ensures |fed| >= BLOCK && ScanHeader(fed).Ok? ==>
              var s := ScanHeader(fed).value;
              PhaseOf(fl, fed) == match Plan(fl, s.hdr)
                                  case Err(e) => Refused(e)
                                  case Ok(l) => Sized(s.hdr, l, fed[s.off..])
  {
  }

  /** What the stream decoder answers for a whole payload: the batch decoder's answer, with two
      of its reasons under other names. */
  function Streamed(fl: Floats, fed: bytes): Result<Frame, FitsError> {
    match Decoded(fl, fed)
    case Err(NoEnd) => Err(NotFits)
    case Err(Short) => Err(Incomplete)
    case other => other
  }

  /** The streamed answer is a frame exactly when the batch answer is, and then the same one. It is
      Incomplete exactly when rows are missing, and a header that never ends makes it NotFits. */
  lemma StreamedAgrees(fl: Floats, fed: bytes)
    ensures Streamed(fl, fed).Ok? <==> Decoded(fl, fed).Ok?
    ensures Decoded(fl, fed).Ok? ==> Streamed(fl, fed) == Decoded(fl, fed)
    ensures Streamed(fl, fed) == Err(Incomplete) <==> Decoded(fl, fed) == Err(Short)
    ensures Streamed(fl, fed) == Err(NotFits) <==> Decoded(fl, fed) == Err(NotFits) || Decoded(fl, fed) == Err(NoEnd)
    ensures forall e :: e == BadNaxis || e == BadSize || e == BadBitpix ==>
              (Streamed(fl, fed) == Err(e) <==> Decoded(fl, fed) == Err(e))
  {
    BatchOutcome(fl, fed);
    hide Decoded;
  }

  /** What the batch decoder never answers. */
  lemma BatchOutcome(fl: Floats, fed: bytes)
    ensures Decoded(fl, fed) != Err(Incomplete) && Decoded(fl, fed) != Err(NotClosed)
  {
    hide ScanHeader;
    hide FrameOf;
    hide Plan;
    if ScanHeader(fed).Err? {
      BatchErrors(fed);
    } else {
      PlanErrors(fl, fed);
    }
  }

  lemma BatchErrors(raw: bytes)
    requires ScanHeader(raw).Err?
    ensures ScanHeader(raw).error == NotFits || ScanHeader(raw).error == NoEnd
  {
    hide ScanFrom;
    hide TrimSpace;
    if |raw| >= BLOCK {
      ScanFromErrors(raw, 0, map[]);
    }
  }

  lemma StreamedByPhase(fl: Floats, fed: bytes)
    ensures match PhaseOf(fl, fed)
            case Header => Streamed(fl, fed) == Err(NotFits)
            case Refused(e) => Streamed(fl, fed) == Err(e)
            case Sized(hdr, l, data) =>
              Streamed(fl, fed) == if |data| < l.h * Stride(l) then Err(Incomplete) else Ok(FrameOf(fl, hdr, l, data))
  {
    hide Plan;
    hide FrameOf;
    hide ScanFrom;
    if |fed| >= BLOCK {
      MagicAgrees(fed);
      ScanFromErrors(fed, 0, map[]);
    }
    PlanErrors(fl, fed);
  }

  lemma PlanErrors(fl: Floats, fed: bytes)
    ensures ScanHeader(fed).Ok? && Plan(fl, ScanHeader(fed).value.hdr).Err? ==>
              var e := Plan(fl, ScanHeader(fed).value.hdr).error;
              e == BadNaxis || e == BadSize || e == BadBitpix
  {
    hide ScanHeader;
    hide HdrInt;
  }

  lemma {:induction false} ScanFromErrors(raw: bytes, c: nat, hdr: FitsHeader.Header)
    requires c <= Cards(raw)
    ensures ScanFrom(raw, c, hdr).Err? ==> ScanFrom(raw, c, hdr).error == NoEnd
    decreases Cards(raw) - c
  {
    if c < Cards(raw) && !IsEnd(raw, c) {
      ScanFromErrors(raw, c + 1, AddCard(hdr, CardAt(raw, c)));
    }
  }

  /** More bytes never change a refusal, and only add to the data of a sized frame. */
  lemma PhaseGrows(fl: Floats, fed: bytes, more: bytes)
    ensures match PhaseOf(fl, fed)
            case Header => true
            case Refused(e) => PhaseOf(fl, fed + more) == Refused(e)
            case Sized(hdr, l, data) => PhaseOf(fl, fed + more) == Sized(hdr, l, data + more)
  {
    hide Plan;
    hide ScanFrom;
    var all := fed + more;
    if |fed| >= BLOCK {
      assert all[..6] == fed[..6];
      MagicAgrees(fed);
      MagicAgrees(all);
      match ScanHeader(fed)
      case Ok(s) =>
        assert fed[..s.off] == all[..s.off];
        ScanHeaderOnly(fed, all);
        assert all[s.off..] == fed[s.off..] + more;
      case Err(e) =>
    }
  }

  /** When the header completes, what is left over is a strict suffix of the bytes just
      passed in, and the bytes before it already hold the whole header. */
  lemma HeaderCompletes(fl: Floats, fed: bytes, p: bytes)
    requires PhaseOf(fl, fed).Header? && PhaseOf(fl, fed + p).Sized?
    ensures var ph := PhaseOf(fl, fed + p);
            var off := |fed + p| - |ph.data|;
            && |ph.data| < |p| && ph.data == p[|p| - |ph.data|..] && BLOCK <= off
            && PhaseOf(fl, (fed + p)[..off]) == Sized(ph.hdr, ph.l, [])
  {
    hide Plan;
    hide ScanFrom;
    var all := fed + p;
    var s := ScanHeader(all).value;
    assert all[..s.off][..s.off] == all[..s.off];
    ScanHeaderOnly(all, all[..s.off]);
    if s.off <= |fed| {
      assert all[..s.off] == fed[..s.off];
      ScanHeaderOnly(all, fed);
    }
    assert all[..s.off][s.off..] == [];
  }

  // ---- rows ----

  /** File row s has been written to its place in the frame. */
  predicate RowShown(fl: Floats, l: Layout, pix: seq<u16>, data: bytes, s: nat)
    requires FitsSupported(l.bitpix) && s < l.h
  {
    Chunk(pix, l.w, Flip(l, s)) == LayoutRow(fl, l, Chunk(data, Stride(l), s))
  }

  ghost predicate RowsShown(fl: Floats, l: Layout, pix: seq<u16>, data: bytes, y: nat)
    requires FitsSupported(l.bitpix) && y <= l.h
  {
    forall s: nat :: s < y ==> RowShown(fl, l, pix, data, s)
  }

  lemma RowsShownMore(fl: Floats, l: Layout, pix: seq<u16>, data: bytes, more: bytes, y: nat)
    requires FitsSupported(l.bitpix) && y <= l.h && y * Stride(l) <= |data|
    requires RowsShown(fl, l, pix, data, y)
    ensures RowsShown(fl, l, pix, data + more, y)
  {
    hide LayoutRow;
    forall s: nat | s < y
      ensures RowShown(fl, l, pix, data + more, s)
    {
      assert RowShown(fl, l, pix, data, s);
      MulMono(s + 1, y, Stride(l));
      ChunkExtend(data, more, Stride(l), s);
    }
  }

  lemma RowsShownNext(fl: Floats, l: Layout, before: seq<u16>, after: seq<u16>, data: bytes, y: nat)
    requires FitsSupported(l.bitpix) && y < l.h
    requires RowsShown(fl, l, before, data, y) && RowShown(fl, l, after, data, y)
    requires forall d: nat :: d < l.h && d != Flip(l, y) ==> Chunk(after, l.w, d) == Chunk(before, l.w, d)
    ensures RowsShown(fl, l, after, data, y + 1)
  {
    hide LayoutRow;
    hide Chunk;
    forall s: nat | s < y + 1
      ensures RowShown(fl, l, after, data, s)
    {
      if s < y {
        assert RowShown(fl, l, before, data, s);
        assert Flip(l, s) != Flip(l, y);
      }
    }
  }

  /** Once every file row is in place the frame is the batch decoder's. */
  lemma AllRowsShown(fl: Floats, l: Layout, pix: seq<u16>, data: bytes)
    requires FitsSupported(l.bitpix) && |pix| == l.w * l.h
    requires RowsShown(fl, l, pix, data, l.h)
    ensures pix == Picture(fl, l, data, l.h)
  {
    hide LayoutRow;
    hide Chunk;
    var want := Picture(fl, l, data, l.h);
    assert l.w * l.h == l.h * l.w;
    forall d: nat | d < l.h
      ensures Chunk(pix, l.w, d) == Chunk(want, l.w, d)
    {
      assert RowShown(fl, l, pix, data, Flip(l, d));
      PictureRow(fl, l, data, l.h, d);
      assert Flip(l, Flip(l, d)) == d;
    }
    ChunksDetermine(pix, want, l.w, l.h);
    assert pix[..l.h * l.w] == pix && want[..l.h * l.w] == want;
  }

  /** Bytes after the last row do not matter. */
  lemma {:induction false} PictureIgnoresRest(fl: Floats, l: Layout, data: bytes, more: bytes, n: nat)
    requires FitsSupported(l.bitpix) && n <= l.h && l.h * Stride(l) <= |data|
    ensures Picture(fl, l, data + more, n) == Picture(fl, l, data, n)
  {
    hide LayoutRow;
    if n > 0 {
      var s := Flip(l, n - 1);
      MulMono(s + 1, l.h, Stride(l));
      ChunkExtend(data, more, Stride(l), s);
      PictureIgnoresRest(fl, l, data, more, n - 1);
    }
  }

  lemma TailMore(data: bytes, src: bytes, at: nat)
    requires at <= |data|
    ensures data[at..] == data[at..|data|] && (data + src)[at..] == data[at..] + src
    ensures (data + src)[at..|data| + |src|] == data[at..] + src
  {
  }

  lemma RowFits(w: nat, h: nat, d: nat)
    requires d < h
    ensures 0 <= d * w && d * w + w <= w * h
  {
    MulMono(d, h, w);
    assert w * h == h * w;
  }

  /** Writing the elements of row d makes them chunk d and leaves the other chunks alone. */
  lemma RowWritten(before: seq<u16>, after: seq<u16>, w: nat, h: nat, d: nat)
    requires d < h && |before| == |after| == w * h
    requires forall i :: 0 <= i < |before| && !(d * w <= i < d * w + w) ==> before[i] == after[i]
    ensures 0 <= d * w && d * w + w <= |after| && Chunk(after, w, d) == after[d * w..d * w + w]
    ensures forall k: nat :: k != d ==> Chunk(after, w, k) == Chunk(before, w, k)
  {
    hide Chunk;
    assert w * h == h * w;
    ChunkSlice(after, w, d, h);
    ChunkFrameAll(before, after, w, d);
  }

  // ---- the writer ----

  class FITSWriter {
    const fl: Floats
    var hdrBuf: bytes
    var hdr: FitsHeader.Header
    var w: int
    var h: int
    var bitpix: int
    var per: int
    var stride: int
    var bzero: real
    var bscale: real
    var bottomUp: bool
    var pix: array?<u16>
    var row: array?<byte>
    var held: nat
    var y: nat
    var err: Option<FitsError>
    var done: bool
    /** Every byte taken so far. */
    ghost var fed: bytes

    ghost function Owned(): set<object>
      reads this
    {
      (if pix == null then {} else {pix as object}) + (if row == null then {} else {row as object})
    }

    ghost predicate Valid()
      reads this, Owned()
    {
      match PhaseOf(fl, fed)
      case Header =>
        pix == null && row == null && held == 0 && y == 0 && hdrBuf == fed && err == if done then Some(NotFits) else None
      case Refused(e) =>
        pix == null && row == null && err == Some(e)
      case Sized(hd, l, data) =>
        && hdr == hd && Planned(l) && Allocated(l)
        && FitsSupported(l.bitpix)
        && Progress(l, data)
        && err == if done && y < h then Some(Incomplete) else None
    }

    ghost predicate Allocated(l: Layout)
      reads `pix, `row
    {
      pix != null && row != null && pix.Length == l.w * l.h && row.Length == Stride(l)
    }

    /** The data bytes taken are y whole rows, all shown, and the held part of the next; past the
        last row nothing is held. */
    ghost predicate Progress(l: Layout, data: bytes)
      requires pix != null && row != null && FitsSupported(l.bitpix)
      reads this, pix, row
    {
      && y <= l.h && held < row.Length && (y == l.h ==> held == 0)
      && y * Stride(l) + held <= |data|
      && (y < l.h ==> y * Stride(l) + held == |data|)
      && row[..held] == data[y * Stride(l)..y * Stride(l) + held]
      && RowsShown(fl, l, pix[..], data, y)
    }

    constructor (fl: Floats)
      ensures Valid() && fed == [] && !done && this.fl == fl && Owned() == {} && err == None
    {
      this.fl := fl;
      hdrBuf, hdr := [], map[];
      w, h, bitpix, per, stride := 0, 0, 0, 0, 0;
      bzero, bscale, bottomUp := 0.0, 0.0, false;
      pix, row, held, y := null, null, 0, 0;
      err, done := None, false;
      fed := [];
    }

    static lemma Positive(a: int, b: int)
      requires a > 0 && b > 0
      ensures a * b > 0
    {
    }

    /** The scalar fields hold layout l. */
    ghost predicate Planned(l: Layout)
      reads `w, `h, `bitpix, `per, `stride, `bzero, `bscale, `bottomUp
    {
      && w == l.w && h == l.h && bitpix == l.bitpix && bzero == l.bzero && bscale == l.bscale
      && bottomUp == l.bottomUp && per == Per(bitpix) && stride == Stride(l) && stride > 0
    }

    /** Applies the rules of Plan and allocates the output. */
    method Size(hd: FitsHeader.Header) returns (e: Option<FitsError>)
      modifies `w, `h, `bitpix, `per, `stride, `bzero, `bscale, `bottomUp, `pix, `row
      ensures match Plan(fl, hd)
              case Err(why) => e == Some(why) && pix == old(pix) && row == old(row)
              case Ok(l) => e == None && Planned(l) && Allocated(l) && fresh(pix) && fresh(row)
    {
      hide Plan;
      e := ReadLayout(hd);
      if e == None {
        Allocate(Plan(fl, hd).value);
      }
    }

    /** The rules of size, and the fields they fill. */
    method ReadLayout(hd: FitsHeader.Header) returns (e: Option<FitsError>)
      modifies `w, `h, `bitpix, `per, `stride, `bzero, `bscale, `bottomUp
      ensures match Plan(fl, hd)
              case Err(why) => e == Some(why)
              case Ok(l) => e == None && Planned(l)
    {
      hide HdrInt;
      hide HdrFloat;
      hide FitsBottomUp;
      hide Ascii;
      var naxis := HdrInt(hd, Ascii("NAXIS"), 0);
      if naxis != 2 && naxis != 3 {
        return Some(BadNaxis);
      }
      w, h := HdrInt(hd, Ascii("NAXIS1"), 0), HdrInt(hd, Ascii("NAXIS2"), 0);
      if w <= 0 || h <= 0 {
        return Some(BadSize);
      }
      bitpix := HdrInt(hd, Ascii("BITPIX"), 0);
      per := Quot(bitpix, 8);
      if per < 0 {
        per := -per;
      }
      if per == 0 || !FitsSupported(bitpix) {
        return Some(BadBitpix);
      }
      bzero, bscale := HdrFloat(fl, hd, Ascii("BZERO"), 0.0), HdrFloat(fl, hd, Ascii("BSCALE"), 1.0);
      if bscale == 0.0 {
        bscale := 1.0;
      }
      bottomUp := FitsBottomUp(hd).0;
      stride := w * per;
      Positive(w, per);
      return None;
    }

    /** The two makes at the end of size. */
    method Allocate(ghost l: Layout)
      requires Planned(l)
      modifies `pix, `row
      ensures Allocated(l) && fresh(pix) && fresh(row)
    {
      pix := new u16[w * h];
      row := new byte[stride];
    }

    /** Takes p while the header is still incomplete. */
    method ConsumeHeader(p: bytes) returns (rest: bytes, ok: bool, e: Option<FitsError>)
      requires Valid() && PhaseOf(fl, fed).Header? && !done && p != []
      modifies this
      ensures !done && fresh(Owned() - old(Owned()))
      ensures match PhaseOf(fl, old(fed) + p)
              case Refused(why) => e == Some(why) && fed == old(fed) + p && pix == null && row == null
              case Header => e == None && !ok && fed == old(fed) + p && Valid()
              case Sized(_, _, _) => e == None && ok && fed + rest == old(fed) + p && |rest| < |p|
                                     && Valid() && PhaseOf(fl, fed).Sized?
    {
      hide PhaseOf;
      hide ScanHeader;
      hide Plan;
      hide IsFitsMagic;
      hide LayoutRow;
      hide Planned;
      hide Allocated;
      hide RowsShown;
      hdrBuf := hdrBuf + p;
      fed := fed + p;
      PhaseCases(fl, fed);
      if |hdrBuf| < BLOCK {
        return [], false, None;
      }
      var scanned := ScanFITSHeader(hdrBuf);
      if scanned.Err? {
        if |hdrBuf| >= BLOCK && !IsFitsMagic(hdrBuf) {
          return [], false, Some(scanned.error);
        }
        return [], false, None;
      }
      var refused := Size(scanned.value.hdr);
      if refused.Some? {
        return [], false, refused;
      }
      HeaderCompletes(fl, old(fed), p);
      rest := DataBehind(scanned.value);
      return rest, true, None;
    }

    /** The header is complete and the output allocated: what follows the header is handed back. */
    method DataBehind(s: Scanned) returns (rest: bytes)
      requires hdrBuf == fed && s.off <= |fed| && Plan(fl, s.hdr).Ok? && !done && err == None && held == 0 && y == 0
      requires var l := Plan(fl, s.hdr).value;
               Planned(l) && Allocated(l) && PhaseOf(fl, fed[..s.off]) == Sized(s.hdr, l, [])
      modifies `hdr, `hdrBuf, `fed
      ensures Valid() && PhaseOf(fl, fed).Sized? && fed + rest == old(fed) && rest == old(fed)[s.off..]
    {
      hide PhaseOf;
      hide Plan;
      hide Planned;
      hide Allocated;
      assert fed[..s.off] + fed[s.off..] == fed;
      hdr := s.hdr;
      rest := hdrBuf[s.off..];
      fed := hdrBuf[..s.off];
      hdrBuf := [];
      Started(Plan(fl, hdr).value);
    }

    /** With the output allocated and no data taken, the writer is at the start of the data. */
    lemma Started(l: Layout)
      requires PhaseOf(fl, fed) == Sized(hdr, l, [])
      requires Planned(l) && Allocated(l) && held == 0 && y == 0 && !done && err == None
      ensures Valid()
    {
      hide PhaseOf;
      hide LayoutRow;
    }

    /** Shows file row y, bytes src, at its place in the frame. */
    method Convert(src: bytes)
      requires pix != null && 0 <= w && y < h && pix.Length == w * h
      requires FitsSupported(bitpix) && |src| == w * Per(bitpix)
      modifies `y, pix
      ensures y == old(y) + 1
      ensures var d := if bottomUp then h - 1 - old(y) else old(y);
              && Chunk(pix[..], w, d) == ConvertRow(fl, w, bitpix, bzero, bscale, src)
              && forall k: nat :: k < h && k != d ==> Chunk(pix[..], w, k) == old(Chunk(pix[..], w, k))
    {
      hide ConvertRow;
      hide Chunk;
      var dst := y;
      if bottomUp {
        dst := h - 1 - y;
      }
      ghost var before := pix[..];
      RowFits(w, h, dst);
      ConvertFITSRow(fl, pix, dst * w, w, src, bitpix, bzero, bscale);
      RowWritten(before, pix[..], w, h, dst);
      y := y + 1;
    }

    /** Shows src, the bytes of file row y, when data already ends with them. */
    method ShowRow(ghost l: Layout, ghost data: bytes, src: bytes)
      requires Planned(l) && Allocated(l) && FitsSupported(l.bitpix) && y < l.h
      requires |data| == y * Stride(l) + Stride(l) && data[y * Stride(l)..] == src
      requires RowsShown(fl, l, pix[..], data, y)
      modifies `y, pix
      ensures y == old(y) + 1 && RowsShown(fl, l, pix[..], data, y)
      ensures |data| == y * Stride(l)
    {
      hide Chunk;
      ghost var before := pix[..];
      Convert(src);
      assert (old(y) + 1) * Stride(l) == old(y) * Stride(l) + Stride(l);
      ChunkSlice(data, Stride(l), old(y), old(y) + 1);
      assert data[old(y) * Stride(l)..old(y) * Stride(l) + Stride(l)] == src;
      RowsShownNext(fl, l, before, pix[..], data, old(y));
    }

    /** A whole row in hand and nothing carried over. */
    method TakeRow(src: bytes)
      requires Valid() && PhaseOf(fl, fed).Sized? && !done && y < h && held == 0 && |src| == stride
      modifies `y, `fed, pix
      ensures Valid() && fed == old(fed) + src && PhaseOf(fl, fed).Sized?
    {
      hide PhaseOf;
      hide LayoutRow;
      hide RowsShown;
      PhaseGrows(fl, fed, src);
      ghost var l, data := PhaseOf(fl, fed).l, PhaseOf(fl, fed).data;
      RowsShownMore(fl, l, pix[..], data, src, y);
      ShowRow(l, data + src, src);
      fed := fed + src;
      assert row[..0] == [] == (data + src)[y * Stride(l)..];
    }

    /** copy(f.row[f.held:], src). */
    method Hold(src: bytes)
      requires row != null && held + |src| <= row.Length
      modifies `held, row
      ensures held == old(held) + |src|
      ensures row[..held] == old(row[..held]) + src
    {
      forall i | 0 <= i < |src| {
        row[held + i] := src[i];
      }
      held := held + |src|;
    }

    /** Part of a row: copied behind what is held, and shown when it completes the row. */
    method TakePart(src: bytes)
      requires Valid() && PhaseOf(fl, fed).Sized? && !done && y < h && 0 < |src| <= stride - held
      modifies `held, `y, `fed, pix, row
      ensures Valid() && fed == old(fed) + src && PhaseOf(fl, fed).Sized?
    {
      hide PhaseOf;
      hide LayoutRow;
      hide RowsShown;
      PhaseGrows(fl, fed, src);
      ghost var l, data := PhaseOf(fl, fed).l, PhaseOf(fl, fed).data;
      ghost var at := y * Stride(l);
      RowsShownMore(fl, l, pix[..], data, src, y);
      TailMore(data, src, at);
      Hold(src);
      fed := fed + src;
      data := data + src;
      if held == stride {
        ShowHeld(l, data);
      }
      InRow(l, data);
    }

    /** The row in hand is complete. */
    method ShowHeld(ghost l: Layout, ghost data: bytes)
      requires Planned(l) && Allocated(l) && FitsSupported(l.bitpix) && y < l.h && held == stride
      requires |data| == y * Stride(l) + Stride(l) && data[y * Stride(l)..] == row[..held]
      requires RowsShown(fl, l, pix[..], data, y)
      modifies `held, `y, pix
      ensures Progress(l, data)
    {
      hide LayoutRow;
      hide RowsShown;
      assert row[..held] == row[..];
      ShowRow(l, data, row[..]);
      held := 0;
      assert row[..0] == data[|data|..|data|];
    }

    lemma InRow(l: Layout, data: bytes)
      requires PhaseOf(fl, fed) == Sized(hdr, l, data) && Planned(l) && Allocated(l) && FitsSupported(l.bitpix)
      requires Progress(l, data) && !done && err == None
      ensures Valid()
    {
      hide PhaseOf;
      hide Progress;
    }

    /** Padding after the last row. */
    ghost method Skip(src: bytes)
      requires Valid() && PhaseOf(fl, fed).Sized? && y >= h
      modifies `fed
      ensures Valid() && fed == old(fed) + src && PhaseOf(fl, fed).Sized?
    {
      hide PhaseOf;
      hide LayoutRow;
      hide RowsShown;
      PhaseGrows(fl, fed, src);
      ghost var l, data := PhaseOf(fl, fed).l, PhaseOf(fl, fed).data;
      RowsShownMore(fl, l, pix[..], data, src, y);
      fed := fed + src;
      assert row[..held] == (data + src)[y * Stride(l)..y * Stride(l) + held];
    }

    /** One turn of the loop of Write: at least one byte of p is taken. */
    method Turn(p: bytes) returns (rest: bytes)
      requires Valid() && err == None && p != []
      modifies this, Owned()
      ensures Valid() && fresh(Owned() - old(Owned())) && done == old(done)
      ensures fed + rest == old(fed) + p && |rest| < |p| && (err.Some? ==> rest == [])
    {
      hide PhaseOf;
      hide LayoutRow;
      hide RowsShown;
      if pix == null {
        var ok, bad;
        rest, ok, bad := ConsumeHeader(p);
        if bad.Some? {
          err := bad;
          return [];
        }
        return if ok then rest else [];
      }
      if y >= h {
        Skip(p);
        return [];
      }
      if held == 0 && |p| >= stride {
        TakeRow(p[..stride]);
        return p[stride..];
      }
      var take := stride - held;
      if take > |p| {
        take := |p|;
      }
      TakePart(p[..take]);
      return p[take..];
    }

    /** Takes buf[..n]. The bytes are copied out before Write returns, so the caller may reuse buf. */
    method Write(buf: array<byte>, n: nat) returns (k: nat, e: Option<FitsError>)
      requires Valid() && n <= buf.Length
      modifies this, Owned()
      ensures Valid() && fresh(Owned() - old(Owned())) && done == old(done)
      ensures fed == if old(err).Some? then old(fed) else old(fed) + old(buf[..n])
      ensures e == err && k == if err == None then n else 0
    {
      hide Valid;
      if err.Some? {
        return 0, err;
      }
      ghost var given := buf[..n];
      var p := buf[..n];
      while |p| > 0
        invariant Valid() && done == old(done) && fresh(Owned() - old(Owned()))
        invariant fed + p == old(fed) + given && err == None
        decreases |p|
      {
        p := Turn(p);
        if err.Some? {
          return 0, err;
        }
      }
      assert fed + [] == fed;
      return n, None;
    }

    /** Whether all the rows have arrived, told from the row counter. */
    lemma RowsArrived()
      requires Valid() && PhaseOf(fl, fed).Sized?
      ensures var ph := PhaseOf(fl, fed); y < h <==> |ph.data| < ph.l.h * Stride(ph.l)
    {
      hide PhaseOf;
      hide LayoutRow;
      hide RowsShown;
      var l := PhaseOf(fl, fed).l;
      if y < h {
        MulMono(y + 1, l.h, Stride(l));
        assert (y + 1) * Stride(l) == y * Stride(l) + Stride(l);
      }
    }

    /** Before Close an error can only be a refusal, which no later byte undoes. */
    lemma RefusedForGood()
      requires Valid() && err.Some? && !done
      ensures forall more: bytes :: Streamed(fl, fed + more) == Err(err.value)
    {
      hide PhaseOf;
      hide LayoutRow;
      hide Streamed;
      forall more: bytes
        ensures Streamed(fl, fed + more) == Err(err.value)
      {
        PhaseGrows(fl, fed, more);
        StreamedByPhase(fl, fed + more);
      }
    }

    /** Ends the payload. The verdict is that of the whole payload. */
    method Close() returns (e: Option<FitsError>)
      requires Valid()
      modifies `err, `done
      ensures Valid() && e == err && (err.Some? || done)
      ensures match Streamed(fl, fed)
              case Ok(_) => e == None
              case Err(why) => e == Some(why)
    {
      hide PhaseOf;
      hide LayoutRow;
      hide RowsShown;
      hide Streamed;
      hide FrameOf;
      StreamedByPhase(fl, fed);
      if PhaseOf(fl, fed).Sized? {
        RowsArrived();
      }
      if err.Some? {
        return err;
      }
      done := true;
      if pix == null {
        err := Some(NotFits);
        return err;
      }
      if y < h {
        err := Some(Incomplete);
        return err;
      }
      return None;
    }

    /** The decoded payload, once Close has accepted it. */
    method Frame() returns (r: Result<FitsFrame.Frame, FitsError>)
      requires Valid()
      ensures err == None && !done ==> r == Err(NotClosed)
      ensures err.Some? || done ==> r == Streamed(fl, fed)
    {
      hide PhaseOf;
      hide LayoutRow;
      hide Streamed;
      hide FitsMosaic;
      hide Picture;
      StreamedByPhase(fl, fed);
      if PhaseOf(fl, fed).Sized? {
        RowsArrived();
      }
      if err.Some? {
        return Err(err.value);
      }
      if !done {
        return Err(NotClosed);
      }
      ghost var l := PhaseOf(fl, fed).l;
      AllRowsShown(fl, l, pix[..], PhaseOf(fl, fed).data);
      PhaseMosaiced(fl, fed);
      var fr := FitsFrame.Frame.Frame(w, h, pix[..], false, 0, 0, bitpix, hdr);
      if HdrInt(hdr, Ascii("NAXIS"), 0) == 2 {
        fr := FitsMosaic(fr, hdr, bottomUp);
      }
      return Ok(fr);
    }
  }

  lemma PhaseMosaiced(fl: Floats, fed: bytes)
    ensures var ph := PhaseOf(fl, fed);
            ph.Sized? ==> (ph.l.mosaiced <==> HdrInt(ph.hdr, Ascii("NAXIS"), 0) == 2)
  {
    hide ScanHeader;
    hide HdrInt;
  }

  /** Feeds the pieces through one reused buffer, closes, and asks for the frame, as a sink's
      caller does; a refused write ends it early. However the payload is cut, the answer is
      the one for the whole. */
  method StreamDecode(fl: Floats, pieces: seq<bytes>) returns (r: Result<Frame, FitsError>)
    ensures r == Streamed(fl, Flat(pieces))
  {
    hide FITSWriter.Valid;
    hide Streamed;
    var f := new FITSWriter(fl);
    var buf := new byte[0];
    var i := 0;
    while i < |pieces|
      invariant 0 <= i <= |pieces|
      invariant f.Valid() && !f.done && f.err == None && f.fl == fl
      invariant fresh(f) && fresh(f.Owned()) && fresh(buf) && buf !in f.Owned()
      invariant f.fed == Flat(pieces[..i])
    {
      var piece := pieces[i];
      if buf.Length < |piece| {
        buf := new byte[|piece|];
      }
      forall j | 0 <= j < |piece| {
        buf[j] := piece[j];
      }
      assert buf[..|piece|] == piece;
      var _, e := f.Write(buf, |piece|);
      assert pieces[..i + 1][..i] == pieces[..i];
      if e.Some? {
        f.RefusedForGood();
        FlatSplit(pieces, i + 1);
        return Err(e.value);
      }
      i := i + 1;
    }
    assert pieces[..i] == pieces;
    var e := f.Close();
    r := f.Frame();
  }
}
