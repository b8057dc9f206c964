/** A FITS file read straight off its bytes, in plain numbers, and the proof that the decoder's frame
    is what the file says: its header, its refusals, every pixel, the row order, the mosaic. */
module FitsReading {
  import opened ByteText
  import opened Chunks
  import opened FitsHeader
  import opened FitsFrame

  // ---- the value of a card ----

  /** What a quoted value says, up to the first quote that is not doubled. */
  lemma {:induction false} UnquoteMeaning(s: bytes) returns (rest: bytes)
    ensures s == Doubled(Unquote(s)) + rest
    ensures rest == [] || (rest[0] == 39 && (|rest| == 1 || rest[1] != 39))
  {
    hide Doubled;
    if s == [] {
      rest := [];
      DoubledNone();
    } else if s[0] != QUOTE {
      rest := UnquoteMeaning(s[1..]);
      DoubledCons(s[0], Unquote(s[1..]));
      assert s == [s[0]] + s[1..];
      Regroup([s[0]], Doubled(Unquote(s[1..])), rest);
    } else if |s| > 1 && s[1] == QUOTE {
      rest := UnquoteMeaning(s[2..]);
      DoubledCons(QUOTE, Unquote(s[2..]));
      assert s == [39, 39] + s[2..];
      Regroup([39, 39], Doubled(Unquote(s[2..])), rest);
    } else {
      rest := s;
      DoubledNone();
    }
  }

  lemma DoubledCons(x: byte, s: bytes)
    ensures Doubled([x] + s) == (if x == 39 then [39, 39] else [x]) + Doubled(s)
  {
    assert ([x] + s)[1..] == s;
  }

  lemma BeforeSlashMeaning(s: bytes)
    ensures BeforeSlash(s) == s[..|BeforeSlash(s)|] && forall i :: 0 <= i < |BeforeSlash(s)| ==> s[i] != 47
    ensures |BeforeSlash(s)| < |s| ==> s[|BeforeSlash(s)|] == 47
  {
    var t := BeforeSlash(s);
    assert forall i :: 0 <= i < |t| ==> t[i] in t;
  }

  /** A field that begins with a quote holds the text up to the next quote that is not doubled, less
      its trailing blanks; any other, the text before the first slash, trimmed. */
  lemma CardValueMeaning(v: bytes) returns (u: bytes, rest: bytes)
    ensures var t := TrimSpace(v);
            t != [] && t[0] == 39 ==>
              && t == [39] + Doubled(u) + rest && (rest == [] || (rest[0] == 39 && (|rest| == 1 || rest[1] != 39)))
              && CardValue(v) == TrimBlanks(u)
    ensures var t := TrimSpace(v);
            t == [] || t[0] != 39 ==>
              && t == u + rest && (forall i :: 0 <= i < |u| ==> u[i] != 47) && (rest == [] || rest[0] == 47)
              && CardValue(v) == TrimSpace(u)
  {
    hide TrimSpace;
    hide TrimBlanks;
    hide Unquote;
    hide Doubled;
    hide BeforeSlash;
    var t := TrimSpace(v);
    if |t| > 0 && t[0] == QUOTE {
      u := Unquote(t[1..]);
      rest := UnquoteMeaning(t[1..]);
      assert t == [39] + t[1..];
      Regroup([39], Doubled(u), rest);
    } else {
      u := BeforeSlash(t);
      rest := t[|u|..];
      BeforeSlashMeaning(t);
    }
  }

  // ---- the header ----

  /** Card c is in a whole block. */
  predicate Whole(raw: bytes, c: nat): (r: bool)
    ensures r ==> 80 * c + 80 <= |raw|
  {
    2880 * (c / 36) + 2880 <= |raw|
  }

  predicate EndCard(raw: bytes, c: nat) {
    Whole(raw, c) && TrimSpace(raw[80 * c..80 * c + 8]) == Ascii("END")
  }

  predicate FirstEnd(raw: bytes, e: nat) {
    EndCard(raw, e) && forall c: nat :: c < e ==> !EndCard(raw, c)
  }

  /** Card c gives k a value: the keyword in its first eight columns, and an equals sign after it. */
  predicate Gives(raw: bytes, c: nat, k: bytes) {
    k != [] && Whole(raw, c) && TrimSpace(raw[80 * c..80 * c + 8]) == k && raw[80 * c + 8] == 61
  }

  ghost predicate Given(raw: bytes, e: nat, k: bytes) {
    exists c: nat :: c < e && Gives(raw, c, k)
  }

  predicate LastGives(raw: bytes, c: nat, e: nat, k: bytes) {
    c < e && Gives(raw, c, k) && forall d: nat :: c < d < e ==> !Gives(raw, d, k)
  }

  /** hdr is what the cards before card e say: the keywords they give, each with the value of the last
      card that gives it one. */
  ghost predicate Says(raw: bytes, e: nat, hdr: Header) {
    && (forall k :: k in hdr <==> Given(raw, e, k))
    && (forall c: nat, k :: LastGives(raw, c, e, k) ==> k in hdr && hdr[k] == CardValue(raw[80 * c + 9..80 * c + 80]))
  }

  predicate Simple(raw: bytes) {
    |raw| >= 2880 && raw[..6] == Ascii("SIMPLE")
  }

  lemma WholeIsCard(raw: bytes, c: nat)
    ensures Whole(raw, c) <==> c < Cards(raw)
  {
    var b := |raw| / 2880;
    assert c / 36 < b <==> c < b * 36;
  }

  lemma CardIs(raw: bytes, c: nat)
    ensures Whole(raw, c) <==> c < Cards(raw)
    ensures Whole(raw, c) ==>
              var card := CardAt(raw, c);
              && card[..8] == raw[80 * c..80 * c + 8] && card[8] == raw[80 * c + 8]
              && card[9..] == raw[80 * c + 9..80 * c + 80]
              && (IsEnd(raw, c) <==> EndCard(raw, c))
    ensures forall k :: StatesKey(raw, c, k) <==> Gives(raw, c, k)
  {
    hide TrimSpace;
    WholeIsCard(raw, c);
  }

  lemma FirstEndIs(raw: bytes, e: nat)
    ensures EndsAt(raw, e) <==> FirstEnd(raw, e)
  {
    hide Whole;
    hide Cards;
    hide EndCard;
    hide IsEnd;
    CardIs(raw, e);
    if e < Cards(raw) {
      forall c: nat | c < e
        ensures c < Cards(raw) && (IsEnd(raw, c) <==> EndCard(raw, c))
      {
        CardIs(raw, c);
      }
    }
    assert EndCard(raw, e) ==> Whole(raw, e) by { EndIsWhole(raw, e); }
  }

  lemma EndIsWhole(raw: bytes, e: nat)
    ensures EndCard(raw, e) ==> Whole(raw, e)
  {
  }

  lemma SaysCollected(raw: bytes, e: nat, hdr: Header)
    requires Collected(raw, e, hdr)
    ensures Says(raw, e, hdr)
  {
    hide StatesKey;
    hide Gives;
    hide CardValue;
    hide CardAt;
    hide Cards;
    hide Whole;
    forall k
      ensures k in hdr <==> Given(raw, e, k)
    {
      if k in hdr {
        assert Stated(raw, e, k);
        var c: nat :| c < e && StatesKey(raw, c, k);
        CardIs(raw, c);
      }
      if Given(raw, e, k) {
        var c: nat :| c < e && Gives(raw, c, k);
        CardIs(raw, c);
      }
    }
    forall c: nat, k | LastGives(raw, c, e, k)
      ensures k in hdr && Whole(raw, c) && hdr[k] == CardValue(raw[80 * c + 9..80 * c + 80])
    {
      CardIs(raw, c);
      GivesIsWhole(raw, c, k);
      forall d: nat | c < d < e
        ensures !StatesKey(raw, d, k)
      {
        CardIs(raw, d);
      }
      assert LastStates(raw, c, e, k);
    }
  }

  lemma GivesIsWhole(raw: bytes, c: nat, k: bytes)
    ensures Gives(raw, c, k) ==> Whole(raw, c)
  {
  }

  lemma {:induction false} LastExists(raw: bytes, e: nat, k: bytes, c: nat) returns (last: nat)
    requires c < e && Gives(raw, c, k)
    ensures LastGives(raw, last, e, k)
    decreases e - c
  {
    hide Gives;
    if d: nat :| c < d < e && Gives(raw, d, k) {
      last := LastExists(raw, e, k, d);
    } else {
      last := c;
    }
  }

  /** The cards determine the header. */
  lemma SaysOne(raw: bytes, e: nat, a: Header, b: Header)
    requires Says(raw, e, a) && Says(raw, e, b)
    ensures a == b
  {
    hide Gives;
    hide CardValue;
    hide LastGives;
    forall k | k in a
      ensures k in b && a[k] == b[k]
    {
      assert Given(raw, e, k);
      var c: nat :| c < e && Gives(raw, c, k);
      var last := LastExists(raw, e, k, c);
    }
    forall k | k in b
      ensures k in a
    {
    }
  }

  /** The header of a file, and where its data begin. */
  lemma HeaderReading(raw: bytes)
    ensures !Simple(raw) ==> ScanHeader(raw) == Err(NotFits)
    ensures Simple(raw) && (forall e: nat :: !FirstEnd(raw, e)) ==> ScanHeader(raw) == Err(NoEnd)
    ensures forall e: nat, hdr :: Simple(raw) && FirstEnd(raw, e) && Says(raw, e, hdr) ==>
              ScanHeader(raw) == Ok(Scanned(hdr, 2880 * (e / 36) + 2880))
    ensures forall e: nat :: Simple(raw) && FirstEnd(raw, e) ==>
              ScanHeader(raw).Ok? && Says(raw, e, ScanHeader(raw).value.hdr)
  {
    hide ScanFrom;
    hide TrimSpace;
    hide Collected;
    hide Says;
    hide FirstEnd;
    hide EndsAt;
    if |raw| >= 2880 {
      MagicAgrees(raw);
      ScanErrors(raw, 0, map[]);
    }
    HeaderMeaning(raw);
    forall e: nat
      ensures EndsAt(raw, e) <==> FirstEnd(raw, e)
    {
      FirstEndIs(raw, e);
    }
    forall e: nat, hdr | Simple(raw) && FirstEnd(raw, e) && Says(raw, e, hdr)
      ensures ScanHeader(raw) == Ok(Scanned(hdr, 2880 * (e / 36) + 2880))
    {
      SaysCollected(raw, e, ScanHeader(raw).value.hdr);
      SaysOne(raw, e, hdr, ScanHeader(raw).value.hdr);
    }
    forall e: nat | Simple(raw) && FirstEnd(raw, e)
      ensures ScanHeader(raw).Ok? && Says(raw, e, ScanHeader(raw).value.hdr)
    {
      SaysCollected(raw, e, ScanHeader(raw).value.hdr);
    }
  }

  lemma {:induction false} ScanErrors(raw: bytes, c: nat, hdr: Header)
    requires c <= Cards(raw)
    ensures ScanFrom(raw, c, hdr).Err? ==> ScanFrom(raw, c, hdr).error == NoEnd
    decreases Cards(raw) - c
  {
    hide Cards;
    hide IsEnd;
    hide AddCard;
    hide CardAt;
    hide ScanFrom;
    ScanStep(raw, c, hdr);
    if c < Cards(raw) && !IsEnd(raw, c) {
      ScanErrors(raw, c + 1, AddCard(hdr, CardAt(raw, c)));
    }
  }

  // ---- numbers ----

  /** The integer a header gives for k, or def when it gives none. */
  function IntAt(hdr: Header, k: bytes, def: int): int {
    if k in hdr && Atoi(TrimSpace(hdr[k])).Some? then Atoi(TrimSpace(hdr[k])).value else def
  }

  /** The number a header gives for k. An integer no float64 need round is itself. */
  function RealAt(fl: Floats, hdr: Header, k: bytes, def: real): real {
    if k !in hdr then def else
    var t := TrimSpace(hdr[k]);
    var n := Integer(t);
    if n.Some? && -9007199254740992 <= n.value <= 9007199254740992 then n.value as real
    else if fl.parse(t).Some? then fl.parse(t).value else def
  }

  lemma NumbersAre(fl: Floats, hdr: Header, k: bytes, n: int, r: real)
    ensures HdrInt(hdr, k, n) == IntAt(hdr, k, n) && HdrFloat(fl, hdr, k, r) == RealAt(fl, hdr, k, r)
  {
    hide TrimSpace;
    hide Integer;
  }

  /** Bytes per sample; 0 for a BITPIX there is no decoding for. */
  function Width(bitpix: int): nat {
    if bitpix == 8 then 1 else if bitpix == 16 then 2 else if bitpix == 32 || bitpix == -32 then 4
    else if bitpix == -64 then 8 else 0
  }

  lemma WidthIs(bitpix: int)
    ensures Width(bitpix) > 0 <==> FitsSupported(bitpix)
    ensures FitsSupported(bitpix) ==> Width(bitpix) == Per(bitpix) > 0
  {
  }

  /** The scale factor, which 0 leaves at 1. */
  function ScaleAt(fl: Floats, hdr: Header): real {
    if RealAt(fl, hdr, Ascii("BSCALE"), 1.0) == 0.0 then 1.0 else RealAt(fl, hdr, Ascii("BSCALE"), 1.0)
  }

  /** The rows of the file run from the bottom up. */
  predicate BottomUp(hdr: Header) {
    Ascii("ROWORDER") in hdr &&
    ToUpper(TrimSpace(hdr[Ascii("ROWORDER")])) in
      [Ascii("BOTTOM-UP"), Ascii("BOTTOMUP"), Ascii("BOTTOM_UP")]
  }

  lemma BottomUpIs(hdr: Header)
    ensures FitsBottomUp(hdr).0 <==> BottomUp(hdr)
    ensures FitsBottomUp(hdr).1 <==>
              BottomUp(hdr) || (Ascii("ROWORDER") in hdr &&
                                ToUpper(TrimSpace(hdr[Ascii("ROWORDER")])) in
                                  [Ascii("TOP-DOWN"), Ascii("TOPDOWN"), Ascii("TOP_DOWN")])
  {
    hide TrimSpace;
    hide ToUpper;
    hide Ascii;
  }

  lemma PlanIs(fl: Floats, hdr: Header)
    ensures var naxis, w, h, bitpix := IntAt(hdr, Ascii("NAXIS"), 0), IntAt(hdr, Ascii("NAXIS1"), 0),
                                       IntAt(hdr, Ascii("NAXIS2"), 0), IntAt(hdr, Ascii("BITPIX"), 0);
            Plan(fl, hdr) ==
              if naxis != 2 && naxis != 3 then Err(BadNaxis)
              else if w <= 0 || h <= 0 then Err(BadSize)
              else if Width(bitpix) == 0 then Err(BadBitpix)
              else Ok(Layout(w, h, bitpix, RealAt(fl, hdr, Ascii("BZERO"), 0.0), ScaleAt(fl, hdr), BottomUp(hdr),
                             naxis == 2))
  {
    hide Ascii;
    hide HdrInt;
    hide HdrFloat;
    hide IntAt;
    hide RealAt;
    hide FitsBottomUp;
    hide BottomUp;
    NumbersAre(fl, hdr, Ascii("NAXIS"), 0, 0.0);
    NumbersAre(fl, hdr, Ascii("NAXIS1"), 0, 0.0);
    NumbersAre(fl, hdr, Ascii("NAXIS2"), 0, 0.0);
    NumbersAre(fl, hdr, Ascii("BITPIX"), 0, 0.0);
    NumbersAre(fl, hdr, Ascii("BZERO"), 0, 0.0);
    NumbersAre(fl, hdr, Ascii("BSCALE"), 0, 1.0);
    WidthIs(HdrInt(hdr, Ascii("BITPIX"), 0));
    BottomUpIs(hdr);
  }

  // ---- which files are accepted ----

  /** A file is refused for its first fault, in this order; otherwise it is a frame with the
      dimensions and the header the file states. */
  lemma DecodeReading(fl: Floats, raw: bytes, e: nat, hdr: Header)
    ensures !Simple(raw) ==> Decoded(fl, raw) == Err(NotFits)
    ensures Simple(raw) && (forall e: nat :: !FirstEnd(raw, e)) ==> Decoded(fl, raw) == Err(NoEnd)
    ensures Simple(raw) && FirstEnd(raw, e) && Says(raw, e, hdr) ==>
              var naxis, w, h, bitpix := IntAt(hdr, Ascii("NAXIS"), 0), IntAt(hdr, Ascii("NAXIS1"), 0),
                                         IntAt(hdr, Ascii("NAXIS2"), 0), IntAt(hdr, Ascii("BITPIX"), 0);
              var r := Decoded(fl, raw);
              if naxis != 2 && naxis != 3 then r == Err(BadNaxis)
              else if w <= 0 || h <= 0 then r == Err(BadSize)
              else if Width(bitpix) == 0 then r == Err(BadBitpix)
              else if |raw| - (2880 * (e / 36) + 2880) < w * h * Width(bitpix) then r == Err(Short)
              else r.Ok? && r.value.width == w && r.value.height == h && |r.value.pix| == w * h
                   && r.value.bitPix == bitpix && r.value.header == hdr
  {
    hide ScanHeader;
    hide Plan;
    hide Says;
    hide FirstEnd;
    hide IntAt;
    hide RealAt;
    hide FrameOf;
    hide Width;
    HeaderReading(raw);
    if Simple(raw) && FirstEnd(raw, e) && Says(raw, e, hdr) {
      PlanIs(fl, hdr);
      if Plan(fl, hdr).Ok? {
        var l := Plan(fl, hdr).value;
        WidthIs(l.bitpix);
        SizeIs(l);
        FrameShape(fl, hdr, l, raw[2880 * (e / 36) + 2880..]);
      }
    }
  }

  lemma SizeIs(l: Layout)
    ensures l.h * Stride(l) == l.w * l.h * Per(l.bitpix) && l.h * l.w == l.w * l.h
  {
    Rearrange(l.h, l.w, Per(l.bitpix));
  }

  lemma FrameShape(fl: Floats, hdr: Header, l: Layout, data: bytes)
    requires FitsSupported(l.bitpix)
    ensures var fr := FrameOf(fl, hdr, l, data);
            && fr.width == l.w && fr.height == l.h && fr.bitPix == l.bitpix && fr.header == hdr
            && fr.pix == Picture(fl, l, data, l.h) && |fr.pix| == l.w * l.h
  {
    hide Picture;
    hide HeaderPhase;
    hide HdrInt;
    assert l.w * l.h == l.h * l.w;
  }

  // ---- what every pixel is ----

  /** p is the 16-bit number for the physical value v: the nearest, halves upward, and the end of the
      range outside it. */
  predicate Nearest(p: int, v: real) {
    if v <= 0.0 then p == 0
    else if v >= 65535.0 then p == 65535
    else p as real <= v + 0.5 < p as real + 1.0
  }

  /** p is the sample for the stored integer n. */
  predicate Stands(p: int, n: int, bscale: real, bzero: real) {
    Nearest(p, n as real * bscale + bzero)
  }

  lemma ClampStands(n: int, bscale: real, bzero: real)
    ensures Stands(ClampADU(Physical(n, bscale, bzero)) as int, n, bscale, bzero)
  {
  }

  /** p is the sample the bytes b stand for: 8-bit unsigned, 16- and 32-bit in two's complement with
      the high byte first, scaled and offset. A floating-point sample is left to fl. */
  predicate Means(fl: Floats, bitpix: int, bzero: real, bscale: real, b: bytes, p: u16) {
    && |b| == Width(bitpix)
    && (bitpix == 8 ==> Stands(p as int, b[0] as int, bscale, bzero))
    && (bitpix == 16 ==>
          Stands(p as int, b[0] as int * 256 + b[1] as int - (if b[0] >= 128 then 65536 else 0), bscale, bzero))
    && (bitpix == 32 ==>
          Stands(p as int,
                 b[0] as int * 16777216 + b[1] as int * 65536 + b[2] as int * 256 + b[3] as int
                 - (if b[0] >= 128 then 4294967296 else 0), bscale, bzero))
    && (bitpix < 0 ==> p == fl.sample(bitpix, b, bzero, bscale))
  }

  lemma SampleMeans(fl: Floats, bitpix: int, bzero: real, bscale: real, b: bytes)
    requires FitsSupported(bitpix) && |b| == Width(bitpix)
    ensures Means(fl, bitpix, bzero, bscale, b, Sample(fl, bitpix, bzero, bscale, b))
  {
    hide Sample;
    hide ClampADU;
    hide Stands;
    hide Physical;
    hide Int16;
    hide Int32;
    hide BE16;
    hide BE32;
    WidthIs(bitpix);
    SampleByBranch(fl, bitpix, bzero, bscale, b);
    if bitpix == 8 {
      ClampStands(b[0] as int, bscale, bzero);
    } else if bitpix == 16 {
      Signed16(b[0], b[1]);
      ClampStands(Int16(BE16(b[0], b[1])), bscale, bzero);
    } else if bitpix == 32 {
      Signed32(b);
      ClampStands(Int32(BE32(b)), bscale, bzero);
    }
  }

  lemma Signed16(hi: byte, lo: byte)
    ensures Int16(BE16(hi, lo)) == hi as int * 256 + lo as int - (if hi >= 128 then 65536 else 0)
  {
  }

  lemma Signed32(b: bytes)
    requires |b| == 4
    ensures Int32(BE32(b)) == b[0] as int * 16777216 + b[1] as int * 65536 + b[2] as int * 256 + b[3] as int
                              - (if b[0] >= 128 then 4294967296 else 0)
  {
  }

  /** The row of the file that is row y of the frame. */
  function FileRow(hdr: Header, h: nat, y: nat): int {
    if BottomUp(hdr) then h - 1 - y else y
  }

  /** Where the data begin, and column x of row `row` in them. */
  function Place(e: nat, w: int, per: int, row: int, x: int): int {
    2880 * (e / 36) + 2880 + (row * w + x) * per
  }

  /** Pixel (x, y) of the frame is the sample of the bytes at `at`. */
  predicate ReadFrom(fl: Floats, raw: bytes, fr: Frame, x: nat, y: nat, at: int) {
    var per := Width(fr.bitPix);
    && 0 <= y * fr.width + x < |fr.pix| && 0 <= at && at + per <= |raw| && per > 0
    && Means(fl, fr.bitPix, RealAt(fl, fr.header, Ascii("BZERO"), 0.0), ScaleAt(fl, fr.header), raw[at..at + per],
             fr.pix[y * fr.width + x])
  }

  /** Every accepted file: pixel (x, y) of the frame is the sample of column x in file row h - 1 - y
      when ROWORDER is one of the three spellings of bottom-up, and in file row y when it is anything
      else or not there. */
  lemma PixelReading(fl: Floats, raw: bytes, e: nat, x: nat, y: nat)
    requires Decoded(fl, raw).Ok? && FirstEnd(raw, e)
    requires x < Decoded(fl, raw).value.width && y < Decoded(fl, raw).value.height
    ensures var fr := Decoded(fl, raw).value;
            var v := if Ascii("ROWORDER") in fr.header then ToUpper(TrimSpace(fr.header[Ascii("ROWORDER")])) else [];
            var row := if v == Ascii("BOTTOM-UP") || v == Ascii("BOTTOMUP") || v == Ascii("BOTTOM_UP")
                       then fr.height - 1 - y else y;
            Says(raw, e, fr.header) && ReadFrom(fl, raw, fr, x, y, Place(e, fr.width, Width(fr.bitPix), row, x))
  {
    hide *;
    var fr, hdr, l := AcceptedParts(fl, raw, e);
    BottomUpCases(hdr, l.h, y);
    FlipIs(hdr, l, y);
    PixelIs(fl, l, raw, fr, e, x, y);
  }

  lemma BottomUpCases(hdr: Header, h: nat, y: nat)
    ensures var v := if Ascii("ROWORDER") in hdr then ToUpper(TrimSpace(hdr[Ascii("ROWORDER")])) else [];
            FileRow(hdr, h, y) == if v == Ascii("BOTTOM-UP") || v == Ascii("BOTTOMUP") || v == Ascii("BOTTOM_UP")
                                  then h - 1 - y else y
  {
    hide TrimSpace;
    hide ToUpper;
    if Ascii("ROWORDER") !in hdr {
      assert |Ascii("BOTTOM-UP")| > 0 && |Ascii("BOTTOMUP")| > 0 && |Ascii("BOTTOM_UP")| > 0;
    }
  }

  lemma FlipIs(hdr: Header, l: Layout, y: nat)
    requires y < l.h && l.bottomUp == BottomUp(hdr)
    ensures Flip(l, y) == FileRow(hdr, l.h, y)
  {
    hide BottomUp;
  }

  /** An accepted file has a header, and a layout made of what the header says. */
  lemma AcceptedParts(fl: Floats, raw: bytes, e: nat) returns (fr: Frame, hdr: Header, l: Layout)
    requires Decoded(fl, raw).Ok? && FirstEnd(raw, e)
    ensures fr == Decoded(fl, raw).value && hdr == fr.header && Says(raw, e, hdr)
    ensures l == Layout(fr.width, fr.height, fr.bitPix, RealAt(fl, hdr, Ascii("BZERO"), 0.0), ScaleAt(fl, hdr),
                        BottomUp(hdr), IntAt(hdr, Ascii("NAXIS"), 0) == 2)
    ensures var off := 2880 * (e / 36) + 2880;
            && off <= |raw| && |raw| - off >= l.h * Stride(l) && FitsSupported(l.bitpix)
            && fr == FrameOf(fl, hdr, l, raw[off..]) && fr.pix == Picture(fl, l, raw[off..], l.h)
  {
    hide ScanHeader;
    hide Plan;
    hide Says;
    hide FirstEnd;
    hide IntAt;
    hide RealAt;
    hide ScaleAt;
    hide FrameOf;
    hide Picture;
    hide BottomUp;
    hide Width;
    hide Stride;
    HeaderReading(raw);
    fr := Decoded(fl, raw).value;
    hdr := ScanHeader(raw).value.hdr;
    PlanIs(fl, hdr);
    l := Plan(fl, hdr).value;
    FrameShape(fl, hdr, l, raw[2880 * (e / 36) + 2880..]);
  }

  lemma PixelIs(fl: Floats, l: Layout, raw: bytes, fr: Frame, e: nat, x: nat, y: nat)
    requires l.w == fr.width && l.h == fr.height && l.bitpix == fr.bitPix
    requires l.bzero == RealAt(fl, fr.header, Ascii("BZERO"), 0.0) && l.bscale == ScaleAt(fl, fr.header)
    requires var off := 2880 * (e / 36) + 2880;
             && off <= |raw| && |raw| - off >= l.h * Stride(l) && FitsSupported(l.bitpix)
             && fr.pix == Picture(fl, l, raw[off..], l.h)
    requires x < l.w && y < l.h
    ensures ReadFrom(fl, raw, fr, x, y, Place(e, fr.width, Width(fr.bitPix), Flip(l, y), x))
  {
    hide Picture;
    hide Sample;
    hide Flip;
    hide Per;
    hide Width;
    hide FitsSupported;
    hide RealAt;
    hide ScaleAt;
    hide Means;
    hide Ascii;
    var off := 2880 * (e / 36) + 2880;
    var data, row, per := raw[off..], Flip(l, y), Per(l.bitpix);
    WidthIs(l.bitpix);
    PictureAt(fl, l, data, x, y);
    Spread(row, l.w, per, x);
    var at := row * Stride(l) + x * per;
    var b := raw[off + at..off + at + per];
    assert data[at..at + per] == b;
    SampleMeans(fl, l.bitpix, l.bzero, l.bscale, b);
  }

  lemma Spread(r: nat, w: nat, per: nat, x: nat)
    ensures r * (w * per) + x * per == (r * w + x) * per
  {
  }

  // ---- the mosaic ----

  /** The column and the row of the red pixel in the two-by-two tile of a pattern. */
  predicate RedAt(name: bytes, px: int, py: int) {
    || (name == Ascii("RGGB") && px == 0 && py == 0)
    || (name == Ascii("BGGR") && px == 1 && py == 1)
    || (name == Ascii("GRBG") && px == 1 && py == 0)
    || (name == Ascii("GBRG") && px == 0 && py == 1)
  }

  lemma PhaseIs(name: bytes, px: int, py: int)
    ensures RedAt(name, px, py) <==> BayerPhase(name) == Some((px, py))
  {
    var a, b, c, d := Ascii("RGGB"), Ascii("BGGR"), Ascii("GRBG"), Ascii("GBRG");
    assert a[0] == 82 && b[0] == 66 && c[0] == 71 && d[0] == 71 && c[1] == 82 && d[1] == 66;
  }

  /** The pattern a frame states, in upper case; none when it states none. */
  function Pattern(hdr: Header): bytes {
    if Ascii("BAYERPAT") in hdr then ToUpper(TrimSpace(hdr[Ascii("BAYERPAT")])) else []
  }

  /** Every accepted file: the frame is a mosaic exactly when it is two-dimensional and BAYERPAT is one
      of the four patterns, and then a pixel of the frame is red in the reported phase exactly when the
      file's pixel it shows is red in the stated pattern, shifted by the stated offsets. */
  lemma MosaicReading(fl: Floats, raw: bytes, x: nat, y: nat, px: int, py: int)
    requires Decoded(fl, raw).Ok? && y < Decoded(fl, raw).value.height
    ensures var fr := Decoded(fl, raw).value;
            fr.bayer <==> IntAt(fr.header, Ascii("NAXIS"), 0) == 2 &&
                          Pattern(fr.header) in [Ascii("RGGB"), Ascii("BGGR"), Ascii("GRBG"), Ascii("GBRG")]
    ensures var fr := Decoded(fl, raw).value;
            if fr.bayer then 0 <= fr.bayerX <= 1 && 0 <= fr.bayerY <= 1 else fr.bayerX == fr.bayerY == 0
    ensures var fr := Decoded(fl, raw).value;
            var dx, dy := IntAt(fr.header, Ascii("XBAYROFF"), 0), IntAt(fr.header, Ascii("YBAYROFF"), 0);
            fr.bayer && RedAt(Pattern(fr.header), px, py) ==>
              ((x - fr.bayerX) % 2 == 0 && (y - fr.bayerY) % 2 == 0
               <==> (x - (px + dx)) % 2 == 0 && (FileRow(fr.header, fr.height, y) - (py + dy)) % 2 == 0)
  {
    hide ScanHeader;
    hide Plan;
    hide IntAt;
    hide RealAt;
    hide ScaleAt;
    hide Picture;
    hide BottomUp;
    hide HdrInt;
    hide Ascii;
    hide TrimSpace;
    hide ToUpper;
    hide BayerPhase;
    hide RedAt;
    hide FitsMosaic;
    hide RedSite;
    var e := AcceptedEnd(fl, raw);
    var fr, hdr, l := AcceptedParts(fl, raw, e);
    var name := Pattern(hdr);
    KnownPattern(name);
    PhaseIs(name, px, py);
    NumbersAre(fl, hdr, Ascii("XBAYROFF"), 0, 0.0);
    NumbersAre(fl, hdr, Ascii("YBAYROFF"), 0, 0.0);
    assert HeaderPhase(hdr) == BayerPhase(name) by { PatternIs(hdr); }
    var plain := Frame(l.w, l.h, fr.pix, false, 0, 0, l.bitpix, hdr);
    assert fr == if l.mosaiced then FitsMosaic(plain, hdr, l.bottomUp) else plain;
    MosaicParts(plain, hdr, l.bottomUp);
    if HeaderPhase(hdr).Some? {
      MosaicSurvivesFlip(l, plain, hdr, x, y);
      RedSiteIs(x, y, fr.bayerX, fr.bayerY);
      RedSiteIs(x, Flip(l, y), px + IntAt(hdr, Ascii("XBAYROFF"), 0), py + IntAt(hdr, Ascii("YBAYROFF"), 0));
    }
  }

  lemma AcceptedEnd(fl: Floats, raw: bytes) returns (e: nat)
    requires Decoded(fl, raw).Ok?
    ensures FirstEnd(raw, e)
  {
    hide ScanHeader;
    hide EndsAt;
    hide FirstEnd;
    HeaderMeaning(raw);
    e :| EndsAt(raw, e);
    FirstEndIs(raw, e);
  }

  lemma RedSiteIs(x: int, y: int, rx: int, ry: int)
    ensures RedSite(x, y, rx, ry) <==> (x - rx) % 2 == 0 && (y - ry) % 2 == 0
  {
  }

  lemma PatternIs(hdr: Header)
    ensures HeaderPhase(hdr) == BayerPhase(Pattern(hdr))
  {
    hide BayerPhase;
  }

  lemma MosaicParts(fr: Frame, hdr: Header, flipped: bool)
    ensures var out := FitsMosaic(fr, hdr, flipped);
            && out.width == fr.width && out.height == fr.height && out.pix == fr.pix && out.header == fr.header
            && (HeaderPhase(hdr).None? ==> out == fr) && (HeaderPhase(hdr).Some? ==> out.bayer)
  {
    hide HeaderPhase;
    hide HdrInt;
  }

  lemma KnownPattern(name: bytes)
    ensures BayerPhase(name).Some? <==> name in [Ascii("RGGB"), Ascii("BGGR"), Ascii("GRBG"), Ascii("GBRG")]
  {
    hide Ascii;
  }
}
