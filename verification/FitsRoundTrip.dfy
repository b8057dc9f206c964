/** DecodeFITS undoes encodeFITS. */
module FitsRoundTrip {
  import opened ByteText
  import opened Chunks
  import opened FitsHeader
  import opened FitsFrame
  import opened FitsEncode

  // ---- one card ----

  /** A printed card is read back: its keyword, its value indicator, its value. */
  lemma AssignmentReads(key: bytes, value: bytes)
    requires Solid(key) && |key| <= 8
    requires Solid(value) && |value| <= 20 && value[0] != QUOTE && SLASH !in value
    ensures var card := CardText(Assignment(key, value));
            Key(card) == key && States(card) && CardValue(card[9..]) == value
  {
    hide CardValue;
    hide TrimSpace;
    var card := CardText(Assignment(key, value));
    var m, n := 8 - |key|, 20 - |value|;
    var front := key + Blanks(m);
    assert card == front + [EQUALS, BLANK] + Blanks(n) + value + Blanks(50);
    assert card[..8] == front;
    assert Blanks(0) + key + Blanks(m) == front;
    TrimPadded(0, key, m);
    assert card[9..] == Blanks(n + 1) + value + Blanks(50) + [];
    PlainValueRoundTrip(n + 1, value, 50, []);
  }

  lemma EndReads()
    ensures Key(CardText(Ascii("END"))) == Ascii("END")
  {
    hide TrimSpace;
    var card := CardText(Ascii("END"));
    assert card[..8] == Blanks(0) + Ascii("END") + Blanks(5);
    TrimPadded(0, Ascii("END"), 5);
  }

  lemma KeyNameShape(c: nat)
    requires c < 7
    ensures Solid(KeyName(c)) && 5 <= |KeyName(c)| <= 6
  {
  }

  /** The keywords differ from each other: by length, first or last letter. */
  lemma KeyNamesDiffer(c: nat, d: nat)
    requires c < 7 && d < 7 && KeyName(c) == KeyName(d)
    ensures c == d
  {
    var a, b := KeyName(c), KeyName(d);
    assert |a| == |b| && a[0] == b[0] && a[1] == b[1] && a[|a| - 1] == b[|b| - 1];
  }

  lemma ValueTextShape(w: int, h: int, bits: int, c: nat)
    requires Int64(w) && Int64(h) && c < 7
    ensures var v := ValueText(w, h, bits, c); Solid(v) && |v| <= 20 && v[0] != QUOTE && SLASH !in v
  {
    hide Decimal;
    var n := if c == 1 then BitPix(bits) else if c == 2 then 2 else if c == 3 then w
             else if c == 4 then h else if c == 5 then BZero(bits) else 1;
    DecimalSolid(n);
    DecimalFits(n);
    if c > 0 {
      assert ValueText(w, h, bits, c) == Decimal(n);
    }
  }

  // ---- the whole header ----

  lemma {:induction false} CardsAt(w: int, h: int, bits: int, n: nat, c: nat)
    requires c < n <= 8
    ensures CardsFrom(w, h, bits, n)[CARD * c..CARD * c + CARD] == CardOf(w, h, bits, c)
  {
    hide CardOf;
    var init := CardsFrom(w, h, bits, n - 1);
    if c < n - 1 {
      CardsAt(w, h, bits, n - 1, c);
      assert (init + CardOf(w, h, bits, n - 1))[CARD * c..CARD * c + CARD] == init[CARD * c..CARD * c + CARD];
    }
  }

  lemma CardFound(w: int, h: int, bits: int, data: bytes, c: nat)
    requires c < 8
    ensures var raw := HeaderText(w, h, bits) + data;
            c < Cards(raw) && CardAt(raw, c) == CardOf(w, h, bits, c)
  {
    hide CardOf;
    var raw := HeaderText(w, h, bits) + data;
    CardsAt(w, h, bits, 8, c);
    assert |raw| / BLOCK >= 1;
    assert raw[CARD * c..CARD * c + CARD] == CardsFrom(w, h, bits, 8)[CARD * c..CARD * c + CARD];
  }

  /** hdr binds the printed keywords to the printed values and nothing else. */
  ghost predicate Printed(hdr: Header, w: int, h: int, bits: int) {
    && (forall c: nat :: c < 7 ==> KeyName(c) in hdr && hdr[KeyName(c)] == ValueText(w, h, bits, c))
    && (forall k :: k in hdr ==> exists c: nat :: c < 7 && k == KeyName(c))
  }

  lemma CardStates(w: int, h: int, bits: int, data: bytes, c: nat)
    requires Int64(w) && Int64(h) && c < 7
    ensures var raw := HeaderText(w, h, bits) + data;
            && c < Cards(raw) && !IsEnd(raw, c) && StatesKey(raw, c, KeyName(c))
            && CardValue(CardAt(raw, c)[9..]) == ValueText(w, h, bits, c)
            && forall k :: StatesKey(raw, c, k) ==> k == KeyName(c)
  {
    hide Key;
    hide CardValue;
    hide CardText;
    hide HeaderText;
    CardFound(w, h, bits, data, c);
    KeyNameShape(c);
    ValueTextShape(w, h, bits, c);
    AssignmentReads(KeyName(c), ValueText(w, h, bits, c));
    assert |Ascii("END")| == 3;
  }

  lemma LastCard(w: int, h: int, bits: int, data: bytes)
    requires Int64(w) && Int64(h)
    ensures EndsAt(HeaderText(w, h, bits) + data, 7)
  {
    hide Key;
    hide CardText;
    hide HeaderText;
    hide StatesKey;
    var raw := HeaderText(w, h, bits) + data;
    CardFound(w, h, bits, data, 7);
    EndReads();
    forall c | 0 <= c < 7
      ensures !IsEnd(raw, c)
    {
      CardStates(w, h, bits, data, c);
    }
  }

  lemma StartsSimple(w: int, h: int, bits: int, data: bytes)
    ensures IsFitsMagic(HeaderText(w, h, bits) + data)
  {
    hide CardOf;
    var raw := HeaderText(w, h, bits) + data;
    CardFound(w, h, bits, data, 0);
    assert raw[..6] == CardAt(raw, 0)[..6];
    SimpleCard(w, h, bits);
  }

  lemma SimpleCard(w: int, h: int, bits: int)
    ensures CardOf(w, h, bits, 0)[..6] == Ascii("SIMPLE")
  {
  }

  /** Scanning an encoded file finds END in the first block and reads back exactly the printed
      keywords and values. */
  lemma HeaderReads(w: int, h: int, bits: int, data: bytes) returns (hdr: Header)
    requires Int64(w) && Int64(h)
    ensures ScanHeader(HeaderText(w, h, bits) + data) == Ok(Scanned(hdr, BLOCK))
    ensures Printed(hdr, w, h, bits)
  {
    hide StatesKey;
    hide CardValue;
    hide KeyName;
    hide ScanHeader;
    hide HeaderText;
    hide IsFitsMagic;
    hide CardAt;
    var raw := HeaderText(w, h, bits) + data;
    StartsSimple(w, h, bits, data);
    LastCard(w, h, bits, data);
    HeaderMeaning(raw);
    hdr := ScanHeader(raw).value.hdr;
    assert Collected(raw, 7, hdr);
    forall c: nat | c < 7
      ensures KeyName(c) in hdr && hdr[KeyName(c)] == ValueText(w, h, bits, c)
    {
      CardStates(w, h, bits, data, c);
      forall d: nat | c < d < 7
        ensures !StatesKey(raw, d, KeyName(c))
      {
        CardStates(w, h, bits, data, d);
        if KeyName(c) == KeyName(d) { KeyNamesDiffer(c, d); }
      }
      assert LastStates(raw, c, 7, KeyName(c));
    }
    forall k | k in hdr
      ensures exists c: nat :: c < 7 && k == KeyName(c)
    {
      assert Stated(raw, 7, k);
      var c: nat :| c < 7 && StatesKey(raw, c, k);
      CardStates(w, h, bits, data, c);
    }
  }

  // ---- layout ----

  lemma IntegerReads(hdr: Header, w: int, h: int, bits: int, c: nat, n: int, def: int)
    requires Printed(hdr, w, h, bits) && c < 7 && Int64(n) && ValueText(w, h, bits, c) == Decimal(n)
    ensures HdrInt(hdr, KeyName(c), def) == n
    ensures forall fl: Floats, d: real :: -EXACT <= n <= EXACT ==> HdrFloat(fl, hdr, KeyName(c), d) == n as real
  {
    var v := Decimal(n);
    hide Decimal;
    hide KeyName;
    hide Integer;
    IntegerOfDecimal(n);
    DecimalSolid(n);
    TrimPadded(0, v, 0);
    assert Blanks(0) + v + Blanks(0) == v;
  }

  lemma NotPrinted(hdr: Header, w: int, h: int, bits: int, k: bytes)
    requires Printed(hdr, w, h, bits) && |k| == 8
    ensures k !in hdr
  {
    hide KeyName;
    if k in hdr {
      var c: nat :| c < 7 && k == KeyName(c);
      KeyNameShape(c);
    }
  }

  /** The layout of an encoded file, or its refusal when a dimension is not positive. */
  lemma PlanReads(fl: Floats, hdr: Header, w: int, h: int, bits: int)
    requires Int64(w) && Int64(h) && Printed(hdr, w, h, bits)
    ensures Plan(fl, hdr) == if w <= 0 || h <= 0 then Err(BadSize)
                             else Ok(Layout(w, h, BitPix(bits), BZero(bits) as real, 1.0, false, true))
    ensures HeaderPhase(hdr) == None
  {
    hide HdrInt;
    hide HdrFloat;
    hide Decimal;
    hide Printed;
    IntegerReads(hdr, w, h, bits, 1, BitPix(bits), 0);
    IntegerReads(hdr, w, h, bits, 2, 2, 0);
    IntegerReads(hdr, w, h, bits, 3, w, 0);
    IntegerReads(hdr, w, h, bits, 4, h, 0);
    IntegerReads(hdr, w, h, bits, 5, BZero(bits), 0);
    IntegerReads(hdr, w, h, bits, 6, 1, 1);
    NotPrinted(hdr, w, h, bits, Ascii("ROWORDER"));
    NotPrinted(hdr, w, h, bits, Ascii("BAYERPAT"));
    assert BayerPhase([]) == None;
  }

  // ---- samples ----

  lemma {:induction false} DataAt(bits: int, pixels: bytes, n: nat, i: nat)
    requires i < n
    ensures var per := if bits <= 8 then 1 else 2;
            DataBytes(bits, pixels, n)[i * per..i * per + per] == PixelBytes(bits, pixels, i)
  {
    hide PixelBytes;
    hide DataBytes;
    var per := if bits <= 8 then 1 else 2;
    DataNext(bits, pixels, n - 1);
    var init, last := DataBytes(bits, pixels, n - 1), PixelBytes(bits, pixels, n - 1);
    if i < n - 1 {
      DataAt(bits, pixels, n - 1, i);
      SliceFront(init, last, i * per, i * per + per);
    } else {
      LastPart(init, last);
    }
  }

  lemma DataNext(bits: int, pixels: bytes, n: nat)
    ensures DataBytes(bits, pixels, n + 1) == DataBytes(bits, pixels, n) + PixelBytes(bits, pixels, n)
    ensures |PixelBytes(bits, pixels, n)| == if bits <= 8 then 1 else 2
  {
  }

  lemma SliceFront(a: bytes, b: bytes, i: nat, j: nat)
    requires i <= j <= |a|
    ensures (a + b)[i..j] == a[i..j]
  {
  }

  /** Decoding the stored form of a sample gives the sample. */
  lemma SampleReads(fl: Floats, bits: int, pixels: bytes, i: nat)
    ensures Sample(fl, BitPix(bits), BZero(bits) as real, 1.0, PixelBytes(bits, pixels, i))
            == CameraSample(bits, pixels, i)
  {
    var b, u := PixelBytes(bits, pixels, i), CameraSample(bits, pixels, i);
    hide CameraSample;
    if bits <= 8 {
      CameraByte(bits, pixels, i);
      Stored8(b);
      assert Physical(b[0] as int, 1.0, 0.0) == (u as int) as real;
      RoundExact(u as int);
    } else {
      StoredPair(u);
      hide Stored16Bytes;
      SampleByBranch(fl, 16, UNSIGNED_BZERO, 1.0, b);
    }
  }

  lemma CameraByte(bits: int, pixels: bytes, i: nat)
    requires bits <= 8
    ensures CameraSample(bits, pixels, i) < 256
  {
  }

  lemma StoredPair(u: u16)
    ensures var b := Stored16Bytes(u); FlipBit15(BE16(b[0], b[1])) == u
  {
  }

  /** Printing a frame and decoding the file. The file is whole blocks, and it decodes exactly
      when both dimensions are positive; then the frame has the camera's size and, at every
      pixel, the camera's sample. */
  lemma EncodeDecode(fl: Floats, w: int, h: int, bits: int, pixels: bytes)
    requires Int64(w) && Int64(h) && w * h >= 0
    ensures |Encoded(w, h, bits, pixels)| % BLOCK == 0
    ensures Decoded(fl, Encoded(w, h, bits, pixels)).Ok? <==> w > 0 && h > 0
    ensures w <= 0 || h <= 0 ==> Decoded(fl, Encoded(w, h, bits, pixels)) == Err(BadSize)
    ensures w > 0 && h > 0 ==>
              var fr := Decoded(fl, Encoded(w, h, bits, pixels)).value;
              && fr.width == w && fr.height == h && fr.bitPix == (if bits <= 8 then 8 else 16) && !fr.bayer
              && |fr.pix| == w * h
              && (forall i: nat :: i < w * h && bits <= 8 && i < |pixels| ==> fr.pix[i] as int == pixels[i] as int)
              && (forall i: nat :: i < w * h && bits <= 8 && i >= |pixels| ==> fr.pix[i] == 0)
              && (forall i: nat :: i < w * h && bits > 8 && 2 * i + 1 < |pixels| ==>
                    fr.pix[i] as int == pixels[2 * i] as int + 256 * pixels[2 * i + 1] as int)
              && (forall i: nat :: i < w * h && bits > 8 && 2 * i + 1 >= |pixels| ==> fr.pix[i] == 32768)
  {
    hide HeaderText;
    hide DataBytes;
    hide ScanHeader;
    hide Plan;
    hide Printed;
    hide CameraSample;
    hide Picture;
    var body := DataBytes(bits, pixels, w * h);
    var tail := body + Zeros(ToBlock(|body|));
    var raw := HeaderText(w, h, bits) + tail;
    var hdr := HeaderReads(w, h, bits, tail);
    PlanReads(fl, hdr, w, h, bits);
    assert raw[BLOCK..] == tail;
    assert |raw| % BLOCK == 0 by {
      assert |raw| == BLOCK + (|body| + ToBlock(|body|));
    }
    if w > 0 && h > 0 {
      var l := Layout(w, h, BitPix(bits), BZero(bits) as real, 1.0, false, true);
      LayoutSize(l, bits, |body|);
      ghost var pix := Picture(fl, l, tail, h);
      forall i: nat | i < w * h
        ensures bits <= 8 && i < |pixels| ==> pix[i] as int == pixels[i] as int
        ensures bits <= 8 && i >= |pixels| ==> pix[i] == 0
        ensures bits > 8 && 2 * i + 1 < |pixels| ==> pix[i] as int == pixels[2 * i] as int + 256 * pixels[2 * i + 1] as int
        ensures bits > 8 && 2 * i + 1 >= |pixels| ==> pix[i] == 32768
      {
        PixelReads(fl, l, bits, pixels, tail, i);
        CameraMeaning(bits, pixels, i);
      }
    }
  }

  lemma LayoutSize(l: Layout, bits: int, n: nat)
    requires l.bitpix == BitPix(bits) && n == if bits <= 8 then l.w * l.h else 2 * (l.w * l.h)
    ensures l.h * Stride(l) == n && l.h * l.w == l.w * l.h
  {
    Rearrange(l.h, l.w, Per(l.bitpix));
  }

  lemma PixelReads(fl: Floats, l: Layout, bits: int, pixels: bytes, tail: bytes, i: nat)
    requires l == Layout(l.w, l.h, BitPix(bits), BZero(bits) as real, 1.0, false, true)
    requires l.w > 0 && i < l.w * l.h && DataBytes(bits, pixels, l.w * l.h) <= tail
    ensures i < |Picture(fl, l, tail, l.h)|
    ensures Picture(fl, l, tail, l.h)[i] == CameraSample(bits, pixels, i)
  {
    hide Picture;
    hide DataBytes;
    hide Sample;
    hide CameraSample;
    hide PixelBytes;
    var n := l.w * l.h;
    LayoutSize(l, bits, |DataBytes(bits, pixels, n)|);
    var x, y := SplitIndex(i, l.w, l.h);
    PictureAt(fl, l, tail, x, y);
    StoredOffset(bits, l.w, x, y);
    StoredHere(bits, pixels, n, tail, i);
    SampleReads(fl, bits, pixels, i);
  }

  lemma StoredOffset(bits: int, w: nat, x: nat, y: nat)
    ensures var per := Per(BitPix(bits)); (y * w + x) * per == y * (w * per) + x * per
  {
  }

  lemma StoredHere(bits: int, pixels: bytes, n: nat, tail: bytes, i: nat)
    requires i < n && DataBytes(bits, pixels, n) <= tail
    ensures var per := Per(BitPix(bits));
            i * per + per <= |tail| && tail[i * per..i * per + per] == PixelBytes(bits, pixels, i)
  {
    hide PixelBytes;
    var body := DataBytes(bits, pixels, n);
    DataAt(bits, pixels, n, i);
    var per := if bits <= 8 then 1 else 2;
    assert tail[i * per..i * per + per] == body[i * per..i * per + per];
  }

  /** The column and row of pixel i. */
  lemma SplitIndex(i: nat, w: nat, h: nat) returns (x: nat, y: nat)
    requires w > 0 && i < w * h
    ensures x < w && y < h && i == y * w + x
  {
    assert h * w == w * h;
    x, y := i % w, i / w;
    assert i == y * w + x;
    if y >= h {
      MulMono(h, y, w);
    }
  }

  // ---- the printed file ----

  /** The file, byte by byte: seven cards and END, blanks to the end of the block, the samples less
      their bias with the high byte first, and zeros to the end of the last block. */
  lemma EncodedMeaning(w: int, h: int, bits: int, pixels: bytes)
    requires Int64(w) && Int64(h) && w * h >= 0
    ensures var f := Encoded(w, h, bits, pixels);
            var n := if bits <= 8 then w * h else 2 * (w * h);
            && |f| % 2880 == 0 && 2880 + n <= |f| < 2880 + n + 2880
            && forall i :: 2880 + n <= i < |f| ==> f[i] == 0
    ensures var f := Encoded(w, h, bits, pixels);
            && |f| >= 2880
            && CardShows(f, 0, Ascii("SIMPLE"), Ascii("T"))
            && CardShows(f, 1, Ascii("BITPIX"), Decimal(if bits <= 8 then 8 else 16))
            && CardShows(f, 2, Ascii("NAXIS"), Decimal(2))
            && CardShows(f, 3, Ascii("NAXIS1"), Decimal(w))
            && CardShows(f, 4, Ascii("NAXIS2"), Decimal(h))
            && CardShows(f, 5, Ascii("BZERO"), Decimal(if bits <= 8 then 0 else 32768))
            && CardShows(f, 6, Ascii("BSCALE"), Decimal(1))
            && f[560..563] == Ascii("END") && AllBlank(f[563..2880])
    ensures var f := Encoded(w, h, bits, pixels);
            && (forall i: nat :: i < w * h && bits <= 8 ==>
                  2880 + i < |f| && f[2880 + i] == if i < |pixels| then pixels[i] else 0)
            && (forall i: nat :: i < w * h && bits > 8 ==>
                  2880 + 2 * i + 1 < |f| &&
                  f[2880 + 2 * i] as int * 256 + f[2880 + 2 * i + 1] as int
                  == if 2 * i + 1 < |pixels| then (pixels[2 * i] as int + 256 * pixels[2 * i + 1] as int + 32768) % 65536
                     else 0)
  {
    hide *;
    var f := Encoded(w, h, bits, pixels);
    var body := DataBytes(bits, pixels, w * h);
    var zeros := Zeros(ToBlock(|body|));
    EncodedParts(w, h, bits, pixels);
    var hd := HeaderText(w, h, bits);
    BlocksFilled(hd, body);
    assert forall i :: 2880 + |body| <= i < |f| ==> f[i] == 0 by { ZeroTail(hd, body, zeros); }
    forall c: nat | c < 7
      ensures CardShows(f, c, KeyName(c), ValueText(w, h, bits, c))
    {
      CardPrinted(w, h, bits, body + zeros, c);
    }
    assert CardShows(f, 0, KeyName(0), ValueText(w, h, bits, 0));
    assert CardShows(f, 1, KeyName(1), ValueText(w, h, bits, 1));
    assert CardShows(f, 2, KeyName(2), ValueText(w, h, bits, 2));
    assert CardShows(f, 3, KeyName(3), ValueText(w, h, bits, 3));
    assert CardShows(f, 4, KeyName(4), ValueText(w, h, bits, 4));
    assert CardShows(f, 5, KeyName(5), ValueText(w, h, bits, 5));
    assert CardShows(f, 6, KeyName(6), ValueText(w, h, bits, 6));
    ValuesAre(w, h, bits);
    EndPrinted(w, h, bits, body + zeros);
    forall i: nat | i < w * h
      ensures bits <= 8 ==> 2880 + i < |f| && f[2880 + i] == if i < |pixels| then pixels[i] else 0
      ensures bits > 8 ==>
                2880 + 2 * i + 1 < |f| &&
                f[2880 + 2 * i] as int * 256 + f[2880 + 2 * i + 1] as int
                == if 2 * i + 1 < |pixels| then (pixels[2 * i] as int + 256 * pixels[2 * i + 1] as int + 32768) % 65536
                   else 0
    {
      SamplePrinted(hd, bits, pixels, w * h, zeros, i);
    }
  }

  /** Card c has the keyword in columns 1-8, the value indicator in 9-10, the value ending in column
      30, and blanks elsewhere. */
  predicate CardShows(f: bytes, c: nat, key: bytes, value: bytes) {
    && 80 * c + 80 <= |f| && |key| <= 8 && |value| <= 20
    && var t := f[80 * c..80 * c + 80];
       && t[..|key|] == key && AllBlank(t[|key|..8]) && t[8] == 61 && AllBlank(t[9..30 - |value|])
       && t[30 - |value|..30] == value && AllBlank(t[30..80])
  }

  lemma EncodedParts(w: int, h: int, bits: int, pixels: bytes)
    requires w * h >= 0
    ensures var body := DataBytes(bits, pixels, w * h);
            && Encoded(w, h, bits, pixels) == HeaderText(w, h, bits) + (body + Zeros(ToBlock(|body|)))
            && |HeaderText(w, h, bits)| == 2880 && |body| == if bits <= 8 then w * h else 2 * (w * h)
  {
    hide DataBytes;
    hide HeaderText;
  }

  lemma BlocksFilled(hd: bytes, body: bytes)
    requires |hd| == 2880
    ensures var f := hd + (body + Zeros(ToBlock(|body|)));
            |f| % 2880 == 0 && 2880 + |body| <= |f| < 2880 + |body| + 2880
  {
    assert |body + Zeros(ToBlock(|body|))| == |body| + ToBlock(|body|);
  }

  lemma ZeroTail(hd: bytes, body: bytes, zeros: bytes)
    requires |hd| == 2880 && zeros == Zeros(ToBlock(|body|))
    ensures var f := hd + (body + zeros); forall i :: 2880 + |body| <= i < |f| ==> f[i] == 0
  {
  }

  lemma ValuesAre(w: int, h: int, bits: int)
    ensures KeyName(0) == Ascii("SIMPLE") && ValueText(w, h, bits, 0) == Ascii("T")
    ensures KeyName(1) == Ascii("BITPIX") && ValueText(w, h, bits, 1) == Decimal(if bits <= 8 then 8 else 16)
    ensures KeyName(2) == Ascii("NAXIS") && ValueText(w, h, bits, 2) == Decimal(2)
    ensures KeyName(3) == Ascii("NAXIS1") && ValueText(w, h, bits, 3) == Decimal(w)
    ensures KeyName(4) == Ascii("NAXIS2") && ValueText(w, h, bits, 4) == Decimal(h)
    ensures KeyName(5) == Ascii("BZERO") && ValueText(w, h, bits, 5) == Decimal(if bits <= 8 then 0 else 32768)
    ensures KeyName(6) == Ascii("BSCALE") && ValueText(w, h, bits, 6) == Decimal(1)
  {
    hide Ascii;
    hide Decimal;
  }

  lemma CardPrinted(w: int, h: int, bits: int, data: bytes, c: nat)
    requires Int64(w) && Int64(h) && c < 7
    ensures CardShows(HeaderText(w, h, bits) + data, c, KeyName(c), ValueText(w, h, bits, c))
  {
    hide KeyName;
    hide ValueText;
    hide HeaderText;
    hide Assignment;
    hide CardText;
    hide AllBlank;
    hide Cards;
    KeyNameShape(c);
    ValueTextShape(w, h, bits, c);
    CardFound(w, h, bits, data, c);
    AssignmentMeaning(KeyName(c), ValueText(w, h, bits, c));
  }

  lemma EndPrinted(w: int, h: int, bits: int, data: bytes)
    ensures var f := HeaderText(w, h, bits) + data;
            |f| >= 2880 && f[560..563] == Ascii("END") && AllBlank(f[563..2880])
  {
    hide CardOf;
    hide CardText;
    hide Ascii;
    var f := HeaderText(w, h, bits) + data;
    CardFound(w, h, bits, data, 7);
    assert CardOf(w, h, bits, 7) == CardText(Ascii("END")) by { EndIs(w, h, bits); }
    EndCardMeaning();
    var t := CardText(Ascii("END"));
    assert f[560..640] == t;
    assert f[560..563] == t[..3];
    forall i | 563 <= i < 2880
      ensures f[i] == 32
    {
      if i < 640 {
        assert f[i] == t[3..][i - 563];
      } else {
        assert f[i] == Blanks(BLOCK - 8 * CARD)[i - 640];
      }
    }
  }

  lemma EndIs(w: int, h: int, bits: int)
    ensures CardOf(w, h, bits, 7) == CardText(Ascii("END"))
  {
  }

  lemma SamplePrinted(hd: bytes, bits: int, pixels: bytes, n: nat, zeros: bytes, i: nat)
    requires |hd| == 2880 && i < n
    ensures var f := hd + (DataBytes(bits, pixels, n) + zeros);
            && (bits <= 8 ==> 2880 + i < |f| && f[2880 + i] == if i < |pixels| then pixels[i] else 0)
            && (bits > 8 ==>
                  2880 + 2 * i + 1 < |f| &&
                  f[2880 + 2 * i] as int * 256 + f[2880 + 2 * i + 1] as int
                  == if 2 * i + 1 < |pixels| then (pixels[2 * i] as int + 256 * pixels[2 * i + 1] as int + 32768) % 65536
                     else 0)
  {
    hide PixelBytes;
    hide DataBytes;
    var body := DataBytes(bits, pixels, n);
    var f := hd + (body + zeros);
    DataAt(bits, pixels, n, i);
    PixelBytesMeaning(bits, pixels, i);
    var b := PixelBytes(bits, pixels, i);
    if bits <= 8 {
      assert f[2880 + i] == body[i * 1..i * 1 + 1][0];
    } else {
      assert f[2880 + 2 * i] == body[i * 2..i * 2 + 2][0];
      assert f[2880 + 2 * i + 1] == body[i * 2..i * 2 + 2][1];
    }
  }
}
