/** The camera side: a raw frame printed as a FITS file, and the proof that the decoder reads
    back every sample. */
module FitsEncode {
  import opened ByteText
  import opened FitsHeader
  import opened FitsFrame

  // ---- the file as a function ----

  /** The closure `card`: cut or padded to 80 bytes. */
  function CardText(s: bytes): (card: bytes)
    ensures |card| == CARD
  {
    if |s| > CARD then s[..CARD] else s + Blanks(CARD - |s|)
  }

  function PadTo(n: nat, len: nat): nat {
    if len < n then n - len else 0
  }

  /** fmt's "%-8s= %20s". */
  function Assignment(key: bytes, value: bytes): bytes {
    key + Blanks(PadTo(8, |key|)) + [EQUALS, BLANK] + Blanks(PadTo(20, |value|)) + value
  }

  function BitPix(bits: int): int {
    if bits <= 8 then 8 else 16
  }

  function BZero(bits: int): int {
    if bits <= 8 then 0 else 32768
  }

  function KeyName(c: nat): bytes
    requires c < 7
  {
    if c == 0 then Ascii("SIMPLE") else if c == 1 then Ascii("BITPIX") else if c == 2 then Ascii("NAXIS")
    else if c == 3 then Ascii("NAXIS1") else if c == 4 then Ascii("NAXIS2") else if c == 5 then Ascii("BZERO")
    else Ascii("BSCALE")
  }

  function ValueText(w: int, h: int, bits: int, c: nat): bytes
    requires c < 7
  {
    if c == 0 then Ascii("T") else if c == 1 then Decimal(BitPix(bits)) else if c == 2 then Decimal(2)
    else if c == 3 then Decimal(w) else if c == 4 then Decimal(h) else if c == 5 then Decimal(BZero(bits))
    else Decimal(1)
  }

  function CardOf(w: int, h: int, bits: int, c: nat): (card: bytes)
    requires c < 8
    ensures |card| == CARD
  {
    CardText(if c < 7 then Assignment(KeyName(c), ValueText(w, h, bits, c)) else Ascii("END"))
  }

  function CardsFrom(w: int, h: int, bits: int, n: nat): (t: bytes)
    requires n <= 8
    ensures |t| == n * CARD
  {
    if n == 0 then [] else CardsFrom(w, h, bits, n - 1) + CardOf(w, h, bits, n - 1)
  }

  function HeaderText(w: int, h: int, bits: int): (t: bytes)
    ensures |t| == BLOCK
  {
    CardsFrom(w, h, bits, 8) + Blanks(BLOCK - 8 * CARD)
  }

  function LE16(pixels: bytes, i: nat): u16
    requires 2 * i + 1 < |pixels|
  {
    BE16(pixels[2 * i + 1], pixels[2 * i])
  }

  /** What the camera meant by pixel i: its byte, or its little-endian pair. A pixel the buffer
      does not reach is 0 at 8 bits and, being stored as 0 under BZERO 32768, 32768 at 16. */
  function CameraSample(bits: int, pixels: bytes, i: nat): u16 {
    if bits <= 8 then (if i < |pixels| then pixels[i] as int as u16 else 0)
    else if 2 * i + 1 < |pixels| then LE16(pixels, i) else 32768
  }

  /** The high and low byte of the sample less the bias. */
  function Stored16Bytes(u: u16): (b: bytes)
    ensures |b| == 2
  {
    var v := FlipBit15(u) as int;
    [(v / 256) as byte, (v % 256) as byte]
  }

  function PixelBytes(bits: int, pixels: bytes, i: nat): (b: bytes)
    ensures |b| == if bits <= 8 then 1 else 2
  {
    if bits <= 8 then [CameraSample(bits, pixels, i) as int as byte]
    else Stored16Bytes(CameraSample(bits, pixels, i))
  }

  function DataBytes(bits: int, pixels: bytes, n: nat): (d: bytes)
    ensures |d| == if bits <= 8 then n else 2 * n
  {
    if n == 0 then [] else DataBytes(bits, pixels, n - 1) + PixelBytes(bits, pixels, n - 1)
  }

  function Zeros(n: nat): (z: bytes)
    ensures |z| == n
  {
    seq(n, _ => 0)
  }

  function ToBlock(len: nat): (n: nat)
    ensures n < BLOCK && (len + n) % BLOCK == 0
  {
    (BLOCK - len % BLOCK) % BLOCK
  }

  function Encoded(w: int, h: int, bits: int, pixels: bytes): bytes
    requires w * h >= 0
  {
    var data := DataBytes(bits, pixels, w * h);
    HeaderText(w, h, bits) + (data + Zeros(ToBlock(|data|)))
  }

  // ---- the encoder ----

  method AppendCard(hdr: bytes, s: bytes) returns (r: bytes)
    ensures r == hdr + CardText(s)
  {
    var t := if |s| > CARD then s[..CARD] else s;
    r := hdr + t;
    var i := |t|;
    while i < CARD
      invariant |t| <= i <= CARD
      invariant r == hdr + (t + Blanks(i - |t|))
    {
      r := r + [BLANK];
      i := i + 1;
    }
  }

  method EncodeFITS(w: int, h: int, bits: int, pixels: bytes) returns (r: bytes)
    requires w * h >= 0
    ensures r == Encoded(w, h, bits, pixels)
  {
    hide Assignment;
    hide Decimal;
    hide Ascii;
    hide CardText;
    hide CardsFrom;
    hide DataBytes;
    hide Zeros;
    hide Blanks;
    hide ToBlock;
    var bitpix, bzero := 16, 32768;
    if bits <= 8 {
      bitpix, bzero := 8, 0;
    }
    var hdr: bytes := [];
    hdr := AppendCard(hdr, Assignment(Ascii("SIMPLE"), Ascii("T")));
    hdr := AppendCard(hdr, Assignment(Ascii("BITPIX"), Decimal(bitpix)));
    hdr := AppendCard(hdr, Assignment(Ascii("NAXIS"), Decimal(2)));
    hdr := AppendCard(hdr, Assignment(Ascii("NAXIS1"), Decimal(w)));
    hdr := AppendCard(hdr, Assignment(Ascii("NAXIS2"), Decimal(h)));
    hdr := AppendCard(hdr, Assignment(Ascii("BZERO"), Decimal(bzero)));
    hdr := AppendCard(hdr, Assignment(Ascii("BSCALE"), Decimal(1)));
    hdr := AppendCard(hdr, Ascii("END"));
    AllCards(w, h, bits);
    hdr := PadHeader(hdr);
    var data := FillData(w * h, bits, pixels);
    data := PadData(data);
    return hdr + data;
  }

  lemma AllCards(w: int, h: int, bits: int)
    ensures CardsFrom(w, h, bits, 8)
            == [] + CardOf(w, h, bits, 0) + CardOf(w, h, bits, 1) + CardOf(w, h, bits, 2) + CardOf(w, h, bits, 3)
               + CardOf(w, h, bits, 4) + CardOf(w, h, bits, 5) + CardOf(w, h, bits, 6) + CardOf(w, h, bits, 7)
  {
    hide CardOf;
    assert CardsFrom(w, h, bits, 2) == [] + CardOf(w, h, bits, 0) + CardOf(w, h, bits, 1);
    assert CardsFrom(w, h, bits, 4) == CardsFrom(w, h, bits, 2) + CardOf(w, h, bits, 2) + CardOf(w, h, bits, 3);
    assert CardsFrom(w, h, bits, 6) == CardsFrom(w, h, bits, 4) + CardOf(w, h, bits, 4) + CardOf(w, h, bits, 5);
  }

  method PadHeader(given: bytes) returns (hdr: bytes)
    ensures hdr == given + Blanks(ToBlock(|given|))
  {
    hdr := given;
    ghost var k := 0;
    while |hdr| % BLOCK != 0
      invariant hdr == given + Blanks(k) && k <= ToBlock(|given|)
      decreases ToBlock(|given|) - k
    {
      hdr := hdr + [BLANK];
      k := k + 1;
      assert k < ToBlock(|given|) || (|given| + k) % BLOCK == 0;
    }
    assert k == ToBlock(|given|);
  }

  method PadData(given: bytes) returns (data: bytes)
    ensures data == given + Zeros(ToBlock(|given|))
  {
    data := given;
    ghost var k := 0;
    while |data| % BLOCK != 0
      invariant data == given + Zeros(k) && k <= ToBlock(|given|)
      decreases ToBlock(|given|) - k
    {
      data := data + [0];
      k := k + 1;
    }
    assert k == ToBlock(|given|);
  }

  method FillData(n: nat, bits: int, pixels: bytes) returns (r: bytes)
    ensures r == DataBytes(bits, pixels, n)
  {
    if bits <= 8 {
      r := FillBytes(n, bits, pixels);
    } else {
      r := FillPairs(n, bits, pixels);
    }
  }

  method FillBytes(n: nat, bits: int, pixels: bytes) returns (r: bytes)
    requires bits <= 8
    ensures r == DataBytes(bits, pixels, n)
  {
    var data := new byte[n](_ => 0);
    var m := if |pixels| < n then |pixels| else n;
    forall i | 0 <= i < m {
      data[i] := pixels[i];
    }
    r := data[..];
    forall i: nat | i < n
      ensures r[i..i + 1] == PixelBytes(bits, pixels, i)
    {
    }
    ByteByByte(bits, pixels, r, n);
  }

  method FillPairs(n: nat, bits: int, pixels: bytes) returns (r: bytes)
    requires bits > 8
    ensures r == DataBytes(bits, pixels, n)
  {
    hide PixelBytes;
    hide DataBytes;
    var data := new byte[n * 2](_ => 0);
    var i := 0;
    while i < n && i * 2 + 1 < |pixels|
      invariant 0 <= i <= n
      invariant forall k: nat :: k < i ==> PairAt(bits, pixels, data[..], k)
      invariant forall j :: 2 * i <= j < 2 * n ==> data[j] == 0
    {
      var u := LE16(pixels, i);
      var v := (u as int - 32768) % 65536;
      ghost var before := data[..];
      PairOf(bits, pixels, i);
      data[2 * i] := (v / 256) as byte;
      data[2 * i + 1] := (v % 256) as byte;
      forall k: nat | k < i + 1
        ensures PairAt(bits, pixels, data[..], k)
      {
        assert k < i ==> PairAt(bits, pixels, before, k);
      }
      i := i + 1;
    }
    r := data[..];
    forall k: nat | k < n
      ensures PairAt(bits, pixels, r, k)
    {
      if k >= i {
        PairOf(bits, pixels, k);
        assert r[2 * k] == data[2 * k] == 0 && r[2 * k + 1] == data[2 * k + 1] == 0;
      } else {
        assert PairAt(bits, pixels, data[..], k);
      }
    }
    PairByPair(bits, pixels, r, n);
  }

  /** The bytes PutUint16 writes for a pixel that is there, and the zeros left for one that is not. */
  lemma PairOf(bits: int, pixels: bytes, k: nat)
    requires bits > 8
    ensures 2 * k + 1 < |pixels| ==>
              var v := (LE16(pixels, k) as int - 32768) % 65536;
              PixelBytes(bits, pixels, k) == [(v / 256) as byte, (v % 256) as byte]
    ensures 2 * k + 1 >= |pixels| ==> PixelBytes(bits, pixels, k) == [0, 0]
  {
    hide LE16;
    if 2 * k + 1 < |pixels| {
      BiasedBytes(LE16(pixels, k));
    } else {
      BiasedBytes(32768);
    }
  }

  lemma BiasedBytes(u: u16)
    ensures var v := (u as int - 32768) % 65536;
            Stored16Bytes(u) == [(v / 256) as byte, (v % 256) as byte]
    ensures u == 32768 ==> Stored16Bytes(u) == [0, 0]
  {
    FlipIsBias(u);
    hide FlipBit15;
  }

  lemma FlipIsBias(u: u16)
    ensures FlipBit15(u) as int == (u as int - 32768) % 65536
    ensures FlipBit15(32768) == 0
  {
  }

  /** Bytes 2k and 2k + 1 are those of pixel k. */
  predicate PairAt(bits: int, pixels: bytes, r: bytes, k: nat)
    requires bits > 8
  {
    && 2 * k + 1 < |r|
    && r[2 * k] == PixelBytes(bits, pixels, k)[0] && r[2 * k + 1] == PixelBytes(bits, pixels, k)[1]
  }

  lemma {:induction false} ByteByByte(bits: int, pixels: bytes, r: bytes, n: nat)
    requires bits <= 8 && n <= |r|
    requires forall i: nat :: i < n ==> r[i..i + 1] == PixelBytes(bits, pixels, i)
    ensures r[..n] == DataBytes(bits, pixels, n)
    ensures n == |r| ==> r == DataBytes(bits, pixels, n)
  {
    if n > 0 {
      ByteByByte(bits, pixels, r, n - 1);
      assert r[..n] == r[..n - 1] + r[n - 1..n - 1 + 1];
    }
    assert r[..|r|] == r;
  }

  lemma {:induction false} PairByPair(bits: int, pixels: bytes, r: bytes, n: nat)
    requires bits > 8 && 2 * n <= |r|
    requires forall k: nat :: k < n ==> PairAt(bits, pixels, r, k)
    ensures r[..2 * n] == DataBytes(bits, pixels, n)
    ensures 2 * n == |r| ==> r == DataBytes(bits, pixels, n)
  {
    if n > 0 {
      PairByPair(bits, pixels, r, n - 1);
      assert PairAt(bits, pixels, r, n - 1);
      assert r[..2 * n] == r[..2 * (n - 1)] + PixelBytes(bits, pixels, n - 1);
    }
    assert r[..|r|] == r;
  }

  // ---- what the file is, byte by byte ----

  /** A byte at 8 bits, a pair with the low byte first at 16; a sample the buffer does not reach is
      0 and 32768. */
  lemma CameraMeaning(bits: int, pixels: bytes, i: nat)
    ensures bits <= 8 && i < |pixels| ==> CameraSample(bits, pixels, i) as int == pixels[i] as int
    ensures bits <= 8 && i >= |pixels| ==> CameraSample(bits, pixels, i) == 0
    ensures bits > 8 && 2 * i + 1 < |pixels| ==>
              CameraSample(bits, pixels, i) as int == pixels[2 * i] as int + 256 * pixels[2 * i + 1] as int
    ensures bits > 8 && 2 * i + 1 >= |pixels| ==> CameraSample(bits, pixels, i) == 32768
  {
  }

  /** The stored bytes of pixel i: the camera's byte, or its pair less 32768, high byte first; zeros
      where the buffer ends early. */
  lemma PixelBytesMeaning(bits: int, pixels: bytes, i: nat)
    ensures var b := PixelBytes(bits, pixels, i);
            && (bits <= 8 ==> |b| == 1 && b[0] == if i < |pixels| then pixels[i] else 0)
            && (bits > 8 && 2 * i + 1 < |pixels| ==>
                  |b| == 2 &&
                  b[0] as int * 256 + b[1] as int
                  == (pixels[2 * i] as int + 256 * pixels[2 * i + 1] as int + 32768) % 65536)
            && (bits > 8 && 2 * i + 1 >= |pixels| ==> b == [0, 0])
  {
    CameraMeaning(bits, pixels, i);
    hide CameraSample;
    if bits > 8 {
      BiasedBytes(CameraSample(bits, pixels, i));
    }
  }

  predicate AllBlank(s: bytes) {
    forall i :: 0 <= i < |s| ==> s[i] == 32
  }

  /** Columns 1-8 hold the keyword, 9-10 the value indicator, and the value ends in column 30. */
  lemma AssignmentMeaning(key: bytes, value: bytes)
    requires |key| <= 8 && |value| <= 20
    ensures var t := CardText(Assignment(key, value));
            && |t| == 80
            && t[..|key|] == key && AllBlank(t[|key|..8]) && t[8] == 61 && AllBlank(t[9..30 - |value|])
            && t[30 - |value|..30] == value && AllBlank(t[30..80])
  {
    var t := CardText(Assignment(key, value));
    var a, b := key + Blanks(8 - |key|) + [61, 32], Blanks(20 - |value|);
    assert t == a + b + value + Blanks(50);
    assert a[..|key|] == key;
    assert (a + b + value)[30 - |value|..30] == value;
  }

  lemma EndCardMeaning()
    ensures var t := CardText(Ascii("END")); |t| == 80 && t[..3] == Ascii("END") && AllBlank(t[3..])
  {
  }
}
