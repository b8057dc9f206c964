/** The batch decoder: a whole FITS file to row-major 16-bit samples. */
module FitsFrame {
  import opened ByteText
  import opened Chunks
  import opened FitsHeader

  /** What the model takes from the floating-point library: the texts strconv.ParseFloat reads
      beyond exact integers, and the sample made of one BITPIX -32 or -64 value. */
  datatype Floats = Floats(parse: bytes -> Option<real>, sample: (int, bytes, real, real) -> u16)

  datatype Frame = Frame(
    width: int, height: int, pix: seq<u16>,
    bayer: bool, bayerX: int, bayerY: int,
    bitPix: int, header: Header)

  /** What a header says about the pixels. `mosaiced` is the 2-D case, the only one with a Bayer phase. */
  datatype Layout = Layout(
    w: nat, h: nat, bitpix: int, bzero: real, bscale: real, bottomUp: bool, mosaiced: bool)

  const UNSIGNED_BZERO := 32768.0
  const EXACT := 0x20_0000_0000_0000  // 2^53: every integer up to here is a float64

  function ParseFloat(fl: Floats, s: bytes): Option<real> {
    match Integer(s)
    case Some(n) => if -EXACT <= n <= EXACT then Some(n as real) else fl.parse(s)
    case None => fl.parse(s)
  }

  function HdrFloat(fl: Floats, h: Header, k: bytes, def: real): real {
    if k !in h then def else
    match ParseFloat(fl, TrimSpace(h[k]))
    case None => def
    case Some(f) => f
  }

  // ---- samples ----

  predicate FitsSupported(bitpix: int) {
    bitpix == 8 || bitpix == 16 || bitpix == 32 || bitpix == -32 || bitpix == -64
  }

  /** Go's integer division, which truncates toward zero. */
  function Quot(a: int, b: int): int
    requires b > 0
  {
    if a < 0 then -(-a / b) else a / b
  }

  /** Bytes per sample. */
  function Per(bitpix: int): nat {
    var q := Quot(bitpix, 8);
    if q < 0 then -q else q
  }

  /** Rounds to the nearest ADU, saturating at both ends. */
  function ClampADU(v: real): u16 {
    if v <= 0.0 then 0
    else if v >= 65535.0 then 65535
    else (v + 0.5).Floor as u16
  }

  /** The physical value of a stored integer. */
  function Physical(n: int, bscale: real, bzero: real): real {
    n as real * bscale + bzero
  }

  function BigEndian(b: bytes): (n: nat) {
    if b == [] then 0 else BigEndian(b[..|b| - 1]) * 256 + b[|b| - 1] as int
  }

  function Pow2(k: nat): (p: nat)
    ensures p > 0
  {
    if k == 0 then 1 else 2 * Pow2(k - 1)
  }

  /** The value of n read as a two's-complement number of the given width. */
  function TwosComplement(n: nat, bits: nat): int
    requires bits > 0
  {
    if n >= Pow2(bits - 1) then n - Pow2(bits) else n
  }

  /** The integer a BITPIX 8, 16 or 32 sample stores: 8 is unsigned, the others signed. */
  function Stored(bitpix: int, b: bytes): int
    requires bitpix == 8 || bitpix == 16 || bitpix == 32
  {
    if bitpix == 8 then BigEndian(b) else TwosComplement(BigEndian(b), bitpix)
  }

  /** The 16-bit sample for the stored bytes b: scale, offset, round and clamp. */
  function Sample(fl: Floats, bitpix: int, bzero: real, bscale: real, b: bytes): u16
    requires FitsSupported(bitpix)
  {
    if bitpix < 0 then fl.sample(bitpix, b, bzero, bscale)
    else ClampADU(Physical(Stored(bitpix, b), bscale, bzero))
  }

  /** One image row of n samples. */
  function ConvertRow(fl: Floats, n: nat, bitpix: int, bzero: real, bscale: real, row: bytes): (r: seq<u16>)
    requires FitsSupported(bitpix)
    ensures |r| == n
  {
    seq(n, x requires 0 <= x < n => Sample(fl, bitpix, bzero, bscale, Chunk(row, Per(bitpix), x)))
  }

  function FlipBit15(x: u16): u16 {
    if x >= 32768 then x - 32768 else x + 32768
  }

  function BE16(hi: byte, lo: byte): u16 {
    (hi as int * 256 + lo as int) as u16
  }

  function Int16(x: u16): int {
    if x >= 32768 then x as int - 65536 else x as int
  }

  function BE32(b: bytes): nat
    requires |b| == 4
  {
    ((b[0] as int * 256 + b[1] as int) * 256 + b[2] as int) * 256 + b[3] as int
  }

  function Int32(x: nat): int {
    if x >= 0x8000_0000 then x - 0x1_0000_0000 else x
  }

  lemma Stored8(b: bytes)
    requires |b| == 1
    ensures Stored(8, b) == b[0] as int
  {
    assert BigEndian(b[..0]) == 0;
  }

  lemma Stored16(b: bytes)
    requires |b| == 2
    ensures Stored(16, b) == Int16(BE16(b[0], b[1]))
  {
    assert b[..1][..0] == [];
    assert BigEndian(b[..1]) == b[0] as int;
    assert Pow2(16) == 65536 && Pow2(15) == 32768 by {
      assert Pow2(8) == 256;
    }
  }

  lemma Stored32(b: bytes)
    requires |b| == 4
    ensures Stored(32, b) == Int32(BE32(b))
  {
    assert b[..1][..0] == [] && b[..2][..1] == b[..1] && b[..3][..2] == b[..2];
    assert BigEndian(b[..1]) == b[0] as int;
    assert BigEndian(b[..2]) == b[0] as int * 256 + b[1] as int;
    assert BigEndian(b[..3]) == (b[0] as int * 256 + b[1] as int) * 256 + b[2] as int;
    assert Pow2(32) == 0x1_0000_0000 && Pow2(31) == 0x8000_0000 by {
      assert Pow2(8) == 256;
      assert Pow2(16) == 65536;
      assert Pow2(24) == 0x100_0000;
    }
  }

  /** Flipping bit 15 is what adding BZERO 32768 to the signed reading comes to. */
  lemma FastPathSample(x: u16)
    ensures ClampADU(Physical(Int16(x), 1.0, UNSIGNED_BZERO)) == FlipBit15(x)
  {
    var v := Physical(Int16(x), 1.0, UNSIGNED_BZERO);
    assert v == (Int16(x) + 32768) as real;
    RoundExact(Int16(x) + 32768);
  }

  lemma RoundExact(n: int)
    requires 0 <= n <= 65535
    ensures ClampADU(n as real) as int == n
  {
    assert (n as real + 0.5).Floor == n;
  }

  /** Rounding is monotone. */
  lemma ClampMonotone(v: real, w: real)
    requires v <= w
    ensures ClampADU(v) <= ClampADU(w)
  {
    assert (v + 0.5).Floor <= (w + 0.5).Floor;
  }

  /** Inside the 16-bit range the result is within half a unit of the physical value; outside it
      is the nearer end. So no representable sample is closer than the one chosen. */
  lemma ClampNearest(v: real, other: u16)
    ensures 0.0 <= v <= 65535.0 ==> -0.5 <= ClampADU(v) as int as real - v <= 0.5
    ensures Distance(v, ClampADU(v)) <= Distance(v, other)
  {
    if 0.0 < v < 65535.0 {
      var n := (v + 0.5).Floor;
      assert n as real <= v + 0.5 < n as real + 1.0;
      var o := other as int;
      if o > n { assert o as real >= n as real + 1.0; }
      if o < n { assert o as real <= n as real - 1.0; }
    }
  }

  function Distance(v: real, x: u16): real {
    var d := x as int as real - v;
    if d < 0.0 then -d else d
  }

  /** A larger stored value never gives a darker sample, when the scale is positive. */
  lemma SampleMonotone(fl: Floats, bitpix: int, bzero: real, bscale: real, a: bytes, b: bytes)
    requires bitpix == 8 || bitpix == 16 || bitpix == 32
    requires bscale > 0.0 && Stored(bitpix, a) <= Stored(bitpix, b)
    ensures Sample(fl, bitpix, bzero, bscale, a) <= Sample(fl, bitpix, bzero, bscale, b)
  {
    hide Stored;
    hide ClampADU;
    hide Physical;
    var x, y := Stored(bitpix, a), Stored(bitpix, b);
    PhysicalMonotone(x, y, bscale, bzero);
    ClampMonotone(Physical(x, bscale, bzero), Physical(y, bscale, bzero));
  }

  lemma PhysicalMonotone(x: int, y: int, bscale: real, bzero: real)
    requires x <= y && bscale > 0.0
    ensures Physical(x, bscale, bzero) <= Physical(y, bscale, bzero)
  {
    ScaleMonotone(x as real, y as real, bscale);
  }

  lemma ScaleMonotone(x: real, y: real, scale: real)
    requires x <= y && scale > 0.0
    ensures x * scale <= y * scale
  {
    assert y * scale - x * scale == (y - x) * scale;
  }

  /** What each branch of the row conversion computes from the bytes of one sample is the
      sample they stand for. */
  lemma SampleByBranch(fl: Floats, bitpix: int, bzero: real, bscale: real, b: bytes)
    requires FitsSupported(bitpix) && |b| == Per(bitpix)
    ensures var s := Sample(fl, bitpix, bzero, bscale, b);
            && (bitpix == 16 && bscale == 1.0 && bzero == UNSIGNED_BZERO ==> s == FlipBit15(BE16(b[0], b[1])))
            && (bitpix == 8 ==> s == ClampADU(Physical(b[0] as int, bscale, bzero)))
            && (bitpix == 16 ==> s == ClampADU(Physical(Int16(BE16(b[0], b[1])), bscale, bzero)))
            && (bitpix == 32 ==> s == ClampADU(Physical(Int32(BE32(b)), bscale, bzero)))
            && (bitpix < 0 ==> s == fl.sample(bitpix, b, bzero, bscale))
  {
    hide ClampADU;
    hide Physical;
    if bitpix == 8 {
      Stored8(b);
    } else if bitpix == 16 {
      Stored16(b);
      FastPathSample(BE16(b[0], b[1]));
    } else if bitpix == 32 {
      Stored32(b);
    }
  }

  /** Sample i of a row comes from its own Per bytes. */
  lemma ConvertedAt(fl: Floats, n: nat, bitpix: int, bzero: real, bscale: real, src: bytes, i: nat)
    requires FitsSupported(bitpix) && i < n && |src| == n * Per(bitpix)
    ensures i * Per(bitpix) + Per(bitpix) <= |src|
    ensures ConvertRow(fl, n, bitpix, bzero, bscale, src)[i]
            == Sample(fl, bitpix, bzero, bscale, src[i * Per(bitpix)..i * Per(bitpix) + Per(bitpix)])
  {
    hide Sample;
    ChunkSlice(src, Per(bitpix), i, n);
  }

  /** The general branch: the sample made of bytes i * Per.. of src. */
  method ConvertSample(fl: Floats, src: bytes, i: nat, bitpix: int, bzero: real, bscale: real) returns (v: u16)
    requires FitsSupported(bitpix) && i * Per(bitpix) + Per(bitpix) <= |src|
    ensures v == Sample(fl, bitpix, bzero, bscale, src[i * Per(bitpix)..i * Per(bitpix) + Per(bitpix)])
  {
    hide Sample;
    hide ClampADU;
    hide Physical;
    hide Int16;
    hide Int32;
    hide BE16;
    hide BE32;
    ghost var b := src[i * Per(bitpix)..i * Per(bitpix) + Per(bitpix)];
    SampleByBranch(fl, bitpix, bzero, bscale, b);
    if bitpix == 8 {
      assert b[0] == src[i];
      v := ClampADU(Physical(src[i] as int, bscale, bzero));
    } else if bitpix == 16 {
      assert b[0] == src[2 * i] && b[1] == src[2 * i + 1];
      v := ClampADU(Physical(Int16(BE16(src[2 * i], src[2 * i + 1])), bscale, bzero));
    } else if bitpix == 32 {
      assert b == src[4 * i..4 * i + 4];
      v := ClampADU(Physical(Int32(BE32(src[4 * i..4 * i + 4])), bscale, bzero));
    } else if bitpix == -32 {
      assert b == src[4 * i..4 * i + 4];
      v := fl.sample(bitpix, src[4 * i..4 * i + 4], bzero, bscale);
    } else {
      assert b == src[8 * i..8 * i + 8];
      v := fl.sample(bitpix, src[8 * i..8 * i + 8], bzero, bscale);
    }
  }

  /** Converts n samples of src into dst[at..at + n], leaving the rest of dst alone. */
  method ConvertFITSRow(fl: Floats, dst: array<u16>, at: nat, n: nat, src: bytes, bitpix: int, bzero: real, bscale: real)
    requires FitsSupported(bitpix)
    requires at + n <= dst.Length && |src| == n * Per(bitpix)
    modifies dst
    ensures dst[at..at + n] == ConvertRow(fl, n, bitpix, bzero, bscale, src)
    ensures forall k :: 0 <= k < dst.Length && !(at <= k < at + n) ==> dst[k] == old(dst[k])
  {
    hide ConvertRow;
    hide Sample;
    ghost var want := ConvertRow(fl, n, bitpix, bzero, bscale, src);
    var i := 0;
    if bitpix == 16 && bscale == 1.0 && bzero == UNSIGNED_BZERO {
      while i < n
        invariant 0 <= i <= n
        invariant forall k :: 0 <= k < i ==> dst[at + k] == want[k]
        invariant forall k :: 0 <= k < dst.Length && !(at <= k < at + n) ==> dst[k] == old(dst[k])
      {
        ConvertedAt(fl, n, bitpix, bzero, bscale, src, i);
        SampleByBranch(fl, bitpix, bzero, bscale, src[2 * i..2 * i + 2]);
        dst[at + i] := FlipBit15(BE16(src[2 * i], src[2 * i + 1]));
        i := i + 1;
      }
    } else {
      while i < n
        invariant 0 <= i <= n
        invariant forall k :: 0 <= k < i ==> dst[at + k] == want[k]
        invariant forall k :: 0 <= k < dst.Length && !(at <= k < at + n) ==> dst[k] == old(dst[k])
      {
        ConvertedAt(fl, n, bitpix, bzero, bscale, src, i);
        var v := ConvertSample(fl, src, i, bitpix, bzero, bscale);
        dst[at + i] := v;
        i := i + 1;
      }
    }
  }

  // ---- layout ----

  /** What DecodeFITS and FITSWriter both demand of a header. */
  function Plan(fl: Floats, hdr: Header): (r: Result<Layout, FitsError>)
    ensures r.Ok? ==> r.value.w > 0 && r.value.h > 0 && FitsSupported(r.value.bitpix)
  {
    var naxis := HdrInt(hdr, Ascii("NAXIS"), 0);
    if naxis != 2 && naxis != 3 then Err(BadNaxis) else
    var w, h := HdrInt(hdr, Ascii("NAXIS1"), 0), HdrInt(hdr, Ascii("NAXIS2"), 0);
    if w <= 0 || h <= 0 then Err(BadSize) else
    var bitpix := HdrInt(hdr, Ascii("BITPIX"), 0);
    if Per(bitpix) == 0 || !FitsSupported(bitpix) then Err(BadBitpix) else
    var bscale := HdrFloat(fl, hdr, Ascii("BSCALE"), 1.0);
    Ok(Layout(w, h, bitpix, HdrFloat(fl, hdr, Ascii("BZERO"), 0.0),
              if bscale == 0.0 then 1.0 else bscale, FitsBottomUp(hdr).0, naxis == 2))
  }

  function Stride(l: Layout): nat {
    l.w * Per(l.bitpix)
  }

  /** The row of the file shown as row d of the frame, and back: the map is its own inverse. */
  function Flip(l: Layout, d: nat): nat
    requires d < l.h
  {
    if l.bottomUp then l.h - 1 - d else d
  }

  function LayoutRow(fl: Floats, l: Layout, row: bytes): (r: seq<u16>)
    requires FitsSupported(l.bitpix)
    ensures |r| == l.w
  {
    ConvertRow(fl, l.w, l.bitpix, l.bzero, l.bscale, row)
  }

  /** The first n frame rows, top row first. */
  function Picture(fl: Floats, l: Layout, data: bytes, n: nat): (p: seq<u16>)
    requires FitsSupported(l.bitpix) && n <= l.h
    ensures |p| == n * l.w
  {
    if n == 0 then [] else
    assert n * l.w == (n - 1) * l.w + l.w;
    Picture(fl, l, data, n - 1) + LayoutRow(fl, l, Chunk(data, Stride(l), Flip(l, n - 1)))
  }

  lemma PictureNext(fl: Floats, l: Layout, data: bytes, n: nat)
    requires FitsSupported(l.bitpix) && n <= l.h
    ensures Picture(fl, l, data, 0) == []
    ensures n < l.h ==> Picture(fl, l, data, n + 1)
                        == Picture(fl, l, data, n) + LayoutRow(fl, l, Chunk(data, Stride(l), Flip(l, n)))
  {
  }

  lemma {:induction false} PictureRow(fl: Floats, l: Layout, data: bytes, n: nat, d: nat)
    requires FitsSupported(l.bitpix) && d < n <= l.h
    ensures Chunk(Picture(fl, l, data, n), l.w, d) == LayoutRow(fl, l, Chunk(data, Stride(l), Flip(l, d)))
  {
    hide Picture;
    hide LayoutRow;
    hide Chunk;
    hide Stride;
    hide Flip;
    var p := Picture(fl, l, data, n - 1);
    var row := LayoutRow(fl, l, Chunk(data, Stride(l), Flip(l, n - 1)));
    PictureNext(fl, l, data, n - 1);
    RowPlace(n - 1, n, l.w);
    if d == n - 1 {
      ChunkSlice(p + row, l.w, d, n);
      LastPart(p, row);
    } else {
      PictureRow(fl, l, data, n - 1, d);
      MulMono(d + 1, n - 1, l.w);
      ChunkExtend(p, row, l.w, d);
    }
  }

  lemma LastPart<T>(a: seq<T>, b: seq<T>)
    ensures (a + b)[|a|..|a| + |b|] == b
  {
  }

  /** Pixel (x, y) of the frame is the sample stored at (x, Flip(y)) of the file. */
  lemma PictureAt(fl: Floats, l: Layout, data: bytes, x: nat, y: nat)
    requires FitsSupported(l.bitpix) && x < l.w && y < l.h
    requires l.h * Stride(l) <= |data|
    ensures 0 <= y * l.w + x < |Picture(fl, l, data, l.h)|
    ensures var at := Flip(l, y) * Stride(l) + x * Per(l.bitpix);
            && 0 <= at && at + Per(l.bitpix) <= |data|
            && Picture(fl, l, data, l.h)[y * l.w + x]
               == Sample(fl, l.bitpix, l.bzero, l.bscale, data[at..at + Per(l.bitpix)])
  {
    hide Sample;
    hide Picture;
    hide Chunk;
    var per, s := Per(l.bitpix), Flip(l, y);
    MulMono(y + 1, l.h, l.w);
    PictureRow(fl, l, data, l.h, y);
    ChunkAt(Picture(fl, l, data, l.h), l.w, y, x);
    InsideRow(data, Stride(l), per, l.w, l.h, s, x, s * Stride(l), x * per);
  }

  /** Piece x of piece s, where a row of `stride` bytes holds w samples. */
  lemma InsideRow(data: bytes, stride: nat, per: nat, w: nat, h: nat, s: nat, x: nat, row: int, col: int)
    requires x < w && s < h && w * per <= stride && h * stride <= |data|
    requires row == s * stride && col == x * per
    ensures 0 <= row && 0 <= col && row + col + per <= |data|
    ensures Chunk(Chunk(data, stride, s), per, x) == data[row + col..row + col + per]
  {
    hide Chunk;
    ChunkSlice(data, stride, s, h);
    ChunkSlice(Chunk(data, stride, s), per, x, w);
    SliceOfSlice(data, row, stride, col, per);
  }

  // ---- Bayer phase ----

  /** The column and row, within the 2x2 tile, of the red pixel. */
  function BayerPhase(name: bytes): Option<(int, int)> {
    if name == Ascii("RGGB") then Some((0, 0))
    else if name == Ascii("BGGR") then Some((1, 1))
    else if name == Ascii("GRBG") then Some((1, 0))
    else if name == Ascii("GBRG") then Some((0, 1))
    else None
  }

  function HeaderPhase(hdr: Header): Option<(int, int)> {
    BayerPhase(if Ascii("BAYERPAT") in hdr then Upper(hdr[Ascii("BAYERPAT")]) else [])
  }

  function FitsMosaic(fr: Frame, hdr: Header, flipped: bool): Frame {
    match HeaderPhase(hdr)
    case None => fr
    case Some((x, y)) =>
      var ry := (y + HdrInt(hdr, Ascii("YBAYROFF"), 0)) % 2;
      fr.(bayer := true,
          bayerX := (x + HdrInt(hdr, Ascii("XBAYROFF"), 0)) % 2,
          bayerY := if flipped && fr.height % 2 == 0 then 1 - ry else ry)
  }

  /** (x, y) is a red site of a tiling whose red pixel sits at (rx, ry) modulo 2. */
  predicate RedSite(x: int, y: int, rx: int, ry: int) {
    (x - rx) % 2 == 0 && (y - ry) % 2 == 0
  }

  /** The reported phase marks an output pixel red exactly when the file pixel it shows is red
      in the pattern the header describes, for every height, offset and row order. */
  lemma MosaicSurvivesFlip(l: Layout, fr: Frame, hdr: Header, x: nat, y: nat)
    requires y < l.h && fr.height == l.h && HeaderPhase(hdr).Some?
    ensures var (px, py) := HeaderPhase(hdr).value;
            var out := FitsMosaic(fr, hdr, l.bottomUp);
            && out.bayer && 0 <= out.bayerX <= 1 && 0 <= out.bayerY <= 1
            && (RedSite(x, y, out.bayerX, out.bayerY) <==>
                RedSite(x, Flip(l, y), px + HdrInt(hdr, Ascii("XBAYROFF"), 0), py + HdrInt(hdr, Ascii("YBAYROFF"), 0)))
  {
    hide HdrInt;
    hide HeaderPhase;
    var (px, py) := HeaderPhase(hdr).value;
    SameParity(x, px + HdrInt(hdr, Ascii("XBAYROFF"), 0));
    FlipParity(l.h, l.bottomUp, y, py + HdrInt(hdr, Ascii("YBAYROFF"), 0));
  }

  lemma SameParity(a: int, b: int)
    ensures 0 <= b % 2 <= 1
    ensures (a - b) % 2 == 0 <==> (a - b % 2) % 2 == 0
  {
  }

  lemma FlipParity(h: nat, flipped: bool, y: nat, r: int)
    requires y < h
    ensures 0 <= r % 2 <= 1
    ensures ((if flipped then h - 1 - y else y) - r) % 2 == 0
            <==> (y - (if flipped && h % 2 == 0 then 1 - r % 2 else r % 2)) % 2 == 0
  {
    var k := r / 2;
    assert r == 2 * k + r % 2;
    if flipped {
      var m := h / 2;
      assert h == 2 * m + h % 2;
      EvenShift(y - (h - 1) + r % 2, h - 1 - y - r, -2 * y + 2 * (h - 1) - 2 * k - 2 * (r % 2));
    } else {
      EvenShift(y - r % 2, y - r, -2 * k);
    }
  }

  lemma EvenShift(a: int, b: int, d: int)
    requires b - a == d && d % 2 == 0
    ensures a % 2 == 0 <==> b % 2 == 0
  {
  }

  // ---- the decoder ----

  function FrameOf(fl: Floats, hdr: Header, l: Layout, data: bytes): Frame
    requires FitsSupported(l.bitpix)
  {
    var fr := Frame(l.w, l.h, Picture(fl, l, data, l.h), false, 0, 0, l.bitpix, hdr);
    if l.mosaiced then FitsMosaic(fr, hdr, l.bottomUp) else fr
  }

  /** What a payload decodes to: the frame its header lays out, if all its rows are there. */
  function Decoded(fl: Floats, raw: bytes): Result<Frame, FitsError> {
    match ScanHeader(raw)
    case Err(e) => Err(e)
    case Ok(s) =>
      match Plan(fl, s.hdr)
      case Err(e) => Err(e)
      case Ok(l) =>
        var data := raw[s.off..];
        if |data| < l.h * Stride(l) then Err(Short) else Ok(FrameOf(fl, s.hdr, l, data))
  }

  /** The overflow-free test by division says the same as the product: fewer than h whole rows. */
  lemma ShortByDivision(w: nat, h: nat, per: nat, len: nat)
    requires h > 0 && per > 0
    ensures w > (len / per) / h <==> len < h * (w * per)
  {
    QuotientBelow(len / per, h, w);
    QuotientBelow(len, per, w * h);
    Rearrange(h, w, per);
  }

  lemma QuotientBelow(a: nat, b: nat, c: nat)
    requires b > 0
    ensures c > a / b <==> a < c * b
  {
    var k := a / b;
    assert a == k * b + a % b;
    if c > k {
      MulMono(k + 1, c, b);
      assert (k + 1) * b == k * b + b;
    } else {
      MulMono(c, k, b);
    }
  }

  lemma Rearrange(h: nat, w: nat, per: nat)
    ensures h * (w * per) == (w * h) * per
  {
  }

  method DecodeFITS(fl: Floats, blob: bytes) returns (r: Result<Frame, FitsError>)
    ensures r == Decoded(fl, blob)
  {
    hide HdrInt;
    hide HdrFloat;
    hide FitsBottomUp;
    hide ScanHeader;
    hide FitsMosaic;
    hide Picture;
    var scanned := ScanFITSHeader(blob);
    if scanned.Err? {
      return Err(scanned.error);
    }
    var hdr, off := scanned.value.hdr, scanned.value.off;
    var naxis := HdrInt(hdr, Ascii("NAXIS"), 0);
    if naxis != 2 && naxis != 3 {
      return Err(BadNaxis);
    }
    var w, h := HdrInt(hdr, Ascii("NAXIS1"), 0), HdrInt(hdr, Ascii("NAXIS2"), 0);
    if w <= 0 || h <= 0 {
      return Err(BadSize);
    }
    var bitpix := HdrInt(hdr, Ascii("BITPIX"), 0);
    var per := Quot(bitpix, 8);
    if per < 0 {
      per := -per;
    }
    if per == 0 || !FitsSupported(bitpix) {
      return Err(BadBitpix);
    }
    var data := blob[off..];
    ShortByDivision(w, h, per, |data|);
    if w > (|data| / per) / h {
      return Err(Short);
    }
    var bzero, bscale := HdrFloat(fl, hdr, Ascii("BZERO"), 0.0), HdrFloat(fl, hdr, Ascii("BSCALE"), 1.0);
    if bscale == 0.0 {
      bscale := 1.0;
    }
    var bottomUp := FitsBottomUp(hdr).0;
    ghost var l := Plan(fl, hdr).value;
    var pix := DecodeRows(fl, l, w, h, bitpix, bzero, bscale, bottomUp, data);
    var fr := Frame(w, h, pix[..], false, 0, 0, bitpix, hdr);
    if naxis == 2 {
      fr := FitsMosaic(fr, hdr, bottomUp);
    }
    return Ok(fr);
  }

  /** The row loop of DecodeFITS. */
  method DecodeRows(fl: Floats, ghost l: Layout, w: nat, h: nat, bitpix: int, bzero: real, bscale: real,
                    bottomUp: bool, data: bytes)
    returns (pix: array<u16>)
    requires l == Layout(w, h, bitpix, bzero, bscale, bottomUp, l.mosaiced)
    requires FitsSupported(bitpix) && h * Stride(l) <= |data|
    ensures fresh(pix) && pix[..] == Picture(fl, l, data, h)
  {
    hide Picture;
    hide Chunk;
    hide FitsSupported;
    hide Stride;
    pix := new u16[w * h];
    assert w * h == h * w;
    PictureNext(fl, l, data, 0);
    var y := 0;
    while y < h
      invariant 0 <= y <= h && 0 <= y * w <= pix.Length
      invariant pix[..y * w] == Picture(fl, l, data, y)
    {
      var src := if bottomUp then h - 1 - y else y;
      DecodeNext(fl, l, pix, w, h, bitpix, bzero, bscale, y, src, data);
      y := y + 1;
    }
  }

  /** One turn of the loop: file row src is put behind the y rows already there. */
  method DecodeNext(fl: Floats, ghost l: Layout, pix: array<u16>, w: nat, h: nat, bitpix: int, bzero: real, bscale: real,
                    y: nat, src: nat, data: bytes)
    requires l == Layout(w, h, bitpix, bzero, bscale, l.bottomUp, l.mosaiced) && y < h && src == Flip(l, y)
    requires FitsSupported(bitpix) && h * Stride(l) <= |data| && pix.Length == w * h
    requires 0 <= y * w <= pix.Length && pix[..y * w] == Picture(fl, l, data, y)
    modifies pix
    ensures 0 <= (y + 1) * w <= pix.Length && pix[..(y + 1) * w] == Picture(fl, l, data, y + 1)
  {
    hide Picture;
    hide Chunk;
    hide ConvertRow;
    hide Flip;
    var at, stride := y * w, w * Per(bitpix);
    RowPlace(y, h, w);
    RowSource(fl, l, data, y);
    PictureNext(fl, l, data, y);
    var from := src * stride;
    assert at + w <= pix.Length && from + stride <= |data|;
    DecodeRow(fl, pix, at, w, data[from..from + stride], bitpix, bzero, bscale);
  }

  /** One row, put behind those already there. */
  method DecodeRow(fl: Floats, pix: array<u16>, at: nat, w: nat, row: bytes, bitpix: int, bzero: real, bscale: real)
    requires FitsSupported(bitpix) && at + w <= pix.Length && |row| == w * Per(bitpix)
    modifies pix
    ensures pix[..at + w] == old(pix[..at]) + ConvertRow(fl, w, bitpix, bzero, bscale, row)
  {
    hide ConvertRow;
    ghost var was := pix[..];
    ConvertFITSRow(fl, pix, at, w, row, bitpix, bzero, bscale);
    RowAdded(was, pix[..], at, w);
  }

  lemma RowPlace(y: nat, h: nat, w: nat)
    requires y < h
    ensures 0 <= y * w && y * w + w <= h * w && (y + 1) * w == y * w + w
  {
    MulMono(y + 1, h, w);
  }

  lemma RowAdded(was: seq<u16>, now: seq<u16>, at: nat, w: nat)
    requires |was| == |now| && at + w <= |now|
    requires forall k :: 0 <= k < |now| && !(at <= k < at + w) ==> now[k] == was[k]
    ensures now[..at + w] == was[..at] + now[at..at + w]
  {
  }

  /** The file row shown at y, found directly in the data. */
  lemma RowSource(fl: Floats, l: Layout, data: bytes, y: nat)
    requires FitsSupported(l.bitpix) && y < l.h && l.h * Stride(l) <= |data|
    ensures var from := Flip(l, y) * Stride(l);
            && 0 <= from && from + Stride(l) <= |data|
            && LayoutRow(fl, l, Chunk(data, Stride(l), Flip(l, y)))
               == ConvertRow(fl, l.w, l.bitpix, l.bzero, l.bscale, data[from..from + Stride(l)])
  {
    hide Chunk;
    hide ConvertRow;
    ChunkSlice(data, Stride(l), Flip(l, y), l.h);
  }
}
