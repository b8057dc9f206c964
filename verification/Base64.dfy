/** Base64 as RFC 4648 section 4 defines it, and what the client's decoder accepts. */
module Base64 {
  import opened ByteText

  const PAD: byte := 61

  // ---- alphabet ----

  function Alpha(i: nat): (ch: byte)
    requires i < 64
  {
    if i < 26 then (65 + i) as byte
    else if i < 52 then (97 + i - 26) as byte
    else if i < 62 then (48 + i - 52) as byte
    else if i == 62 then 43 else 47
  }

  /** The 6-bit value of a character of the alphabet; -1 for any other byte. */
  function Digit(ch: byte): (d: int)
    ensures -1 <= d < 64
  {
    if 65 <= ch <= 90 then ch as int - 65
    else if 97 <= ch <= 122 then ch as int - 97 + 26
    else if 48 <= ch <= 57 then ch as int - 48 + 52
    else if ch == 43 then 62 else if ch == 47 then 63 else -1
  }

  lemma AlphaDigit(i: nat)
    requires i < 64
    ensures Digit(Alpha(i)) == i
  {
  }

  lemma DigitAlpha(ch: byte)
    requires Digit(ch) >= 0
    ensures Alpha(Digit(ch)) == ch
  {
  }

  /** The reverse table as the package builds it: all -1, then one entry per letter. */
  method BuildReverse() returns (t: array<int>)
    ensures fresh(t) && t.Length == 256
    ensures forall ch: byte :: t[ch as int] == Digit(ch)
  {
    t := new int[256](_ => -1);
    var i := 0;
    while i < 64
      invariant 0 <= i <= 64
      invariant forall ch: byte :: t[ch as int] == if Digit(ch) < i then Digit(ch) else -1
    {
      AlphaDigit(i);
      ghost var before := t[..];
      t[Alpha(i) as int] := i;
      forall ch: byte
        ensures t[ch as int] == if Digit(ch) < i + 1 then Digit(ch) else -1
      {
        assert ch != Alpha(i) ==> t[ch as int] == before[ch as int];
        if Digit(ch) == i { DigitAlpha(ch); }
      }
      i := i + 1;
    }
  }

  // ---- white space ----

  predicate IsBlank(ch: byte) {
    ch == 32 || ch == 9 || ch == 13 || ch == 10
  }

  /** The text without its white space. */
  function Strip(s: bytes): (t: bytes)
    ensures |t| <= |s|
  {
    if s == [] then [] else Strip(s[..|s| - 1]) + (if IsBlank(s[|s| - 1]) then [] else [s[|s| - 1]])
  }

  lemma {:induction false} StripConcat(a: bytes, b: bytes)
    ensures Strip(a + b) == Strip(a) + Strip(b)
  {
    if b == [] {
      assert a + b == a;
    } else {
      StripConcat(a, b[..|b| - 1]);
      assert (a + b)[..|a + b| - 1] == a + b[..|b| - 1];
    }
  }

  // ---- one quantum ----

  /** Four characters of the alphabet, the last one or two of which may be padding. */
  predicate QuadOk(q: bytes) {
    && |q| == 4
    && Digit(q[0]) >= 0 && Digit(q[1]) >= 0
    && ((Digit(q[2]) >= 0 && Digit(q[3]) >= 0) || (Digit(q[2]) >= 0 && q[3] == PAD) || (q[2] == PAD && q[3] == PAD))
  }

  /** The bytes a quantum stands for: 3 less its padding. */
  function QuadLen(q: bytes): (n: nat)
    requires |q| == 4
    ensures 1 <= n <= 3
  {
    if q[2] == PAD then 1 else if q[3] == PAD then 2 else 3
  }

  function Bits(ch: byte): (v: nat)
    ensures v < 64
  {
    if Digit(ch) < 0 then 0 else Digit(ch)
  }

  /** The 24 bits of a quantum, padding counting as zeros. */
  function Group(q: bytes): (g: nat)
    requires |q| == 4
    ensures g < 0x100_0000
  {
    ((Bits(q[0]) * 64 + Bits(q[1])) * 64 + Bits(q[2])) * 64 + Bits(q[3])
  }

  function ThreeBytes(g: nat): (b: bytes)
    requires g < 0x100_0000
    ensures |b| == 3
  {
    [(g / 65536) as byte, (g / 256 % 256) as byte, (g % 256) as byte]
  }

  function QuadBytes(q: bytes): (b: bytes)
    requires |q| == 4
    ensures |b| == QuadLen(q)
  {
    ThreeBytes(Group(q))[..QuadLen(q)]
  }

  // ---- whole texts ----

  function Quads(q: bytes): nat {
    |q| / 4
  }

  function QuadAt(q: bytes, k: nat): (r: bytes)
    requires k < Quads(q)
    ensures |r| == 4
  {
    q[4 * k..4 * k + 4]
  }

  /** Whole quanta over the alphabet, with padding nowhere but in the last. */
  predicate WellFormed(q: bytes) {
    && |q| % 4 == 0
    && forall k: nat :: k < Quads(q) ==> QuadOk(QuadAt(q, k)) && (QuadLen(QuadAt(q, k)) < 3 ==> k == Quads(q) - 1)
  }

  /** A text that could still become well formed, as far as its whole quanta and any padding tell. */
  ghost predicate Live(q: bytes) {
    forall k: nat :: k < Quads(q) ==> QuadOk(QuadAt(q, k)) && (QuadLen(QuadAt(q, k)) < 3 ==> 4 * k + 4 == |q|)
  }

  /** The bytes of the first n quanta. */
  function Payload(q: bytes, n: nat): (b: bytes)
    requires n <= Quads(q)
    ensures |b| <= 3 * n
  {
    if n == 0 then [] else Payload(q, n - 1) + QuadBytes(QuadAt(q, n - 1))
  }

  function DecodedText(q: bytes): bytes {
    Payload(q, Quads(q))
  }

  lemma WellFormedIsLive(q: bytes)
    ensures WellFormed(q) <==> |q| % 4 == 0 && Live(q)
  {
  }

  lemma QuadAtPrefix(q: bytes, more: bytes, k: nat)
    requires k < Quads(q)
    ensures QuadAt(q + more, k) == QuadAt(q, k)
  {
  }

  /** Once a text is past saving it stays so. */
  lemma LivePrefix(q: bytes, more: bytes)
    requires Live(q + more)
    ensures Live(q)
  {
    forall k: nat | k < Quads(q)
      ensures QuadOk(QuadAt(q, k)) && (QuadLen(QuadAt(q, k)) < 3 ==> 4 * k + 4 == |q|)
    {
      QuadAtPrefix(q, more, k);
    }
  }

  lemma {:induction false} PayloadPrefix(q: bytes, more: bytes, n: nat)
    requires n <= Quads(q)
    ensures Payload(q + more, n) == Payload(q, n)
  {
    hide QuadBytes;
    hide QuadAt;
    hide Payload;
    if n == 0 {
      PayloadNone(q);
      PayloadNone(q + more);
    } else {
      QuadAtPrefix(q, more, n - 1);
      PayloadPrefix(q, more, n - 1);
      PayloadNext(q, n - 1);
      PayloadNext(q + more, n - 1);
    }
  }

  // ---- encoding ----

  function FourChars(g: nat): (q: bytes)
    requires g < 0x100_0000
    ensures |q| == 4
  {
    [Alpha(g / 262144), Alpha(g / 4096 % 64), Alpha(g / 64 % 64), Alpha(g % 64)]
  }

  function Group3(b: bytes): (g: nat)
    requires |b| == 3
    ensures g < 0x100_0000
  {
    b[0] as int * 65536 + b[1] as int * 256 + b[2] as int
  }

  /** The quantum for 1, 2 or 3 bytes. */
  function EncodeQuad(b: bytes): (q: bytes)
    requires 1 <= |b| <= 3
    ensures |q| == 4
  {
    if |b| == 3 then FourChars(Group3(b))
    else if |b| == 2 then FourChars(Group3(b + [0]))[..3] + [PAD]
    else FourChars(Group3(b + [0, 0]))[..2] + [PAD, PAD]
  }

  /** base64.StdEncoding.EncodeToString. */
  function Encode(b: bytes): (q: bytes)
    decreases |b|
  {
    if |b| == 0 then [] else if |b| <= 3 then EncodeQuad(b) else EncodeQuad(b[..3]) + Encode(b[3..])
  }

  lemma FourCharsGroup(g: nat)
    requires g < 0x100_0000
    ensures var q := FourChars(g);
            && (forall i :: 0 <= i < 4 ==> Digit(q[i]) >= 0)
            && Digit(q[0]) == g / 262144 && Digit(q[1]) == g / 4096 % 64
            && Digit(q[2]) == g / 64 % 64 && Digit(q[3]) == g % 64
            && Group(q) == g
  {
    hide Alpha;
    hide Digit;
    AlphaDigit(g / 262144);
    AlphaDigit(g / 4096 % 64);
    AlphaDigit(g / 64 % 64);
    AlphaDigit(g % 64);
    SixBits(g);
  }

  /** A 24-bit number from its four 6-bit digits. */
  lemma SixBits(g: nat)
    ensures ((g / 262144 * 64 + g / 4096 % 64) * 64 + g / 64 % 64) * 64 + g % 64 == g
  {
    var a := g / 64;
    var b := a / 64;
    assert b == g / 4096 && b / 64 == g / 262144;
    assert g == a * 64 + g % 64 && a == b * 64 + a % 64 && b == b / 64 * 64 + b % 64;
  }

  lemma ThreeBytesGroup(b: bytes)
    requires |b| == 3
    ensures ThreeBytes(Group3(b)) == b
  {
  }

  /** One quantum decodes to the bytes it was made of. */
  lemma QuadRoundTrip(b: bytes)
    requires 1 <= |b| <= 3
    ensures var q := EncodeQuad(b); QuadOk(q) && QuadLen(q) == |b| && QuadBytes(q) == b
  {
    hide FourChars;
    hide Group;
    var full := if |b| == 3 then b else if |b| == 2 then b + [0] else b + [0, 0];
    var q := EncodeQuad(b);
    FourCharsGroup(Group3(full));
    ThreeBytesGroup(full);
    if |b| == 2 {
      Group2(q, Group3(full));
    } else if |b| == 1 {
      Group1(q, Group3(full));
    }
    assert Group(q) == Group3(full);
    assert full[..|b|] == b;
  }

  lemma Group2(q: bytes, g: nat)
    requires g < 0x100_0000 && g % 256 == 0 && q == FourChars(g)[..3] + [PAD]
    ensures Group(q) == g
  {
    hide FourChars;
    hide Digit;
    FourCharsGroup(g);
    PadIsZero();
    LowDigits(g);
    SixBits(g);
  }

  lemma Group1(q: bytes, g: nat)
    requires g < 0x100_0000 && g % 65536 == 0 && q == FourChars(g)[..2] + [PAD, PAD]
    ensures Group(q) == g
  {
    hide FourChars;
    hide Digit;
    FourCharsGroup(g);
    PadIsZero();
    LowDigits(g);
    SixBits(g);
  }

  lemma PadIsZero()
    ensures Digit(PAD) < 0
  {
  }

  lemma LowDigits(g: nat)
    ensures g % 256 == 0 ==> g % 64 == 0
    ensures g % 65536 == 0 ==> g % 256 == 0 && g / 64 % 64 == 0
  {
    var k := g / 65536;
    if g % 65536 == 0 {
      assert g == 256 * (256 * k);
      assert g / 64 == 64 * (16 * k);
    }
    var j := g / 256;
    if g % 256 == 0 {
      assert g == 64 * (4 * j);
    }
  }

  lemma QuadAtAppend(first: bytes, rest: bytes, k: nat)
    requires |first| == 4 && k < Quads(first + rest)
    ensures QuadAt(first + rest, k) == if k == 0 then first else QuadAt(rest, k - 1)
  {
  }

  lemma {:induction false} PayloadAppend(first: bytes, rest: bytes, n: nat)
    requires |first| == 4 && n <= Quads(rest)
    ensures Payload(first + rest, n + 1) == QuadBytes(first) + Payload(rest, n)
  {
    hide QuadBytes;
    hide Payload;
    hide QuadAt;
    QuadAtAppend(first, rest, n);
    PayloadNext(first + rest, n);
    PayloadNone(first + rest);
    PayloadNone(rest);
    if n > 0 {
      PayloadAppend(first, rest, n - 1);
      PayloadNext(rest, n - 1);
    }
  }

  lemma PayloadNext(q: bytes, n: nat)
    requires n < Quads(q)
    ensures Payload(q, n + 1) == Payload(q, n) + QuadBytes(QuadAt(q, n))
  {
  }

  lemma PayloadNone(q: bytes)
    ensures Payload(q, 0) == []
  {
  }

  /** Decoding inverts encoding, for every byte string. */
  lemma {:induction false} EncodeDecode(b: bytes)
    ensures WellFormed(Encode(b)) && DecodedText(Encode(b)) == b
    decreases |b|
  {
    hide QuadOk;
    hide QuadLen;
    hide QuadBytes;
    hide EncodeQuad;
    hide Payload;
    hide WellFormed;
    if |b| == 0 {
      PayloadNone([]);
      WellFormedNone();
    } else if |b| <= 3 {
      QuadRoundTrip(b);
      var q := Encode(b);
      assert q + [] == q && b + [] == b;
      PayloadNone([]);
      PayloadAppend(q, [], 0);
      WellFormedNone();
      WellFormedAppend(q, []);
    } else {
      QuadRoundTrip(b[..3]);
      EncodeDecode(b[3..]);
      var first, rest := EncodeQuad(b[..3]), Encode(b[3..]);
      PayloadAppend(first, rest, Quads(rest));
      assert Quads(first + rest) == Quads(rest) + 1;
      WellFormedAppend(first, rest);
      assert b[..3] + b[3..] == b;
    }
  }

  lemma WellFormedNone()
    ensures WellFormed([])
  {
  }

  /** A quantum put in front of a text; if it is padded the text has to be empty. */
  lemma WellFormedAppend(first: bytes, rest: bytes)
    requires |first| == 4 && QuadOk(first) && WellFormed(rest) && (QuadLen(first) < 3 ==> rest == [])
    ensures WellFormed(first + rest)
  {
    hide QuadOk;
    hide QuadLen;
    hide QuadAt;
    assert Quads(first + rest) == Quads(rest) + 1;
    forall k: nat | k < Quads(first + rest)
      ensures QuadOk(QuadAt(first + rest, k)) && (QuadLen(QuadAt(first + rest, k)) < 3 ==> k == Quads(first + rest) - 1)
    {
      QuadAtAppend(first, rest, k);
    }
  }

  // ---- leniency ----

  /** The bits that padding leaves unused in the last character are zero. */
  predicate CanonicalQuad(q: bytes)
    requires |q| == 4
  {
    if QuadLen(q) == 1 then Bits(q[1]) % 16 == 0
    else if QuadLen(q) == 2 then Bits(q[2]) % 4 == 0
    else true
  }

  /** The decoder ignores unused bits (section 3.5 leaves that open), so re-encoding gives back
      a quantum exactly when they are zero. */
  lemma QuadCanonical(q: bytes)
    requires QuadOk(q)
    ensures EncodeQuad(QuadBytes(q)) == q <==> CanonicalQuad(q)
  {
    hide FourChars;
    hide Group;
    hide Unit;
    hide Digit;
    var n := QuadLen(q);
    var back := Group(q) / Unit(n) * Unit(n);
    UnitBound(Group(q), n);
    var r := FourChars(back);
    Reencoded(q);
    KeptDigits(q);
    assert (forall i :: 0 <= i <= n ==> r[i] == q[i]) <==> EncodeQuad(QuadBytes(q)) == q by {
      assert forall i :: 0 <= i <= n ==> (r[..n + 1] + q[n + 1..])[i] == r[i];
    }
  }

  lemma PaddingTail(q: bytes)
    requires QuadOk(q)
    ensures var n := QuadLen(q);
            q[n + 1..] == (if n == 3 then [] else if n == 2 then [PAD] else [PAD, PAD])
            && (n <= 2 ==> Bits(q[3]) == 0) && (n == 1 ==> Bits(q[2]) == 0)
            && forall i :: 0 <= i <= n ==> Digit(q[i]) >= 0 && Bits(q[i]) == Digit(q[i])
  {
  }

  lemma UnitBound(g: nat, n: nat)
    requires 1 <= n <= 3
    ensures 0 <= g / Unit(n) * Unit(n) <= g
  {
  }

  /** Re-encoding gives the characters of the group without its unused bits, then the padding. */
  lemma Reencoded(q: bytes)
    requires QuadOk(q)
    ensures var n := QuadLen(q);
            var back := Group(q) / Unit(n) * Unit(n);
            0 <= back < 0x100_0000 && EncodeQuad(QuadBytes(q)) == FourChars(back)[..n + 1] + q[n + 1..]
  {
    hide FourChars;
    hide Group;
    hide Group3;
    hide Unit;
    hide ThreeBytes;
    hide Digit;
    var n, g, b := QuadLen(q), Group(q), QuadBytes(q);
    UnitBound(g, n);
    var full := if n == 3 then b else if n == 2 then b + [0] else b + [0, 0];
    GroupBack(g, full, n);
    PaddingTail(q);
  }

  /** Of the characters a quantum keeps, all but the last come back, and the last comes back
      exactly when its unused bits are zero. */
  lemma KeptDigits(q: bytes)
    requires QuadOk(q)
    ensures var n := QuadLen(q);
            var back := Group(q) / Unit(n) * Unit(n);
            0 <= back < 0x100_0000 &&
            ((forall i :: 0 <= i <= n ==> FourChars(back)[i] == q[i]) <==> CanonicalQuad(q))
  {
    hide FourChars;
    hide Digit;
    var n := QuadLen(q);
    var back := Group(q) / Unit(n) * Unit(n);
    UnitBound(Group(q), n);
    var r := FourChars(back);
    FourCharsGroup(back);
    PaddingTail(q);
    DigitsBack(Bits(q[0]), Bits(q[1]), Bits(q[2]), Bits(q[3]), n);
    hide Group;
    hide Unit;
    hide QuadOk;
    SameDigit(q[0], r[0]);
    SameDigit(q[1], r[1]);
    if n == 1 {
      WholeWhen(Digit(q[1]), 16);
    } else {
      SameDigit(q[2], r[2]);
      if n == 2 {
        WholeWhen(Digit(q[2]), 4);
      } else {
        SameDigit(q[3], r[3]);
      }
    }
  }

  lemma WholeWhen(d: int, u: nat)
    requires u == 4 || u == 16
    ensures d / u * u == d <==> d % u == 0
  {
  }

  /** A whole accepted text is the encoding of what it decodes to exactly when its last quantum
      leaves no unused bit set. */
  lemma {:induction false} TextCanonical(q: bytes)
    requires WellFormed(q)
    ensures Encode(DecodedText(q)) == q <==> q == [] || CanonicalQuad(QuadAt(q, Quads(q) - 1))
    decreases |q|
  {
    hide QuadOk;
    hide QuadBytes;
    hide EncodeQuad;
    hide CanonicalQuad;
    hide DecodedText;
    hide QuadLen;
    hide Encode;
    if |q| == 0 {
      EncodeShort(q);
      WholeTexts(q);
    } else if |q| == 4 {
      assert QuadAt(q, 0) == q;
      WholeTexts(q);
      QuadCanonical(q);
      EncodeShort(QuadBytes(q));
    } else {
      var first, rest := q[..4], q[4..];
      assert q == first + rest;
      FirstAndRest(first, rest);
      TextCanonical(rest);
      var again := Encode(DecodedText(rest));
      assert first + again == first + rest <==> again == rest by {
        assert (first + again)[4..] == again && (first + rest)[4..] == rest;
      }
    }
  }

  lemma EncodeShort(b: bytes)
    requires |b| <= 3
    ensures Encode(b) == if |b| == 0 then [] else EncodeQuad(b)
  {
  }

  lemma WholeTexts(q: bytes)
    requires |q| == 0 || |q| == 4
    ensures DecodedText(q) == if |q| == 0 then [] else QuadBytes(q)
  {
    hide QuadBytes;
    hide Payload;
    PayloadNone(q);
    if |q| == 4 {
      assert QuadAt(q, 0) == q;
      PayloadNext(q, 0);
    }
  }

  /** A text of several quanta: the first is whole, and the rest is a text of its own. */
  lemma FirstAndRest(first: bytes, rest: bytes)
    requires |first| == 4 && rest != [] && WellFormed(first + rest)
    ensures WellFormed(rest) && Encode(DecodedText(first + rest)) == first + Encode(DecodedText(rest))
    ensures Quads(rest) > 0 && QuadAt(first + rest, Quads(first + rest) - 1) == QuadAt(rest, Quads(rest) - 1)
  {
    hide QuadOk;
    hide QuadBytes;
    hide QuadLen;
    hide EncodeQuad;
    hide CanonicalQuad;
    hide QuadAt;
    hide Payload;
    hide Encode;
    var q := first + rest;
    assert Quads(q) == Quads(rest) + 1;
    QuadAtAppend(first, rest, 0);
    forall k: nat | k < Quads(rest)
      ensures QuadAt(q, k + 1) == QuadAt(rest, k)
    {
      QuadAtAppend(first, rest, k + 1);
    }
    PayloadAppend(first, rest, Quads(rest));
    QuadCanonical(first);
    FullQuadCanonical(first);
    NotEmpty(rest);
    EncodeFirst(QuadBytes(first), DecodedText(rest));
  }

  lemma FullQuadCanonical(q: bytes)
    requires |q| == 4 && QuadLen(q) == 3
    ensures CanonicalQuad(q)
  {
  }

  lemma NotEmpty(q: bytes)
    requires Quads(q) > 0
    ensures |DecodedText(q)| > 0
  {
    hide QuadBytes;
    hide QuadAt;
    hide Payload;
    PayloadNext(q, Quads(q) - 1);
  }

  lemma EncodeFirst(a: bytes, rest: bytes)
    requires |a| == 3 && |rest| > 0
    ensures Encode(a + rest) == EncodeQuad(a) + Encode(rest)
  {
    hide EncodeQuad;
    assert (a + rest)[..3] == a && (a + rest)[3..] == rest;
  }

  lemma SameDigit(a: byte, b: byte)
    requires Digit(a) >= 0 && Digit(b) >= 0
    ensures a == b <==> Digit(a) == Digit(b)
  {
  }

  function Unit(len: nat): (u: nat)
    requires 1 <= len <= 3
    ensures u > 0
  {
    if len == 3 then 1 else if len == 2 then 256 else 65536
  }

  lemma GroupBack(g: nat, full: bytes, len: nat)
    requires g < 0x100_0000 && 1 <= len <= 3 && |full| == 3
    requires full[0] == ThreeBytes(g)[0]
    requires full[1] == if len >= 2 then ThreeBytes(g)[1] else 0
    requires full[2] == if len == 3 then ThreeBytes(g)[2] else 0
    ensures Group3(full) == g / Unit(len) * Unit(len)
  {
    EightBits(g);
    if len == 3 {
      assert g / 1 * 1 == g;
    }
  }

  lemma EightBits(g: nat)
    ensures g / 65536 * 65536 + g / 256 % 256 * 256 == g / 256 * 256
    ensures g / 256 * 256 + g % 256 == g
  {
    var a := g / 256;
    assert a / 256 == g / 65536 && a == a / 256 * 256 + a % 256;
  }

  /** Dropping the bytes that padding leaves out clears the unused bits and no others. */
  lemma DigitsBack(d0: nat, d1: nat, d2: nat, d3: nat, len: nat)
    requires d0 < 64 && d1 < 64 && d2 < 64 && d3 < 64 && 1 <= len <= 3
    requires (len <= 2 ==> d3 == 0) && (len == 1 ==> d2 == 0)
    ensures var g := ((d0 * 64 + d1) * 64 + d2) * 64 + d3;
            var back := g / Unit(len) * Unit(len);
            && back / 262144 == d0
            && back / 4096 % 64 == (if len == 1 then d1 / 16 * 16 else d1)
            && (len >= 2 ==> back / 64 % 64 == if len == 2 then d2 / 4 * 4 else d2)
            && (len == 3 ==> back % 64 == d3)
  {
    var g := ((d0 * 64 + d1) * 64 + d2) * 64 + d3;
    assert g == d0 * 262144 + d1 * 4096 + d2 * 64 + d3;
    if len == 3 {
      assert g / 1 * 1 == g;
      SplitDigits(d0, d1, d2, d3);
    } else if len == 2 {
      var k := d2 / 4;
      assert g / 256 == d0 * 1024 + d1 * 16 + k;
      assert g / 256 * 256 == d0 * 262144 + d1 * 4096 + (4 * k) * 64;
      SplitDigits(d0, d1, 4 * k, 0);
    } else {
      var k := d1 / 16;
      assert g / 65536 == d0 * 4 + k;
      assert g / 65536 * 65536 == d0 * 262144 + (16 * k) * 4096;
      SplitDigits(d0, 16 * k, 0, 0);
    }
  }

  lemma SplitDigits(d0: nat, d1: nat, d2: nat, d3: nat)
    requires d0 < 64 && d1 < 64 && d2 < 64 && d3 < 64
    ensures var g := d0 * 262144 + d1 * 4096 + d2 * 64 + d3;
            g / 262144 == d0 && g / 4096 % 64 == d1 && g / 64 % 64 == d2 && g % 64 == d3
  {
    var g := d0 * 262144 + d1 * 4096 + d2 * 64 + d3;
    assert g / 4096 == d0 * 64 + d1;
    assert g / 64 == (d0 * 64 + d1) * 64 + d2;
  }

  // ---- the same, character by character ----

  const ALPHABET: string := UPPER + LOWER + "0123456789+/"

  predicate Listed(ch: byte, i: int) {
    0 <= i < 64 && ALPHABET[i] as int == ch as int
  }

  lemma AlphaMeaning(i: nat)
    requires i < 64
    ensures Listed(Alpha(i), i)
  {
    if i < 26 {
      Letters(i);
    } else if i < 52 {
      Letters(i - 26);
    } else {
      assert ALPHABET[52] == '0' && ALPHABET[53] == '1' && ALPHABET[54] == '2' && ALPHABET[55] == '3'
             && ALPHABET[56] == '4' && ALPHABET[57] == '5' && ALPHABET[58] == '6' && ALPHABET[59] == '7';
      assert ALPHABET[60] == '8' && ALPHABET[61] == '9' && ALPHABET[62] == '+' && ALPHABET[63] == '/';
    }
  }

  lemma Letters(k: nat)
    requires k < 26
    ensures ALPHABET[k] as int == 65 + k && ALPHABET[26 + k] as int == 97 + k
  {
    LetterAt(k);
  }

  /** A character stands for its place in the alphabet, and no other character for any. */
  lemma DigitMeaning(ch: byte)
    ensures forall i :: Listed(ch, i) <==> Digit(ch) >= 0 && i == Digit(ch)
  {
    hide Alpha;
    hide Digit;
    if Digit(ch) >= 0 {
      DigitAlpha(ch);
      AlphaMeaning(Digit(ch));
    }
    forall i | Listed(ch, i)
      ensures i == Digit(ch)
    {
      AlphaMeaning(i);
      AlphaDigit(i);
    }
  }

  ghost predicate InAlphabet(ch: byte) {
    exists i :: Listed(ch, i)
  }

  /** The place of a character in the alphabet; padding counts as 0. */
  ghost function Sextet(ch: byte): int {
    if i :| Listed(ch, i) then i else 0
  }

  lemma SextetIsBits(ch: byte)
    ensures InAlphabet(ch) <==> Digit(ch) >= 0
    ensures Sextet(ch) == Bits(ch)
    ensures !InAlphabet(61)
  {
    hide Listed;
    DigitMeaning(ch);
    DigitMeaning(61);
    if Digit(ch) >= 0 {
      assert Listed(ch, Digit(ch));
    }
  }

  /** What may stand at place i of a text of which only whole quanta have been looked at: a character
      of the alphabet, or padding in the last place, or in the last two. */
  ghost predicate MayStand(q: bytes, i: nat)
    requires i < |q|
  {
    || InAlphabet(q[i])
    || (q[i] == 61 && |q| % 4 == 0 && (i == |q| - 1 || (i == |q| - 2 && q[|q| - 1] == 61)))
  }

  ghost predicate AllMayStand(q: bytes) {
    forall i: nat :: i < 4 * (|q| / 4) ==> MayStand(q, i)
  }

  lemma QuadMeaning(q: bytes, k: nat)
    requires 4 * k + 4 <= |q|
    ensures QuadOk(q[4 * k..4 * k + 4]) && (QuadLen(q[4 * k..4 * k + 4]) < 3 ==> 4 * k + 4 == |q|) <==>
              MayStand(q, 4 * k) && MayStand(q, 4 * k + 1) && MayStand(q, 4 * k + 2) && MayStand(q, 4 * k + 3)
  {
    hide InAlphabet;
    hide Digit;
    SextetIsBits(q[4 * k]);
    SextetIsBits(q[4 * k + 1]);
    SextetIsBits(q[4 * k + 2]);
    SextetIsBits(q[4 * k + 3]);
  }

  /** A text is not yet spoiled exactly when each character of its whole quanta may stand there. */
  lemma LiveMeaning(q: bytes)
    ensures Live(q) <==> AllMayStand(q)
  {
    hide QuadOk;
    hide QuadLen;
    hide MayStand;
    if Live(q) {
      forall i: nat | i < 4 * (|q| / 4)
        ensures MayStand(q, i)
      {
        assert QuadAt(q, i / 4) == q[4 * (i / 4)..4 * (i / 4) + 4];
        QuadMeaning(q, i / 4);
      }
    }
    if forall i: nat :: i < 4 * (|q| / 4) ==> MayStand(q, i) {
      forall k: nat | k < Quads(q)
        ensures QuadOk(QuadAt(q, k)) && (QuadLen(QuadAt(q, k)) < 3 ==> 4 * k + 4 == |q|)
      {
        QuadMeaning(q, k);
      }
    }
  }

  /** The accepted texts: whole quanta of characters of the alphabet, but for one or two padding
      characters at the very end. */
  lemma WellFormedMeaning(q: bytes)
    ensures WellFormed(q) <==>
              |q| % 4 == 0 &&
              forall i: nat :: i < |q| ==>
                InAlphabet(q[i]) || (q[i] == 61 && (i == |q| - 1 || (i == |q| - 2 && q[|q| - 1] == 61)))
  {
    hide InAlphabet;
    hide WellFormed;
    hide Live;
    WellFormedIsLive(q);
    LiveMeaning(q);
    if |q| % 4 == 0 {
      assert 4 * (|q| / 4) == |q|;
      forall i: nat | i < |q|
        ensures MayStand(q, i) <==>
                  InAlphabet(q[i]) || (q[i] == 61 && (i == |q| - 1 || (i == |q| - 2 && q[|q| - 1] == 61)))
      {
      }
    }
  }

  /** The three bytes of a quantum, bit by bit. */
  lemma QuadBytesMeaning(q: bytes)
    requires |q| == 4
    ensures var s0, s1, s2, s3 := Sextet(q[0]), Sextet(q[1]), Sextet(q[2]), Sextet(q[3]);
            var b := QuadBytes(q);
            && |b| == (if q[2] == 61 then 1 else if q[3] == 61 then 2 else 3)
            && b[0] as int == s0 * 4 + s1 / 16
            && (|b| > 1 ==> b[1] as int == s1 % 16 * 16 + s2 / 4)
            && (|b| > 2 ==> b[2] as int == s2 % 4 * 64 + s3)
  {
    hide Bits;
    hide Sextet;
    SextetIsBits(q[0]);
    SextetIsBits(q[1]);
    SextetIsBits(q[2]);
    SextetIsBits(q[3]);
    GroupBytes(Bits(q[0]), Bits(q[1]), Bits(q[2]), Bits(q[3]));
  }

  lemma GroupBytes(s0: nat, s1: nat, s2: nat, s3: nat)
    requires s0 < 64 && s1 < 64 && s2 < 64 && s3 < 64
    ensures var g := ((s0 * 64 + s1) * 64 + s2) * 64 + s3;
            && g / 65536 == s0 * 4 + s1 / 16
            && g / 256 % 256 == s1 % 16 * 16 + s2 / 4
            && g % 256 == s2 % 4 * 64 + s3
  {
    var g := ((s0 * 64 + s1) * 64 + s2) * 64 + s3;
    var a, b, c := s0 * 4 + s1 / 16, s1 % 16 * 16 + s2 / 4, s2 % 4 * 64 + s3;
    assert g == (a * 256 + b) * 256 + c;
    By256(g, a * 256 + b, c);
    By256(a * 256 + b, a, b);
    assert g / 65536 == g / 256 / 256;
  }

  lemma By256(x: nat, q: nat, r: nat)
    requires x == q * 256 + r && r < 256
    ensures x / 256 == q && x % 256 == r
  {
  }

  /** The bytes of a whole text: three for every four characters, less the padding; byte 3k + r comes
      from quantum k. */
  lemma {:induction false} PayloadMeaning(q: bytes, n: nat, k: nat)
    requires k < n <= Quads(q)
    requires forall j: nat :: j + 1 < n ==> QuadLen(QuadAt(q, j)) == 3
    ensures |Payload(q, n)| == 3 * (n - 1) + QuadLen(QuadAt(q, n - 1))
    ensures 3 * k + QuadLen(QuadAt(q, k)) <= |Payload(q, n)|
    ensures Payload(q, n)[3 * k..3 * k + QuadLen(QuadAt(q, k))] == QuadBytes(QuadAt(q, k))
  {
    hide QuadBytes;
    hide QuadAt;
    hide QuadLen;
    hide Payload;
    PayloadNext(q, n - 1);
    if n == 1 {
      PayloadNone(q);
    } else {
      PayloadMeaning(q, n - 1, if k < n - 1 then k else n - 2);
      assert QuadLen(QuadAt(q, n - 2)) == 3;
    }
    var init, last := Payload(q, n - 1), QuadBytes(QuadAt(q, n - 1));
    if k < n - 1 {
      assert QuadLen(QuadAt(q, k)) == 3;
      assert (init + last)[3 * k..3 * k + 3] == init[3 * k..3 * k + 3];
    } else {
      assert (init + last)[|init|..|init| + |last|] == last;
    }
  }

  /** What an accepted text decodes to: quantum by quantum, six bits a character. */
  lemma DecodedMeaning(q: bytes, k: nat)
    requires WellFormed(q) && 4 * k + 4 <= |q|
    ensures |DecodedText(q)| == |q| / 4 * 3 - (if q[|q| - 2] == 61 then 2 else if q[|q| - 1] == 61 then 1 else 0)
    ensures var s0, s1, s2, s3 := Sextet(q[4 * k]), Sextet(q[4 * k + 1]), Sextet(q[4 * k + 2]), Sextet(q[4 * k + 3]);
            var b := DecodedText(q);
            && 3 * k < |b| && b[3 * k] as int == s0 * 4 + s1 / 16
            && (3 * k + 1 < |b| ==> b[3 * k + 1] as int == s1 % 16 * 16 + s2 / 4)
            && (3 * k + 2 < |b| ==> b[3 * k + 2] as int == s2 % 4 * 64 + s3)
  {
    hide QuadBytes;
    hide Payload;
    hide Sextet;
    hide QuadOk;
    var n := Quads(q);
    assert forall j: nat :: j + 1 < n ==> QuadLen(QuadAt(q, j)) == 3;
    PayloadMeaning(q, n, k);
    QuadBytesMeaning(QuadAt(q, k));
    var b, m := DecodedText(q), QuadLen(QuadAt(q, k));
    var part := b[3 * k..3 * k + m];
    assert part[0] == b[3 * k];
    assert m > 1 ==> part[1] == b[3 * k + 1];
    assert m > 2 ==> part[2] == b[3 * k + 2];
  }

  // ---- white space ----

  /** Blanks, tabs, carriage returns and line feeds do not count, wherever they stand. */
  lemma StripSkips(a: bytes, ch: byte, b: bytes)
    requires ch == 32 || ch == 9 || ch == 13 || ch == 10
    ensures Strip(a + [ch] + b) == Strip(a + b)
  {
    StripConcat(a + [ch], b);
    StripConcat(a, b);
    assert (a + [ch])[..|a|] == a;
  }

  predicate NoneOf4(s: bytes) {
    forall i :: 0 <= i < |s| ==> s[i] != 32 && s[i] != 9 && s[i] != 13 && s[i] != 10
  }

  /** Everything else does. */
  lemma {:induction false} StripKeeps(s: bytes)
    requires NoneOf4(s)
    ensures Strip(s) == s
  {
    if s != [] {
      StripKeeps(s[..|s| - 1]);
      assert s == s[..|s| - 1] + [s[|s| - 1]];
    }
  }

  lemma AlphabetNotBlank(ch: byte)
    requires InAlphabet(ch)
    ensures ch != 32 && ch != 9 && ch != 13 && ch != 10
  {
    hide InAlphabet;
    SextetIsBits(ch);
  }

  /** An encoding has no white space in it. */
  lemma EncodeUnspaced(b: bytes)
    ensures NoneOf4(Encode(b)) && Strip(Encode(b)) == Encode(b)
  {
    hide InAlphabet;
    hide Encode;
    hide WellFormed;
    hide DecodedText;
    var q := Encode(b);
    EncodeDecode(b);
    WellFormedMeaning(q);
    forall i | 0 <= i < |q|
      ensures q[i] != 32 && q[i] != 9 && q[i] != 13 && q[i] != 10
    {
      if InAlphabet(q[i]) {
        AlphabetNotBlank(q[i]);
      }
    }
    StripKeeps(q);
  }

  /** The text is core with any of the four inserted anywhere. */
  ghost predicate Spaced(text: bytes, core: bytes) {
    if text == [] then core == []
    else
      || (text[|text| - 1] in [32, 9, 13, 10] && Spaced(text[..|text| - 1], core))
      || (core != [] && text[|text| - 1] == core[|core| - 1] && Spaced(text[..|text| - 1], core[..|core| - 1]))
  }

  lemma {:induction false} SpacedSelf(core: bytes)
    ensures Spaced(core, core)
  {
    if core != [] {
      SpacedSelf(core[..|core| - 1]);
    }
  }

  /** One more of them, anywhere. */
  lemma {:induction false} SpacedInsert(a: bytes, ch: byte, b: bytes, core: bytes)
    requires Spaced(a + b, core) && (ch == 32 || ch == 9 || ch == 13 || ch == 10)
    ensures Spaced(a + [ch] + b, core)
    decreases |b|
  {
    var text := a + [ch] + b;
    if b == [] {
      assert a + b == a && text[..|text| - 1] == a;
    } else {
      var init, was := b[..|b| - 1], a + b;
      assert was[..|was| - 1] == a + init && text[..|text| - 1] == a + [ch] + init;
      assert was[|was| - 1] == b[|b| - 1] == text[|text| - 1];
      if was[|was| - 1] in [32, 9, 13, 10] && Spaced(a + init, core) {
        SpacedInsert(a, ch, init, core);
      } else {
        SpacedInsert(a, ch, init, core[..|core| - 1]);
      }
    }
  }

  lemma {:induction false} SpacedStrips(text: bytes, core: bytes)
    requires Spaced(text, core) && NoneOf4(core)
    ensures Strip(text) == core
  {
    if text != [] {
      var init, ch := text[..|text| - 1], text[|text| - 1];
      if ch in [32, 9, 13, 10] && Spaced(init, core) {
        SpacedStrips(init, core);
      } else {
        SpacedStrips(init, core[..|core| - 1]);
        assert core == core[..|core| - 1] + [ch];
      }
    }
  }
}
