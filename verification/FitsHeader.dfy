/** The primary FITS header (FITS Standard 4.0, sections 3.1 and 4.1.2): 2880-byte blocks of
    80-byte cards, up to and including the block that holds the END card. */
module FitsHeader {
  import opened ByteText

  type Header = map<bytes, bytes>

  /** Why a payload is refused. `Short` is the batch decoder's and `Incomplete` the streaming
      decoder's name for missing rows; `NotClosed` is Frame called before Close. */
  datatype FitsError = NotFits | NoEnd | BadNaxis | BadSize | BadBitpix | Short | Incomplete | NotClosed

  /** A header, and the offset at which the data begin. */
  datatype Scanned = Scanned(hdr: Header, off: nat)

  const BLOCK: nat := 2880
  const CARD: nat := 80
  const PER_BLOCK: nat := 36
  const QUOTE: byte := 39
  const SLASH: byte := 47
  const EQUALS: byte := 61

  // ---- one card ----

  /** The text between the quotes, where a doubled quote stands for one. */
  function Unquote(s: bytes): (t: bytes)
  {
    if s == [] then []
    else if s[0] != QUOTE then [s[0]] + Unquote(s[1..])
    else if |s| > 1 && s[1] == QUOTE then [QUOTE] + Unquote(s[2..])
    else []
  }

  function BeforeSlash(s: bytes): (t: bytes)
    ensures t <= s
    ensures SLASH !in t
    ensures t == s || s[|t|] == SLASH
  {
    if s == [] || s[0] == SLASH then [] else [s[0]] + BeforeSlash(s[1..])
  }

  function CardValue(v: bytes): bytes {
    var t := TrimSpace(v);
    if |t| > 0 && t[0] == QUOTE then TrimBlanks(Unquote(t[1..])) else TrimSpace(BeforeSlash(t))
  }

  lemma UnquoteAt(t: bytes, i: nat)
    requires i < |t|
    ensures t[i] != QUOTE ==> Unquote(t[i..]) == [t[i]] + Unquote(t[i + 1..])
    ensures t[i] == QUOTE && i + 1 < |t| && t[i + 1] == QUOTE ==> Unquote(t[i..]) == [QUOTE] + Unquote(t[i + 2..])
    ensures t[i] == QUOTE && !(i + 1 < |t| && t[i + 1] == QUOTE) ==> Unquote(t[i..]) == []
  {
    assert t[i..][1..] == t[i + 1..];
    if i + 1 < |t| {
      assert t[i..][2..] == t[i + 2..];
    }
  }

  lemma Shift(b: bytes, x: byte, rest: bytes)
    ensures b + ([x] + rest) == b + [x] + rest
  {
  }

  method FitsCardValue(v: bytes) returns (r: bytes)
    ensures r == CardValue(v)
  {
    var t := TrimSpace(v);
    if |t| > 0 && t[0] == QUOTE {
      var b: bytes := [];
      var i := 1;
      ghost var all := Unquote(t[1..]);
      while i < |t|
        invariant 1 <= i <= |t|
        invariant b + Unquote(t[i..]) == all
      {
        UnquoteAt(t, i);
        if t[i] == QUOTE {
          if i + 1 < |t| && t[i + 1] == QUOTE {
            Shift(b, QUOTE, Unquote(t[i + 2..]));
            b := b + [QUOTE];
            i := i + 2;
            continue;
          }
          break;
        }
        Shift(b, t[i], Unquote(t[i + 1..]));
        b := b + [t[i]];
        i := i + 1;
      }
      assert b + [] == b;
      return TrimBlanks(b);
    }
    return TrimSpace(BeforeSlash(t));
  }

  /** How FITS writes a string (section 4.2.1): between quotes, with quotes inside it doubled. */
  function Quoted(s: bytes): bytes {
    [QUOTE] + Doubled(s) + [QUOTE]
  }

  function Doubled(s: bytes): (t: bytes)
  {
    if s == [] then []
    else if s[0] == QUOTE then [QUOTE, QUOTE] + Doubled(s[1..])
    else [s[0]] + Doubled(s[1..])
  }

  lemma {:induction false} UnquoteDoubled(s: bytes, rest: bytes)
    requires rest == [] || rest[0] != QUOTE
    ensures Unquote(Doubled(s) + ([QUOTE] + rest)) == s
  {
    hide Unquote;
    hide Doubled;
    var tail := [QUOTE] + rest;
    if s == [] {
      assert Doubled(s) + tail == tail by { DoubledNone(); }
      UnquoteFront(tail);
    } else {
      UnquoteDoubled(s[1..], rest);
      DoubledFront(s, tail);
      UnquoteFront(Doubled(s) + tail);
      assert s == [s[0]] + s[1..];
    }
  }

  lemma DoubledNone()
    ensures Doubled([]) == []
  {
  }

  lemma DoubledFront(s: bytes, tail: bytes)
    requires s != []
    ensures var q := Doubled(s) + tail;
            if s[0] == QUOTE then |q| > 1 && q[0] == q[1] == QUOTE && q[2..] == Doubled(s[1..]) + tail
            else |q| > 0 && q[0] == s[0] && q[1..] == Doubled(s[1..]) + tail
  {
    var front := if s[0] == QUOTE then [QUOTE, QUOTE] else [s[0]];
    DoubledIs(s);
    hide Doubled;
    Behind(front, Doubled(s[1..]), tail);
  }

  lemma DoubledIs(s: bytes)
    requires s != []
    ensures Doubled(s) == (if s[0] == QUOTE then [QUOTE, QUOTE] else [s[0]]) + Doubled(s[1..])
  {
  }

  lemma UnquoteFront(q: bytes)
    requires q != []
    ensures q[0] != QUOTE ==> Unquote(q) == [q[0]] + Unquote(q[1..])
    ensures |q| > 1 && q[0] == q[1] == QUOTE ==> Unquote(q) == [QUOTE] + Unquote(q[2..])
    ensures q[0] == QUOTE && (|q| == 1 || q[1] != QUOTE) ==> Unquote(q) == []
  {
  }

  lemma Behind(front: bytes, d: bytes, tail: bytes)
    ensures (front + d + tail)[|front|..] == d + tail && front <= front + d + tail
  {
  }

  /** Trimming the right of core + rest stops inside rest. */
  lemma {:induction false} TrimRightKeeps(core: bytes, rest: bytes) returns (k: nat)
    requires |core| > 0 && 32 < core[|core| - 1] < 127
    ensures k <= |rest| && TrimRight(core + rest) == core + rest[..k]
    decreases |rest|
  {
    var s := core + rest;
    var n := TailSpace(s);
    if n == 0 {
      k := |rest|;
      assert rest[..k] == rest;
    } else {
      assert s[|core| - 1] == core[|core| - 1];
      assert n <= |rest|;
      assert s[..|s| - n] == core + rest[..|rest| - n];
      k := TrimRightKeeps(core, rest[..|rest| - n]);
      assert rest[..|rest| - n][..k] == rest[..k];
    }
  }

  /** Writing a string value and reading it back gives the string without its trailing pad
      blanks, whatever quotes, slashes or blanks it contains and whatever comment follows. */
  lemma StringValueRoundTrip(m: nat, s: bytes, rest: bytes)
    requires rest == [] || rest[0] != QUOTE
    ensures CardValue(Blanks(m) + (Quoted(s) + rest)) == TrimBlanks(s)
  {
    TrimLeftPadded(m, Quoted(s) + rest);
    var k := TrimRightKeeps(Quoted(s), rest);
    QuotedTail(s, rest[..k]);
    UnquoteDoubled(s, rest[..k]);
  }

  lemma QuotedTail(s: bytes, rest: bytes)
    ensures (Quoted(s) + rest)[0] == QUOTE
    ensures (Quoted(s) + rest)[1..] == Doubled(s) + ([QUOTE] + rest)
  {
  }

  /** An unquoted value is read without its padding and without its comment. */
  lemma PlainValueRoundTrip(m: nat, core: bytes, n: nat, rest: bytes)
    requires Solid(core) && core[0] != QUOTE && SLASH !in core
    requires rest == [] || rest[0] == SLASH
    ensures CardValue(Blanks(m) + core + Blanks(n) + rest) == core
  {
    hide TrimSpace;
    hide BeforeSlash;
    hide Unquote;
    hide TrimBlanks;
    var t := TrimSpace(Blanks(m) + core + Blanks(n) + rest);
    PlainTrimmed(m, core, n, rest);
    var head := if rest == [] then core else core + Blanks(n);
    assert t[0] == core[0];
    assert SLASH !in head;
    BeforeSlashOf(head, t[|head|..]);
    assert t == head + t[|head|..];
    TrimPadded(0, core, n);
    assert Blanks(0) + core + Blanks(n) == core + Blanks(n);
    TrimPadded(0, core, 0);
    assert Blanks(0) + core + Blanks(0) == core;
  }

  /** What trimming the whole field leaves: the value, and before a comment its padding. */
  lemma PlainTrimmed(m: nat, core: bytes, n: nat, rest: bytes)
    requires Solid(core) && (rest == [] || rest[0] == SLASH)
    ensures var t := TrimSpace(Blanks(m) + core + Blanks(n) + rest);
            var head := if rest == [] then core else core + Blanks(n);
            head <= t && (|t| > |head| ==> t[|head|] == SLASH)
  {
    var v := Blanks(m) + core + Blanks(n) + rest;
    if rest == [] {
      hide TrimSpace;
      assert v == Blanks(m) + core + Blanks(n);
      TrimPadded(m, core, n);
    } else {
      hide TrimLeft;
      hide TrimRight;
      var stem := core + Blanks(n) + [SLASH];
      assert v == Blanks(m) + (stem + rest[1..]);
      TrimLeftPadded(m, stem + rest[1..]);
      var k := TrimRightKeeps(stem, rest[1..]);
    }
  }

  lemma {:induction false} BeforeSlashOf(a: bytes, rest: bytes)
    requires SLASH !in a
    requires rest == [] || rest[0] == SLASH
    ensures BeforeSlash(a + rest) == a
  {
    if a == [] {
      assert a + rest == rest;
    } else {
      assert a[0] in a;
      assert (a + rest)[1..] == a[1..] + rest;
      BeforeSlashOf(a[1..], rest);
    }
  }

  // ---- the whole header ----

  /** How many cards lie in whole blocks. */
  function Cards(raw: bytes): (n: nat)
    ensures n * CARD <= |raw|
  {
    |raw| / BLOCK * PER_BLOCK
  }

  function CardAt(raw: bytes, c: nat): (card: bytes)
    requires c < Cards(raw)
    ensures |card| == CARD
  {
    raw[CARD * c..CARD * c + CARD]
  }

  function Key(card: bytes): bytes
    requires |card| == CARD
  {
    TrimSpace(card[..8])
  }

  predicate IsEnd(raw: bytes, c: nat)
    requires c < Cards(raw)
  {
    Key(CardAt(raw, c)) == Ascii("END")
  }

  /** The card states a value: it has a keyword and a value indicator. */
  predicate States(card: bytes)
    requires |card| == CARD
  {
    Key(card) != [] && card[8] == EQUALS
  }

  function AddCard(hdr: Header, card: bytes): Header
    requires |card| == CARD
  {
    if States(card) then hdr[Key(card) := CardValue(card[9..])] else hdr
  }

  /** Reading on from card c with hdr collected so far. */
  function ScanFrom(raw: bytes, c: nat, hdr: Header): (r: Result<Scanned, FitsError>)
    requires c <= Cards(raw)
    ensures r.Ok? ==> (c + 1) * CARD <= r.value.off <= |raw| && r.value.off % BLOCK == 0
    decreases Cards(raw) - c
  {
    if c == Cards(raw) then Err(NoEnd)
    else if IsEnd(raw, c) then Ok(Scanned(hdr, (c / PER_BLOCK + 1) * BLOCK))
    else ScanFrom(raw, c + 1, AddCard(hdr, CardAt(raw, c)))
  }

  function ScanHeader(raw: bytes): (r: Result<Scanned, FitsError>)
    ensures r.Ok? ==> BLOCK <= r.value.off <= |raw| && r.value.off % BLOCK == 0
  {
    if |raw| < BLOCK || TrimSpace(raw[..6]) != Ascii("SIMPLE") then Err(NotFits)
    else ScanFrom(raw, 0, map[])
  }

  predicate IsFitsMagic(b: bytes) {
    |b| >= 6 && b[..6] == Ascii("SIMPLE")
  }

  /** The trimmed test of the scanner and the exact test of the streaming decoder agree. */
  lemma MagicAgrees(raw: bytes)
    requires |raw| >= 6
    ensures TrimSpace(raw[..6]) == Ascii("SIMPLE") <==> IsFitsMagic(raw)
  {
    var s := Ascii("SIMPLE");
    TrimKeepsAll(raw[..6]);
    assert Solid(s);
    TrimPadded(0, s, 0);
    assert Blanks(0) + s + Blanks(0) == s;
  }

  lemma CardIndex(raw: bytes, b: nat, j: nat)
    requires b < |raw| / BLOCK && j < PER_BLOCK
    ensures var i := b * PER_BLOCK + j;
            && i < Cards(raw) && i / PER_BLOCK == b
            && BLOCK * b + CARD * j + CARD <= |raw|
            && raw[BLOCK * b + CARD * j..BLOCK * b + CARD * j + CARD] == CardAt(raw, i)
  {
    var i := b * PER_BLOCK + j;
    assert b + 1 <= |raw| / BLOCK;
    assert CARD * i == BLOCK * b + CARD * j;
  }

  lemma ScanStep(raw: bytes, c: nat, hdr: Header)
    requires c <= Cards(raw)
    ensures ScanFrom(raw, c, hdr)
            == if c == Cards(raw) then Err(NoEnd)
               else if IsEnd(raw, c) then Ok(Scanned(hdr, (c / PER_BLOCK + 1) * BLOCK))
               else ScanFrom(raw, c + 1, AddCard(hdr, CardAt(raw, c)))
  {
  }

  lemma CardsAre(raw: bytes)
    ensures Cards(raw) == |raw| / BLOCK * PER_BLOCK
  {
  }

  method ScanFITSHeader(raw: bytes) returns (r: Result<Scanned, FitsError>)
    ensures r == ScanHeader(raw)
  {
    hide TrimSpace;
    hide CardValue;
    hide ScanFrom;
    hide Cards;
    CardsAre(raw);
    if |raw| < BLOCK || TrimSpace(raw[..6]) != Ascii("SIMPLE") {
      return Err(NotFits);
    }
    var hdr: Header := map[];
    var off := 0;
    ghost var b := 0;
    ghost var want := ScanFrom(raw, 0, map[]);
    while off + BLOCK <= |raw|
      invariant off == BLOCK * b <= |raw|
      invariant b * PER_BLOCK <= Cards(raw)
      invariant ScanFrom(raw, b * PER_BLOCK, hdr) == want
    {
      var c := 0;
      ghost var j := 0;
      assert b < |raw| / BLOCK;
      while c < BLOCK
        invariant c == CARD * j <= BLOCK
        invariant b * PER_BLOCK + j <= Cards(raw)
        invariant ScanFrom(raw, b * PER_BLOCK + j, hdr) == want
      {
        CardIndex(raw, b, j);
        ScanStep(raw, b * PER_BLOCK + j, hdr);
        var card := raw[off + c..off + c + CARD];
        var key := TrimSpace(card[..8]);
        if key == Ascii("END") {
          return Ok(Scanned(hdr, off + BLOCK));
        }
        if key != [] && card[8] == EQUALS {
          var v := FitsCardValue(card[9..]);
          hdr := hdr[key := v];
        }
        c, j := c + CARD, j + 1;
      }
      off, b := off + BLOCK, b + 1;
    }
    assert b == |raw| / BLOCK;
    ScanStep(raw, b * PER_BLOCK, hdr);
    return Err(NoEnd);
  }

  /** Scanning depends on the header alone: any file that agrees up to the data offset has
      the same header. So bytes that arrive later never change it, and bytes after the
      offset were not needed for it. */
  lemma {:induction false} ScanFromHeaderOnly(raw: bytes, other: bytes, c: nat, hdr: Header)
    requires c <= Cards(raw) && ScanFrom(raw, c, hdr).Ok?
    requires ScanFrom(raw, c, hdr).value.off <= |other|
    requires raw[..ScanFrom(raw, c, hdr).value.off] == other[..ScanFrom(raw, c, hdr).value.off]
    ensures c <= Cards(other) && ScanFrom(other, c, hdr) == ScanFrom(raw, c, hdr)
    decreases Cards(raw) - c
  {
    hide ScanFrom;
    hide IsEnd;
    hide AddCard;
    ScanStep(raw, c, hdr);
    CardWithin(raw, other, ScanFrom(raw, c, hdr).value.off, c);
    ScanStep(other, c, hdr);
    if !IsEnd(raw, c) {
      ScanFromHeaderOnly(raw, other, c + 1, AddCard(hdr, CardAt(raw, c)));
    }
  }

  /** A card before a block boundary up to which two files agree. */
  lemma CardWithin(raw: bytes, other: bytes, off: nat, c: nat)
    requires off % BLOCK == 0 && (c + 1) * CARD <= off <= |raw| && off <= |other| && raw[..off] == other[..off]
    ensures c < Cards(raw) && c < Cards(other) && CardAt(other, c) == CardAt(raw, c)
    ensures IsEnd(other, c) == IsEnd(raw, c)
  {
    hide TrimSpace;
    CardsUpTo(off, |raw|, c);
    CardsUpTo(off, |other|, c);
    assert CardAt(other, c) == other[..off][CARD * c..CARD * c + CARD];
    assert CardAt(raw, c) == raw[..off][CARD * c..CARD * c + CARD];
  }

  lemma CardsUpTo(off: nat, n: nat, c: nat)
    requires off % BLOCK == 0 && (c + 1) * CARD <= off <= n
    ensures c < n / BLOCK * PER_BLOCK
  {
    var b := off / BLOCK;
    assert off == b * BLOCK;
    assert c + 1 <= b * PER_BLOCK;
    assert b <= n / BLOCK;
  }

  lemma ScanHeaderOnly(raw: bytes, other: bytes)
    requires ScanHeader(raw).Ok? && ScanHeader(raw).value.off <= |other|
    requires raw[..ScanHeader(raw).value.off] == other[..ScanHeader(raw).value.off]
    ensures ScanHeader(other) == ScanHeader(raw)
  {
    var off := ScanHeader(raw).value.off;
    assert raw[..6] == raw[..off][..6] && other[..6] == other[..off][..6];
    ScanFromHeaderOnly(raw, other, 0, map[]);
  }

  // ---- what the scan means ----

  /** Card e is the first END card. */
  predicate EndsAt(raw: bytes, e: nat) {
    e < Cards(raw) && IsEnd(raw, e) && forall c :: 0 <= c < e ==> !IsEnd(raw, c)
  }

  /** Card c states a value for key k. */
  predicate StatesKey(raw: bytes, c: nat, k: bytes) {
    c < Cards(raw) && States(CardAt(raw, c)) && Key(CardAt(raw, c)) == k
  }

  /** Card c is the last one before e to state a value for k. */
  predicate LastStates(raw: bytes, c: nat, e: nat, k: bytes) {
    c < e && StatesKey(raw, c, k) && forall d :: c < d < e ==> !StatesKey(raw, d, k)
  }

  /** hdr holds what cards 0..n say: for each key, its last statement. */
  ghost predicate Collected(raw: bytes, n: nat, hdr: Header) {
    && (forall k :: k in hdr ==> Stated(raw, n, k))
    && (forall c: nat, k :: c < n && StatesKey(raw, c, k) ==> k in hdr)
    && (forall c: nat, k :: LastStates(raw, c, n, k) && k in hdr ==> hdr[k] == CardValue(CardAt(raw, c)[9..]))
  }

  ghost predicate Stated(raw: bytes, n: nat, k: bytes) {
    exists c: nat :: c < n && StatesKey(raw, c, k)
  }

  lemma LastStatesBack(raw: bytes, c: nat, n: nat, k: bytes)
    requires c < n && LastStates(raw, c, n + 1, k)
    ensures LastStates(raw, c, n, k) && !StatesKey(raw, n, k)
  {
    hide StatesKey;
    hide Cards;
  }

  lemma CollectedNext(raw: bytes, n: nat, hdr: Header)
    requires n < Cards(raw) && Collected(raw, n, hdr)
    ensures Collected(raw, n + 1, AddCard(hdr, CardAt(raw, n)))
  {
    hide AddCard;
    hide StatesKey;
    hide CardAt;
    hide Cards;
    hide CardValue;
    hide LastStates;
    var next := AddCard(hdr, CardAt(raw, n));
    AddedCard(raw, n, hdr);
    forall k | k in next
      ensures Stated(raw, n + 1, k)
    {
      if k in hdr {
        assert Stated(raw, n, k);
        var c: nat :| c < n && StatesKey(raw, c, k);
        assert c < n + 1 && StatesKey(raw, c, k);
      }
    }
    forall c: nat, k | LastStates(raw, c, n + 1, k) && k in next
      ensures c < Cards(raw) && next[k] == CardValue(CardAt(raw, c)[9..])
    {
      LastIs(raw, c, n + 1, k);
      if c < n {
        LastStatesBack(raw, c, n, k);
      }
    }
  }

  lemma LastIs(raw: bytes, c: nat, e: nat, k: bytes)
    requires LastStates(raw, c, e, k)
    ensures c < e && c < Cards(raw) && StatesKey(raw, c, k)
  {
  }

  /** What one more card does to each key. */
  lemma AddedCard(raw: bytes, n: nat, hdr: Header)
    requires n < Cards(raw)
    ensures var next := AddCard(hdr, CardAt(raw, n));
            forall k :: (k in next <==> k in hdr || StatesKey(raw, n, k))
              && (k in next ==> next[k] == if StatesKey(raw, n, k) then CardValue(CardAt(raw, n)[9..]) else hdr[k])
  {
    hide TrimSpace;
    hide CardValue;
    hide Cards;
  }

  lemma {:induction false} ScanFromMeaning(raw: bytes, c: nat, hdr: Header)
    requires c <= Cards(raw) && Collected(raw, c, hdr)
    requires forall d :: 0 <= d < c ==> !IsEnd(raw, d)
    ensures var r := ScanFrom(raw, c, hdr);
            (r.Ok? <==> exists e: nat :: EndsAt(raw, e))
    ensures var r := ScanFrom(raw, c, hdr);
            forall e: nat :: EndsAt(raw, e) ==>
              r.Ok? && r.value.off == (e / PER_BLOCK + 1) * BLOCK && Collected(raw, e, r.value.hdr)
    decreases Cards(raw) - c
  {
    hide IsEnd;
    hide AddCard;
    hide CardAt;
    hide Cards;
    hide Collected;
    hide ScanFrom;
    ScanStep(raw, c, hdr);
    if c < Cards(raw) {
      if IsEnd(raw, c) {
        assert EndsAt(raw, c);
      } else {
        CollectedNext(raw, c, hdr);
        ScanFromMeaning(raw, c + 1, AddCard(hdr, CardAt(raw, c)));
      }
    }
  }

  /** The scanner accepts exactly the files that begin SIMPLE and have an END card in a whole
      block; the data starts after the block of the first END, and each key is bound to the
      value of its last statement before it. */
  lemma HeaderMeaning(raw: bytes)
    ensures ScanHeader(raw).Ok? <==> IsFitsMagic(raw) && exists e: nat :: EndsAt(raw, e)
    ensures forall e: nat :: IsFitsMagic(raw) && EndsAt(raw, e) ==>
              var r := ScanHeader(raw);
              r.Ok? && r.value.off == (e / PER_BLOCK + 1) * BLOCK && Collected(raw, e, r.value.hdr)
  {
    if |raw| >= BLOCK {
      MagicAgrees(raw);
      ScanFromMeaning(raw, 0, map[]);
    }
  }

  // ---- typed reads ----

  function HdrInt(h: Header, k: bytes, def: int): int {
    if k !in h then def else
    match Atoi(TrimSpace(h[k]))
    case None => def
    case Some(n) => n
  }

  function Upper(v: bytes): bytes {
    ToUpper(TrimSpace(v))
  }

  /** ROWORDER: whether rows run bottom-up, and whether the header says so at all. */
  function FitsBottomUp(h: Header): (bool, bool) {
    if Ascii("ROWORDER") !in h then (false, false) else
    var v := Upper(h[Ascii("ROWORDER")]);
    if v == Ascii("BOTTOM-UP") || v == Ascii("BOTTOMUP") || v == Ascii("BOTTOM_UP") then (true, true)
    else if v == Ascii("TOP-DOWN") || v == Ascii("TOPDOWN") || v == Ascii("TOP_DOWN") then (false, true)
    else (false, false)
  }
}
