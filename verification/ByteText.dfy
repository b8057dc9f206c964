/** Bytes, and the text functions of Go's strings and strconv packages that the FITS code uses. */
module ByteText {
  newtype byte = b: int | 0 <= b < 256
  newtype u16 = x: int | 0 <= x < 65536
  type bytes = seq<byte>

  datatype Option<+T> = None | Some(value: T)
  datatype Result<+T, +E> = Ok(value: T) | Err(error: E)

  const BLANK: byte := 32
  const ZERO: byte := 48
  const NINE: byte := 57
  const MINUS: byte := 45
  const PLUS: byte := 43

  /** The bytes of an ASCII literal. */
  function Ascii(s: string): (b: bytes)
    ensures |b| == |s|
  {
    seq(|s|, i requires 0 <= i < |s| => (s[i] as int % 256) as byte)
  }

  /** All the pieces handed over by successive calls, end to end. */
  function Flat(pieces: seq<bytes>): bytes
  {
    if pieces == [] then [] else Flat(pieces[..|pieces| - 1]) + pieces[|pieces| - 1]
  }

  lemma FlatSnoc(pieces: seq<bytes>, last: bytes)
    ensures Flat(pieces + [last]) == Flat(pieces) + last
  {
    assert (pieces + [last])[..|pieces|] == pieces;
  }

  lemma {:induction false} FlatSplit(pieces: seq<bytes>, i: nat)
    requires i <= |pieces|
    ensures Flat(pieces) == Flat(pieces[..i]) + Flat(pieces[i..])
  {
    if i == |pieces| {
      assert pieces[..i] == pieces;
    } else {
      var init := pieces[..|pieces| - 1];
      FlatSplit(init, i);
      assert init[..i] == pieces[..i] && init[i..] == pieces[i..][..|pieces| - i - 1];
    }
  }

  // ---- white space, as unicode.IsSpace sees UTF-8 text ----

  /** The three-byte encodings of U+1680, U+2000..U+200A, U+2028, U+2029, U+202F, U+205F, U+3000. */
  predicate WideSpace(a: byte, b: byte, c: byte) {
    || (a == 0xE1 && b == 0x9A && c == 0x80)
    || (a == 0xE2 && b == 0x80 && (0x80 <= c <= 0x8A || c == 0xA8 || c == 0xA9 || c == 0xAF))
    || (a == 0xE2 && b == 0x81 && c == 0x9F)
    || (a == 0xE3 && b == 0x80 && c == 0x80)
  }

  predicate NarrowSpace(a: byte) {
    a == BLANK || 9 <= a <= 13
  }

  /** How many bytes the white-space character at the front of s takes; 0 when there is none. */
  function LeadSpace(s: bytes): (n: nat)
    ensures n <= |s|
  {
    if |s| >= 1 && NarrowSpace(s[0]) then 1
    else if |s| >= 2 && s[0] == 0xC2 && (s[1] == 0x85 || s[1] == 0xA0) then 2
    else if |s| >= 3 && WideSpace(s[0], s[1], s[2]) then 3
    else 0
  }

  /** The same at the end of s. */
  function TailSpace(s: bytes): (n: nat)
    ensures n <= |s|
  {
    var m := |s|;
    if m >= 1 && NarrowSpace(s[m - 1]) then 1
    else if m >= 2 && s[m - 2] == 0xC2 && (s[m - 1] == 0x85 || s[m - 1] == 0xA0) then 2
    else if m >= 3 && WideSpace(s[m - 3], s[m - 2], s[m - 1]) then 3
    else 0
  }

  function TrimLeft(s: bytes): (t: bytes)
    ensures |t| <= |s|
    decreases |s|
  {
    if LeadSpace(s) == 0 then s else TrimLeft(s[LeadSpace(s)..])
  }

  function TrimRight(s: bytes): (t: bytes)
    ensures |t| <= |s|
    decreases |s|
  {
    if TailSpace(s) == 0 then s else TrimRight(s[..|s| - TailSpace(s)])
  }

  /** strings.TrimSpace. */
  function TrimSpace(s: bytes): (t: bytes)
    ensures |t| <= |s|
  {
    TrimRight(TrimLeft(s))
  }

  /** strings.TrimRight(s, " "). */
  function TrimBlanks(s: bytes): (t: bytes)
    ensures |t| <= |s|
  {
    if |s| > 0 && s[|s| - 1] == BLANK then TrimBlanks(s[..|s| - 1]) else s
  }

  function Blanks(n: nat): (b: bytes)
    ensures |b| == n
  {
    seq(n, _ => BLANK)
  }

  /** A text that begins and ends with a plain printable ASCII byte. */
  predicate Solid(s: bytes) {
    |s| > 0 && 32 < s[0] < 127 && 32 < s[|s| - 1] < 127
  }

  /** Trimming takes the blanks around a solid text and nothing of the text itself. */
  lemma {:induction false} TrimPadded(m: nat, core: bytes, n: nat)
    requires Solid(core)
    ensures TrimSpace(Blanks(m) + core + Blanks(n)) == core
  {
    TrimLeftPadded(m, core + Blanks(n));
    assert Blanks(m) + core + Blanks(n) == Blanks(m) + (core + Blanks(n));
    TrimRightPadded(core, n);
  }

  lemma {:induction false} TrimLeftPadded(m: nat, core: bytes)
    requires |core| > 0 && 32 < core[0] < 127
    ensures TrimLeft(Blanks(m) + core) == core
  {
    if m == 0 {
      assert Blanks(m) + core == core;
    } else {
      var s := Blanks(m) + core;
      assert s[0] == BLANK;
      assert s[1..] == Blanks(m - 1) + core;
      TrimLeftPadded(m - 1, core);
    }
  }

  lemma {:induction false} TrimRightPadded(core: bytes, n: nat)
    requires |core| > 0 && 32 < core[|core| - 1] < 127
    ensures TrimRight(core + Blanks(n)) == core
  {
    if n == 0 {
      assert core + Blanks(n) == core;
    } else {
      var s := core + Blanks(n);
      assert s[|s| - 1] == BLANK;
      assert s[..|s| - 1] == core + Blanks(n - 1);
      TrimRightPadded(core, n - 1);
    }
  }

  /** A text made of blanks only is trimmed to nothing. */
  lemma {:induction false} TrimAllBlank(n: nat)
    ensures TrimSpace(Blanks(n)) == []
  {
    if n > 0 {
      assert Blanks(n)[1..] == Blanks(n - 1);
      TrimAllBlank(n - 1);
    }
  }

  /** TrimSpace keeps all of s only when it returns s itself. */
  lemma TrimKeepsAll(s: bytes)
    ensures |TrimSpace(s)| == |s| ==> TrimSpace(s) == s
  {
  }

  // ---- decimal numbers ----

  predicate IsDigits(s: bytes) {
    |s| > 0 && forall i :: 0 <= i < |s| ==> ZERO <= s[i] <= NINE
  }

  function Value(s: bytes): (n: nat)
    requires forall i :: 0 <= i < |s| ==> ZERO <= s[i] <= NINE
  {
    if s == [] then 0 else Value(s[..|s| - 1]) * 10 + (s[|s| - 1] - ZERO) as int
  }

  const INT64_MIN := -0x8000_0000_0000_0000
  const INT64_MAX := 0x7FFF_FFFF_FFFF_FFFF

  predicate Int64(n: int) {
    INT64_MIN <= n <= INT64_MAX
  }

  predicate Signed(s: bytes) {
    |s| > 0 && (s[0] == MINUS || s[0] == PLUS)
  }

  /** An optional sign and at least one digit, whatever the size. */
  function Integer(s: bytes): Option<int> {
    var body := if Signed(s) then s[1..] else s;
    if !IsDigits(body) then None else
    var n: int := Value(body);
    Some(if s[0] == MINUS then -n else n)
  }

  /** strconv.Atoi on a 64-bit machine: out of range is an error. */
  function Atoi(s: bytes): Option<int> {
    match Integer(s)
    case None => None
    case Some(n) => if Int64(n) then Some(n) else None
  }

  function DigitsOf(n: nat): (s: bytes)
  {
    if n < 10 then [ZERO + n as byte] else DigitsOf(n / 10) + [ZERO + (n % 10) as byte]
  }

  /** fmt's %d. */
  function Decimal(n: int): (s: bytes)
  {
    if n < 0 then [MINUS] + DigitsOf(-n) else DigitsOf(n)
  }

  lemma {:induction false} DigitsOfValue(n: nat)
    ensures IsDigits(DigitsOf(n)) && Value(DigitsOf(n)) == n
  {
    var s := DigitsOf(n);
    if n < 10 {
      assert Value(s[..0]) == 0;
    } else {
      DigitsOfValue(n / 10);
      assert s[..|s| - 1] == DigitsOf(n / 10);
    }
  }

  /** Parsing undoes printing, for every integer. */
  lemma IntegerOfDecimal(n: int)
    ensures Integer(Decimal(n)) == Some(n)
  {
    var s := DigitsOf(if n < 0 then -n else n);
    DigitsOfValue(if n < 0 then -n else n);
    hide Value;
    hide DigitsOf;
    assert Decimal(n) == if n < 0 then [MINUS] + s else s;
    if n < 0 {
      assert ([MINUS] + s)[1..] == s;
    }
  }

  lemma DecimalSolid(n: int)
    ensures Solid(Decimal(n))
    ensures forall i :: 0 <= i < |Decimal(n)| ==> Decimal(n)[i] == MINUS || ZERO <= Decimal(n)[i] <= NINE
  {
    DigitsOfValue(if n < 0 then -n else n);
  }

  function Pow10(k: nat): nat {
    if k == 0 then 1 else 10 * Pow10(k - 1)
  }

  lemma {:induction false} DigitsOfLength(n: nat, k: nat)
    requires k > 0 && n < Pow10(k)
    ensures |DigitsOf(n)| <= k
  {
    if n >= 10 {
      DigitsOfLength(n / 10, k - 1);
    }
  }

  /** A 64-bit integer prints in at most 20 characters, the width of a FITS value field. */
  lemma DecimalFits(n: int)
    requires Int64(n)
    ensures 0 < |Decimal(n)| <= 20
  {
    assert Pow10(19) == 10_000_000_000_000_000_000 by { Pow10Values(); }
    DigitsOfLength(if n < 0 then -n else n, 19);
    DecimalSolid(n);
  }

  lemma Pow10Values()
    ensures Pow10(19) == 10_000_000_000_000_000_000
  {
    assert Pow10(5) == 100_000;
    assert Pow10(10) == 10_000_000_000;
    assert Pow10(15) == 1_000_000_000_000_000;
  }

  // ---- upper-casing ----

  /** strings.ToUpper on ASCII. The letters outside ASCII that have an upper-case form inside it
      give I or S, and no keyword the result is compared with has either. */
  function ToUpper(s: bytes): (t: bytes)
    ensures |t| == |s|
  {
    seq(|s|, i requires 0 <= i < |s| => if 97 <= s[i] <= 122 then s[i] - 32 else s[i])
  }

  /** strings.ToLower on ASCII, likewise for i and k. */
  function ToLower(s: bytes): (t: bytes)
    ensures |t| == |s|
  {
    seq(|s|, i requires 0 <= i < |s| => if 65 <= s[i] <= 90 then s[i] + 32 else s[i])
  }

  // ---- what these functions mean ----

  lemma AsciiMeaning(s: string, i: nat)
    requires i < |s| && s[i] as int < 256
    ensures Ascii(s)[i] as int == s[i] as int
  {
  }

  const UPPER: string := "ABCDEFGHIJKLMNOPQRSTUVWXYZ"
  const LOWER: string := "abcdefghijklmnopqrstuvwxyz"

  /** Each letter of one alphabet becomes the letter at the same place of the other; every other byte
      stays. */
  lemma CaseMeaning(s: bytes, i: nat)
    requires i < |s|
    ensures forall k :: 0 <= k < 26 && s[i] as int == LOWER[k] as int ==> ToUpper(s)[i] as int == UPPER[k] as int
    ensures forall k :: 0 <= k < 26 && s[i] as int == UPPER[k] as int ==> ToLower(s)[i] as int == LOWER[k] as int
    ensures (forall k :: 0 <= k < 26 ==> s[i] as int != LOWER[k] as int) ==> ToUpper(s)[i] == s[i]
    ensures (forall k :: 0 <= k < 26 ==> s[i] as int != UPPER[k] as int) ==> ToLower(s)[i] == s[i]
  {
    forall k | 0 <= k < 26
      ensures LOWER[k] as int == 97 + k && UPPER[k] as int == 65 + k
    {
      LetterAt(k);
    }
    if 97 <= s[i] <= 122 {
      assert LOWER[s[i] as int - 97] as int == s[i] as int;
    }
    if 65 <= s[i] <= 90 {
      assert UPPER[s[i] as int - 65] as int == s[i] as int;
    }
  }

  lemma LetterAt(k: nat)
    requires k < 26
    ensures LOWER[k] as int == 97 + k && UPPER[k] as int == 65 + k
  {
  }

  /** The white space of unicode.IsSpace, character by character, in UTF-8. */
  const SPACES: seq<bytes> := [
    [9], [10], [11], [12], [13], [32], [0xC2, 0x85], [0xC2, 0xA0], [0xE1, 0x9A, 0x80],
    [0xE2, 0x80, 0x80], [0xE2, 0x80, 0x81], [0xE2, 0x80, 0x82], [0xE2, 0x80, 0x83], [0xE2, 0x80, 0x84],
    [0xE2, 0x80, 0x85], [0xE2, 0x80, 0x86], [0xE2, 0x80, 0x87], [0xE2, 0x80, 0x88], [0xE2, 0x80, 0x89],
    [0xE2, 0x80, 0x8A], [0xE2, 0x80, 0xA8], [0xE2, 0x80, 0xA9], [0xE2, 0x80, 0xAF], [0xE2, 0x81, 0x9F],
    [0xE3, 0x80, 0x80]]

  /** Where a one-, two- or three-byte space stands in the list. */
  function SpaceIndex(c: bytes): Option<nat> {
    if |c| == 1 && 9 <= c[0] <= 13 then Some(c[0] as int - 9)
    else if |c| == 1 && c[0] == 32 then Some(5)
    else if c == [0xC2, 0x85] then Some(6)
    else if c == [0xC2, 0xA0] then Some(7)
    else if c == [0xE1, 0x9A, 0x80] then Some(8)
    else if |c| == 3 && c[0] == 0xE2 && c[1] == 0x80 && 0x80 <= c[2] <= 0x8A then Some(9 + c[2] as int - 0x80)
    else if c == [0xE2, 0x80, 0xA8] then Some(20)
    else if c == [0xE2, 0x80, 0xA9] then Some(21)
    else if c == [0xE2, 0x80, 0xAF] then Some(22)
    else if c == [0xE2, 0x81, 0x9F] then Some(23)
    else if c == [0xE3, 0x80, 0x80] then Some(24)
    else None
  }

  lemma ListedSpace(c: bytes)
    ensures SpaceIndex(c).Some? ==> SpaceIndex(c).value < 25 && SPACES[SpaceIndex(c).value] == c
  {
  }

  lemma SpaceListed(i: nat)
    requires i < 25
    ensures SpaceIndex(SPACES[i]) == Some(i)
  {
  }

  predicate IsSpace(c: bytes) {
    c in SPACES
  }

  ghost predicate AllSpaces(cs: seq<bytes>) {
    forall k :: 0 <= k < |cs| ==> IsSpace(cs[k])
  }

  ghost predicate NoneBefore(t: bytes) {
    forall c: bytes :: IsSpace(c) ==> !(c <= t)
  }

  ghost predicate NoneBehind(t: bytes) {
    forall c: bytes :: IsSpace(c) && |c| <= |t| ==> t[|t| - |c|..] != c
  }

  lemma LeadMeaning(s: bytes)
    ensures LeadSpace(s) > 0 ==> IsSpace(s[..LeadSpace(s)])
    ensures LeadSpace(s) == 0 ==> NoneBefore(s)
  {
    if LeadSpace(s) > 0 {
      ListedSpace(s[..LeadSpace(s)]);
    } else {
      forall c: bytes | IsSpace(c)
        ensures !(c <= s)
      {
        var i :| 0 <= i < 25 && SPACES[i] == c;
        SpaceListed(i);
        if c <= s {
          NoLead(s, c);
        }
      }
    }
  }

  lemma NoLead(s: bytes, c: bytes)
    requires c <= s && SpaceIndex(c).Some?
    ensures LeadSpace(s) > 0
  {
    assert c == s[..|c|];
    assert forall k :: 0 <= k < |c| ==> c[k] == s[k];
  }

  lemma TailMeaning(s: bytes)
    ensures TailSpace(s) > 0 ==> IsSpace(s[|s| - TailSpace(s)..])
    ensures TailSpace(s) == 0 ==> NoneBehind(s)
  {
    if TailSpace(s) > 0 {
      ListedSpace(s[|s| - TailSpace(s)..]);
    } else {
      forall c: bytes | IsSpace(c) && |c| <= |s|
        ensures s[|s| - |c|..] != c
      {
        var i :| 0 <= i < 25 && SPACES[i] == c;
        SpaceListed(i);
        if s[|s| - |c|..] == c {
          NoTail(s, c);
        }
      }
    }
  }

  lemma NoTail(s: bytes, c: bytes)
    requires |c| <= |s| && s[|s| - |c|..] == c && SpaceIndex(c).Some?
    ensures TailSpace(s) > 0
  {
    assert forall k :: 0 <= k < |c| ==> c[k] == s[|s| - |c| + k];
  }

  lemma FlatCons(a: bytes, rest: seq<bytes>)
    ensures Flat([a] + rest) == a + Flat(rest)
  {
    var all := [a] + rest;
    FlatSplit(all, 1);
    assert all[..1] == [] + [a] && all[1..] == rest;
    FlatSnoc([], a);
    assert Flat([]) == [];
  }

  lemma TrimLeftStep(s: bytes)
    ensures LeadSpace(s) == 0 ==> TrimLeft(s) == s
    ensures LeadSpace(s) > 0 ==> TrimLeft(s) == TrimLeft(s[LeadSpace(s)..])
  {
  }

  lemma TrimRightStep(s: bytes)
    ensures TailSpace(s) == 0 ==> TrimRight(s) == s
    ensures TailSpace(s) > 0 ==> TrimRight(s) == TrimRight(s[..|s| - TailSpace(s)])
  {
  }

  lemma FlatNone()
    ensures Flat([]) == []
  {
  }

  lemma NoSpaces()
    ensures AllSpaces([])
  {
  }

  lemma OneSpace(c: bytes)
    requires IsSpace(c)
    ensures AllSpaces([c])
  {
    hide IsSpace;
  }

  lemma SpacesJoin(a: seq<bytes>, b: seq<bytes>)
    requires AllSpaces(a) && AllSpaces(b)
    ensures AllSpaces(a + b)
  {
    hide IsSpace;
  }

  lemma Regroup(a: bytes, b: bytes, c: bytes)
    ensures a + (b + c) == a + b + c
  {
  }

  lemma {:induction false} TrimLeftMeaning(s: bytes) returns (pre: seq<bytes>)
    ensures AllSpaces(pre) && s == Flat(pre) + TrimLeft(s)
    ensures NoneBefore(TrimLeft(s))
    decreases |s|
  {
    hide LeadSpace;
    hide TrimLeft;
    hide IsSpace;
    hide AllSpaces;
    hide NoneBefore;
    hide NoneBehind;
    hide Flat;
    LeadMeaning(s);
    TrimLeftStep(s);
    FlatNone();
    var n := LeadSpace(s);
    if n == 0 {
      pre := [];
      assert AllSpaces([]) by { NoSpaces(); }
      assert [] + s == s;
    } else {
      var head, tail := s[..n], s[n..];
      var rest := TrimLeftMeaning(tail);
      pre := [head] + rest;
      FlatCons(head, rest);
      OneSpace(head);
      SpacesJoin([head], rest);
      Regroup(head, Flat(rest), TrimLeft(tail));
      assert s == head + tail;
    }
  }

  lemma {:induction false} TrimRightMeaning(s: bytes) returns (post: seq<bytes>)
    ensures AllSpaces(post) && s == TrimRight(s) + Flat(post)
    ensures NoneBehind(TrimRight(s))
    decreases |s|
  {
    hide TailSpace;
    hide TrimRight;
    hide IsSpace;
    hide AllSpaces;
    hide NoneBefore;
    hide NoneBehind;
    hide Flat;
    TailMeaning(s);
    TrimRightStep(s);
    FlatNone();
    var n := TailSpace(s);
    if n == 0 {
      post := [];
      assert AllSpaces([]) by { NoSpaces(); }
      assert s + [] == s;
    } else {
      var head, tail := s[..|s| - n], s[|s| - n..];
      var rest := TrimRightMeaning(head);
      post := rest + [tail];
      FlatSnoc(rest, tail);
      OneSpace(tail);
      SpacesJoin(rest, [tail]);
      Regroup(TrimRight(head), Flat(rest), tail);
      assert s == head + tail;
    }
  }

  lemma NoneBeforePart(t: bytes, u: bytes)
    requires NoneBefore(u) && t <= u
    ensures NoneBefore(t)
  {
    hide IsSpace;
    forall c: bytes | IsSpace(c)
      ensures !(c <= t)
    {
      PrefixOfPrefix(c, t, u);
    }
  }

  lemma PrefixOfPrefix(c: bytes, t: bytes, u: bytes)
    requires t <= u
    ensures c <= t ==> c <= u
  {
  }

  /** Trimming takes white-space characters off both ends, only those, and all of them. */
  lemma TrimMeaning(s: bytes) returns (pre: seq<bytes>, post: seq<bytes>)
    ensures AllSpaces(pre) && AllSpaces(post) && s == Flat(pre) + TrimSpace(s) + Flat(post)
    ensures NoneBefore(TrimSpace(s)) && NoneBehind(TrimSpace(s))
  {
    hide TrimLeft;
    hide TrimRight;
    hide IsSpace;
    hide AllSpaces;
    hide NoneBefore;
    hide NoneBehind;
    hide Flat;
    pre := TrimLeftMeaning(s);
    post := TrimRightMeaning(TrimLeft(s));
    Regroup(Flat(pre), TrimSpace(s), Flat(post));
    NoneBeforePart(TrimSpace(s), TrimLeft(s));
  }

  /** Trimming twice is trimming once. */
  lemma TrimTwice(s: bytes)
    ensures TrimSpace(TrimSpace(s)) == TrimSpace(s)
  {
    hide TrimLeft;
    hide TrimRight;
    hide LeadSpace;
    hide TailSpace;
    hide IsSpace;
    var t := TrimSpace(s);
    var pre, post := TrimMeaning(s);
    NoneLeading(t);
    NoneTrailing(t);
    TrimLeftStep(t);
    TrimRightStep(t);
  }

  lemma NoneLeading(t: bytes)
    requires NoneBefore(t)
    ensures LeadSpace(t) == 0
  {
    hide IsSpace;
    hide LeadSpace;
    LeadMeaning(t);
  }

  lemma NoneTrailing(t: bytes)
    requires NoneBehind(t)
    ensures TailSpace(t) == 0
  {
    hide IsSpace;
    hide TailSpace;
    TailMeaning(t);
  }

  /** TrimRight of blanks takes off blanks, and all of them. */
  lemma {:induction false} TrimBlanksMeaning(s: bytes) returns (n: nat)
    ensures var t := TrimBlanks(s);
            |s| == |t| + n && s[..|t|] == t && (forall k :: |t| <= k < |s| ==> s[k] == 32) && (t != [] ==> t[|t| - 1] != 32)
  {
    if |s| > 0 && s[|s| - 1] == BLANK {
      var m := TrimBlanksMeaning(s[..|s| - 1]);
      n := m + 1;
    } else {
      n := 0;
    }
  }

  // ---- integers ----

  /** The number a string of ASCII digits stands for, from its first digit on. */
  function Horner(s: bytes, acc: nat): nat {
    if s == [] then acc else Horner(s[1..], acc * 10 + if s[0] >= 48 then s[0] as int - 48 else 0)
  }

  lemma {:induction false} HornerValue(s: bytes, rest: bytes)
    requires forall i :: 0 <= i < |s + rest| ==> 48 <= (s + rest)[i] <= 57
    requires forall i :: 0 <= i < |s| ==> ZERO <= s[i] <= NINE
    requires forall i :: 0 <= i < |rest| ==> ZERO <= rest[i] <= NINE
    ensures Horner(rest, Value(s)) == Value(s + rest)
    decreases |rest|
  {
    if rest == [] {
      assert s + rest == s;
    } else {
      var t := s + [rest[0]];
      assert t[..|t| - 1] == s;
      assert t + rest[1..] == s + rest;
      HornerValue(t, rest[1..]);
    }
  }

  /** strconv.Atoi: an optional sign, then digits and nothing else, and a value that fits 64 bits. */
  lemma AtoiMeaning(s: bytes)
    ensures var body := if |s| > 0 && (s[0] == 43 || s[0] == 45) then s[1..] else s;
            var m: int := Horner(body, 0);
            var n := if |s| > 0 && s[0] == 45 then -m else m;
            Atoi(s) == if body != [] && (forall i :: 0 <= i < |body| ==> 48 <= body[i] <= 57)
                          && -0x8000_0000_0000_0000 <= n <= 0x7FFF_FFFF_FFFF_FFFF
                       then Some(n) else None
  {
    hide Value;
    hide Horner;
    var body := if Signed(s) then s[1..] else s;
    DigitsMeaning(body);
  }

  lemma DigitsMeaning(body: bytes)
    ensures IsDigits(body) <==> body != [] && forall i :: 0 <= i < |body| ==> 48 <= body[i] <= 57
    ensures IsDigits(body) ==> Value(body) == Horner(body, 0)
  {
    if IsDigits(body) {
      NoDigits();
      assert [] + body == body;
      HornerValue([], body);
    }
  }

  lemma NoDigits()
    ensures Value([]) == 0
  {
  }
}
