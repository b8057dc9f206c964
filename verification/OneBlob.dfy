/** Reading one oneBLOB element: when the sink is engaged, what it is given, and how it is ended. */
module OneBlob {
  import opened ByteText
  import opened FitsFrame
  import opened FitsWriter
  import opened Base64
  import opened B64Writer

  /** What the XML decoder delivers inside the element. A child element is skipped, which may
      fail; Other is a comment, directive or processing instruction. Running out of tokens is a
      read error, like Fault. */
  datatype Token = CharData(text: bytes) | Child(skipped: bool) | Other | End | Fault

  /** The attributes that matter: whether there is a size attribute, the size it gives, and
      whether the format ends in ".z". */
  datatype BlobInfo = BlobInfo(sized: bool, size: int, compressed: bool)

  /** `ended` is that the end tag was reached; `err` that an error is returned, which ends the
      connection. */
  datatype Outcome = Outcome(ended: bool, err: bool, total: nat, softErrors: nat)

  predicate Passes(t: Token) {
    t.CharData? || t.Other? || t == Child(true)
  }

  /** The character data of the first k tokens. */
  function TextOf(tokens: seq<Token>, k: nat): bytes
    requires k <= |tokens|
  {
    if k == 0 then [] else
    TextOf(tokens, k - 1) + (if tokens[k - 1].CharData? then tokens[k - 1].text else [])
  }

  /** The first k tokens are read without an error. */
  ghost predicate Runs(tokens: seq<Token>, k: nat) {
    && k <= |tokens|
    && (forall j :: 0 <= j < k ==> Passes(tokens[j]))
    && Live(Strip(TextOf(tokens, k)))
  }

  /** The end tag is token e, and everything before it is read without an error. */
  ghost predicate EndsHere(tokens: seq<Token>, e: nat) {
    e < |tokens| && tokens[e].End? && Runs(tokens, e)
  }

  /** The text is the character data end to end; the other tokens add nothing to it. */
  lemma {:induction false} TextMeaning(tokens: seq<Token>, k: nat)
    requires k <= |tokens|
    ensures TextOf(tokens, k) == Flat(Texts(tokens, k))
  {
    if k > 0 {
      TextMeaning(tokens, k - 1);
      var parts := Texts(tokens, k - 1);
      var last := if tokens[k - 1].CharData? then tokens[k - 1].text else [];
      assert Texts(tokens, k) == parts + [last];
      hide Texts;
      FlatSnoc(parts, last);
    }
  }

  function Texts(tokens: seq<Token>, k: nat): seq<bytes>
    requires k <= |tokens|
  {
    seq(k, j requires 0 <= j < k => if tokens[j].CharData? then tokens[j].text else [])
  }

  /** An element that is read to its end tag: character data, comments and whole child elements, and
      in the text nothing that may not stand where it stands. */
  lemma EndsHereMeaning(tokens: seq<Token>, e: nat)
    ensures EndsHere(tokens, e) <==>
              && e < |tokens| && tokens[e] == End
              && (forall j :: 0 <= j < e ==> tokens[j].CharData? || tokens[j] == Other || tokens[j] == Child(true))
              && AllMayStand(Strip(TextOf(tokens, e)))
  {
    hide AllMayStand;
    hide Strip;
    hide TextOf;
    if e < |tokens| {
      LiveMeaning(Strip(TextOf(tokens, e)));
      hide Live;
    }
  }

  function HasB64Data(p: bytes): bool {
    exists i :: 0 <= i < |p| && !IsBlank(p[i])
  }

  lemma {:induction false} StripBlank(p: bytes)
    ensures HasB64Data(p) <==> Strip(p) != []
  {
    if p != [] {
      var init := p[..|p| - 1];
      StripBlank(init);
      if HasB64Data(init) {
        var i :| 0 <= i < |init| && !IsBlank(init[i]);
        assert !IsBlank(p[i]);
      } else if HasB64Data(p) {
        var i :| 0 <= i < |p| && !IsBlank(p[i]);
        assert i < |init| ==> !IsBlank(init[i]);
      }
    }
  }

  /** How a sink is ended once the end tag is reached: Close after a whole payload, otherwise
      CloseWithError when it is offered and Close when it is not. */
  function EndingOf(closer: bool, aborter: bool, whole: bool): Ending {
    if whole then (if closer then Closed else Open)
    else if aborter then Aborted
    else if closer then Closed else Open
  }

  /** The end tag ends a good text and nothing has failed on the way. */
  predicate Whole(tokens: seq<Token>, e: nat, failed: bool)
    requires e <= |tokens|
  {
    |Strip(TextOf(tokens, e))| % 4 == 0 && !failed
  }

  /** How an engaged sink is left by these tokens, given whether it failed. */
  ghost function SinkEnding(tokens: seq<Token>, closer: bool, aborter: bool, failed: bool): Ending {
    if e: nat :| EndsHere(tokens, e) then EndingOf(closer, aborter, Whole(tokens, e, failed)) else Open
  }

  lemma EndIsUnique(tokens: seq<Token>, e: nat)
    requires EndsHere(tokens, e)
    ensures forall f: nat :: EndsHere(tokens, f) ==> f == e
    ensures forall closer, aborter, failed ::
              SinkEnding(tokens, closer, aborter, failed) == EndingOf(closer, aborter, Whole(tokens, e, failed))
  {
    hide Live;
    hide Strip;
    NoEarlierEnd(tokens, e);
    forall f: nat | EndsHere(tokens, f)
      ensures f == e
    {
      NoEarlierEnd(tokens, f);
    }
  }

  lemma NoEarlierEnd(tokens: seq<Token>, e: nat)
    requires EndsHere(tokens, e)
    ensures forall f: nat :: f < e ==> !tokens[f].End?
  {
    hide Live;
    hide Strip;
    assert forall f: nat :: f < e ==> Passes(tokens[f]);
  }

  /** An engaged sink is ended exactly when the end tag is reached with everything before it read
      without an error, and it offers the call that then is due. */
  lemma EndedExactlyWhen(tokens: seq<Token>, closer: bool, aborter: bool, failed: bool)
    ensures SinkEnding(tokens, closer, aborter, failed) != Open <==>
              exists e: nat :: EndsHere(tokens, e) &&
                (closer || (aborter && (failed || |Strip(TextOf(tokens, e))| % 4 != 0)))
  {
    if e: nat :| EndsHere(tokens, e) {
      EndIsUnique(tokens, e);
    }
  }

  /** A sink that offers CloseWithError gets it exactly for the failures that are found out at the end
      tag: a text cut short, or a write that failed. Any other ends the reading before. */
  lemma ErrorReportedExactlyWhen(tokens: seq<Token>, closer: bool, failed: bool)
    ensures SinkEnding(tokens, closer, true, failed) == Aborted <==>
              exists e: nat :: EndsHere(tokens, e) && (failed || |Strip(TextOf(tokens, e))| % 4 != 0)
  {
    if e: nat :| EndsHere(tokens, e) {
      EndIsUnique(tokens, e);
    }
  }

  /** That Close means a whole payload, whatever tokens come, is true of a sink exactly when it
      offers CloseWithError or no Close at all. */
  lemma CloseMeansWhole(closer: bool, aborter: bool)
    ensures (forall tokens, e: nat, failed ::
               EndsHere(tokens, e) && SinkEnding(tokens, closer, aborter, failed) == Closed ==>
                 !failed && |Strip(TextOf(tokens, e))| % 4 == 0)
            <==> aborter || !closer
  {
    if aborter || !closer {
      forall tokens, e: nat, failed | EndsHere(tokens, e) && SinkEnding(tokens, closer, aborter, failed) == Closed
        ensures !failed && |Strip(TextOf(tokens, e))| % 4 == 0
      {
        EndIsUnique(tokens, e);
      }
    } else {
      TruncatedText();
      EndIsUnique(TRUNCATED, 1);
      assert EndsHere(TRUNCATED, 1) && SinkEnding(TRUNCATED, closer, aborter, false) == Closed;
    }
  }

  /** One character of base64, and the end tag. */
  const TRUNCATED: seq<Token> := [CharData([65]), End]

  lemma TruncatedText()
    ensures EndsHere(TRUNCATED, 1) && Strip(TextOf(TRUNCATED, 1)) == [65] && !Whole(TRUNCATED, 1, false)
  {
    hide Strip;
    hide Live;
    hide TextOf;
    OneToken(TRUNCATED, [65]);
    NoBlanks([65]);
    TooShort([65]);
  }

  lemma OneToken(tokens: seq<Token>, text: bytes)
    requires |tokens| > 0 && tokens[0] == CharData(text)
    ensures TextOf(tokens, 1) == text
  {
    assert TextOf(tokens, 0) == [] && [] + text == text;
  }

  lemma TooShort(s: bytes)
    requires |s| < 4
    ensures Live(s)
  {
  }

  /** Four characters that are not base64, and the end tag. */
  const MALFORMED: seq<Token> := [CharData([33, 33, 33, 33]), End]

  lemma MalformedText(e: nat)
    ensures !EndsHere(MALFORMED, e)
  {
    hide Strip;
    hide TextOf;
    var bad: bytes := [33, 33, 33, 33];
    OneToken(MALFORMED, bad);
    NoBlanks(bad);
    NotAlphabet(bad);
  }

  lemma NotAlphabet(s: bytes)
    requires |s| == 4 && Digit(s[0]) < 0
    ensures !Live(s)
  {
    assert QuadAt(s, 0) == s && Quads(s) == 1;
  }

  lemma {:induction false} NoBlanks(s: bytes)
    requires forall i :: 0 <= i < |s| ==> !IsBlank(s[i])
    ensures Strip(s) == s
  {
    if s != [] {
      NoBlanks(s[..|s| - 1]);
      assert s == s[..|s| - 1] + [s[|s| - 1]];
    }
  }

  /** The soft errors counted at the end tag. */
  function SoftErrors(info: BlobInfo, truncated: bool, total: nat, inflated: Option<int>, failed: bool): nat {
    (if truncated || !info.sized then 0
     else if !info.compressed then (if total != info.size then 1 else 0)
     else if info.size > 0 && inflated != Some(info.size) then 1 else 0)
    + (if failed then 1 else 0)
  }

  lemma {:induction false} TextPrefix(tokens: seq<Token>, i: nat, k: nat) returns (more: bytes)
    requires i <= k <= |tokens|
    ensures TextOf(tokens, k) == TextOf(tokens, i) + more
  {
    if i == k {
      more := [];
    } else {
      var rest := TextPrefix(tokens, i, k - 1);
      more := rest + (if tokens[k - 1].CharData? then tokens[k - 1].text else []);
    }
  }

  /** A token that stops the loop without being a good end tag rules out every end tag. */
  lemma Stopped(tokens: seq<Token>, i: nat)
    requires i < |tokens| && !tokens[i].End?
    requires !Passes(tokens[i]) || !Live(Strip(TextOf(tokens, i + 1)))
    requires forall e :: 0 <= e < i ==> !tokens[e].End?
    ensures forall e: nat :: !EndsHere(tokens, e)
  {
    forall e: nat
      ensures !EndsHere(tokens, e)
    {
      if EndsHere(tokens, e) && i < e {
        var more := TextPrefix(tokens, i + 1, e);
        StripConcat(TextOf(tokens, i + 1), more);
        LivePrefix(Strip(TextOf(tokens, i + 1)), Strip(more));
      }
    }
  }

  /** Where a sink stands after the text q: it has been given exactly what q decodes to, or it
      failed along the way and was given a prefix. */
  ghost predicate Fed(s: BlobSink, q: bytes)
    reads s
  {
    if s.failed then Flat(s.log) <= DecodedText(q) else Flat(s.log) == DecodedText(q)
  }

  /** The decoder and the sink in step. */
  ghost predicate Stage(b64: B64Writer, offer: BlobSink?, engaged: bool)
    reads b64, b64.quad, if b64.w == null then {} else b64.w.Owned(), if b64.w == null then {} else {b64.w},
          if b64.w == null || b64.w.fits == null then {} else {b64.w.fits},
          if offer == null then {} else {offer}, if offer == null then {} else offer.Owned(),
          if offer == null || offer.fits == null then {} else {offer.fits}
  {
    && b64.Valid()
    && (offer == null || !engaged ==> b64.w == null && !b64.werr)
    && (offer != null ==> offer.Valid() && offer.ending == Open && (offer.fits != null ==> !offer.fits.done)
                          && {b64 as object, b64.quad as object, b64.scratch as object} !! offer.Owned())
    && (offer != null && engaged ==>
          && Fed(offer, b64.text)
          && b64.w == (if offer.failed then null else offer) && (b64.werr <==> offer.failed))
  }

  /** Hands over the sink: fn(info), and b64.w = dst. */
  method Engage(b64: B64Writer, offer: BlobSink?)
    requires Stage(b64, offer, false) && b64.text == []
    requires offer != null ==> !offer.failed && offer.log == []
    modifies b64`w
    ensures Stage(b64, offer, true) && b64.scratch == old(b64.scratch)
  {
    hide BlobSink.Valid;
    b64.w := offer;
    if offer != null {
      assert Flat(offer.log) == [] == DecodedText(b64.text);
    }
  }

  /** One character-data token. */
  method Take(b64: B64Writer, offer: BlobSink?, ghost engaged: bool, t: bytes) returns (ok: bool)
    requires Stage(b64, offer, engaged)
    modifies b64, b64.quad, b64.scratch, if engaged && offer != null then offer.Owned() else {}
    ensures b64.scratch == old(b64.scratch) || fresh(b64.scratch)
    ensures offer != null && engaged ==> fresh(offer.Owned() - old(offer.Owned()))
    ensures ok ==> Stage(b64, offer, engaged) && b64.text == old(b64.text) + Strip(t)
    ensures ok && b64.teeing && old(b64.teed) == DecodedText(old(b64.text)) ==> b64.teed == DecodedText(b64.text)
    ensures !ok ==> !Live(old(b64.text) + Strip(t))
    ensures !ok && offer != null ==> offer.ending == Open
    ensures !ok && offer != null && engaged ==> Fed(offer, old(b64.text))
  {
    hide BlobSink.Valid;
    hide Live;
    hide DecodedText;
    hide Flat;
    hide Strip;
    assert offer != null ==> forall o | o in offer.Owned() :: allocated(o);
    ok := b64.Write(t);
    assert ok && offer != null ==> b64.scratch !in offer.Owned();
    if ok && engaged && offer != null {
      ghost var more := b64.Fresh(DecodedText(old(b64.text)));
      FlatSnoc(old(offer.log), more);
    }
  }

  /** The error a sink's Close returns after the payload it has been given. */
  ghost predicate CloseFails(s: BlobSink)
    reads s, if s.fits == null then {} else {s.fits}
  {
    if s.fits == null then s.closeFails else Streamed(s.fits.fl, s.fits.fed).Err?
  }

  /** A FITS sink has given its verdict, and it is the one for this payload even if a refusal
      cut the writing short. */
  ghost predicate Judged(s: BlobSink, payload: bytes)
    reads s, s.fits, s.Owned()
  {
    s.fits != null ==>
      && s.fits.Valid() && (s.fits.err.Some? || s.fits.done)
      && Streamed(s.fits.fl, s.fits.fed) == Streamed(s.fits.fl, payload)
      && (s.failed ==> Streamed(s.fits.fl, payload).Err?)
  }

  /** What is done at the end tag. */
  method Finish(info: BlobInfo, b64: B64Writer, offer: BlobSink?, engaged: bool, inflate: bytes -> Option<int>)
    returns (o: Outcome)
    requires Stage(b64, offer, engaged)
    requires b64.teeing == (info.compressed && info.sized && info.size > 0)
    requires b64.teeing ==> b64.teed == DecodedText(b64.text)
    modifies if offer != null && engaged then offer.Owned() else {}
    ensures var q := b64.text;
            && o.ended && o.total == |DecodedText(q)|
            && o.softErrors == SoftErrors(info, |q| % 4 != 0, |DecodedText(q)|, inflate(DecodedText(q)),
                                          engaged && offer != null && offer.failed)
            && (o.err <==> |q| % 4 != 0
                           || (engaged && offer != null && offer.closer && !offer.failed && CloseFails(offer)))
    ensures offer != null && engaged ==>
              && Fed(offer, b64.text) && fresh(offer.Owned() - old(offer.Owned()))
              && offer.ending == EndingOf(offer.closer, offer.aborter, |b64.text| % 4 == 0 && !offer.failed)
              && Judged(offer, DecodedText(b64.text))
  {
    hide Stage;
    hide Fed;
    hide Judged;
    hide CloseFails;
    hide EndingOf;
    hide DecodedText;
    hide B64Writer.Valid;
    hide BlobSink.Valid;
    AtEnd(b64, offer, engaged);
    var soft := SizeErrors(info, b64, inflate);
    var err := b64.n != 0;
    if b64.werr {
      soft := soft + 1;
    }
    if engaged && offer != null {
      var bad := EndJudged(offer, b64.text, !err && !b64.werr);
      err := err || bad;
    }
    return Outcome(true, err, b64.total, soft);
  }

  /** The checks of the size attribute at the end tag. */
  method SizeErrors(info: BlobInfo, b64: B64Writer, inflate: bytes -> Option<int>) returns (soft: nat)
    requires b64.Valid()
    requires b64.teeing == (info.compressed && info.sized && info.size > 0)
    requires b64.teeing ==> b64.teed == DecodedText(b64.text)
    ensures soft == SoftErrors(info, |b64.text| % 4 != 0, |DecodedText(b64.text)|, inflate(DecodedText(b64.text)), false)
    ensures b64.n == |b64.text| % 4 && b64.total == |DecodedText(b64.text)|
  {
    hide Live;
    hide DecodedText;
    hide Ended;
    hide B64Writer.Usable;
    soft := 0;
    if b64.n == 0 && info.sized {
      if !info.compressed {
        if b64.total != info.size {
          soft := soft + 1;
        }
      } else if info.size > 0 {
        if inflate(b64.teed) != Some(info.size) {
          soft := soft + 1;
        }
      }
    }
  }

  lemma AtEnd(b64: B64Writer, offer: BlobSink?, engaged: bool)
    requires Stage(b64, offer, engaged)
    ensures b64.Valid()
    ensures offer != null && engaged ==> {b64 as object, b64.quad as object, b64.scratch as object} !! offer.Owned()
    ensures offer != null && engaged ==>
              && Fed(offer, b64.text) && offer.Valid() && offer.ending == Open && (b64.werr <==> offer.failed)
              && (offer.fits != null ==> !offer.fits.done)
    ensures offer == null || !engaged ==> !b64.werr
  {
  }

  /** The sink is ended; a FITS sink has then given the verdict of the whole payload. */
  method EndJudged(s: BlobSink, ghost q: bytes, whole: bool) returns (err: bool)
    requires s.Valid() && s.ending == Open && (s.fits != null ==> !s.fits.done) && Fed(s, q)
    modifies s.Owned()
    ensures s.ending == EndingOf(s.closer, s.aborter, whole) && s.log == old(s.log) && s.failed == old(s.failed)
    ensures Fed(s, q) && Judged(s, DecodedText(q)) && fresh(s.Owned() - old(s.Owned()))
    ensures err == (whole && s.closer && CloseFails(s))
  {
    hide Flat;
    hide FITSWriter.Valid;
    hide Streamed;
    hide DecodedText;
    if s.failed && s.fits != null {
      Spoiled(s, DecodedText(q));
    }
    err := EndSink(s, whole);
  }

  lemma Spoiled(s: BlobSink, payload: bytes)
    requires s.Valid() && s.failed && s.fits != null && Flat(s.log) <= payload
    ensures Streamed(s.fits.fl, s.fits.fed) == Streamed(s.fits.fl, payload)
    ensures Streamed(s.fits.fl, payload).Err?
  {
    hide FITSWriter.Valid;
    hide Streamed;
    hide Flat;
    s.fits.RefusedForGood();
    var fed := s.fits.fed;
    assert fed + payload[|fed|..] == payload && fed + [] == fed;
  }

  lemma EmptyText()
    ensures Strip([]) == [] && Live([]) && DecodedText([]) == []
  {
  }

  lemma NoText(tokens: seq<Token>)
    ensures TextOf(tokens, 0) == []
  {
  }

  lemma NextText(tokens: seq<Token>, i: nat)
    requires i < |tokens|
    ensures tokens[i].CharData? ==> Strip(TextOf(tokens, i + 1)) == Strip(TextOf(tokens, i)) + Strip(tokens[i].text)
    ensures !tokens[i].CharData? ==> TextOf(tokens, i + 1) == TextOf(tokens, i)
  {
    if tokens[i].CharData? {
      StripConcat(TextOf(tokens, i), tokens[i].text);
    }
  }

  lemma NoEnd(tokens: seq<Token>)
    requires forall e :: 0 <= e < |tokens| ==> !tokens[e].End?
    ensures forall e: nat :: !EndsHere(tokens, e)
  {
  }

  /** Ends an engaged sink: abortSink, or Close. Only Close's own error is reported. */
  method EndSink(s: BlobSink, whole: bool) returns (err: bool)
    requires s.Valid() && s.ending == Open && (s.fits != null ==> !s.fits.done)
    modifies s.Owned()
    ensures s.ending == EndingOf(s.closer, s.aborter, whole) && s.log == old(s.log) && s.failed == old(s.failed)
    ensures s.fits != null ==> s.fits.Valid() && s.fits.fed == old(s.fits.fed) && (s.fits.err.Some? || s.fits.done)
    ensures fresh(s.Owned() - old(s.Owned()))
    ensures err == (whole && s.closer && CloseFails(s))
  {
    hide FITSWriter.Valid;
    hide Streamed;
    assert s.fits != null ==> s.closer && !s.aborter && s.fits.Valid();
    if whole {
      if s.closer {
        err := s.Close();
        return;
      }
    } else if s.aborter {
      s.Abort();
    } else if s.closer {
      var _ := s.Close();
    }
    return false;
  }

  /** Where the loop stands after character data whose stripped text is q. */
  ghost predicate Going(b64: B64Writer, offer: BlobSink?, info: BlobInfo, hasSink: bool, engaged: bool, q: bytes)
    reads b64, b64.quad, if b64.w == null then {} else b64.w.Owned(), if b64.w == null then {} else {b64.w},
          if b64.w == null || b64.w.fits == null then {} else {b64.w.fits},
          if offer == null then {} else {offer}, if offer == null then {} else offer.Owned(),
          if offer == null || offer.fits == null then {} else {offer.fits}
  {
    && Stage(b64, offer, engaged) && b64.text == q
    && b64.teeing == (info.compressed && info.sized && info.size > 0)
    && (b64.teeing ==> b64.teed == DecodedText(q))
    && (engaged <==> hasSink && (info.size > 0 || q != []))
    && (offer != null ==> offer.ending == Open)
    && (offer != null && !engaged ==> offer.log == [] && !offer.failed)
  }

  /** Starts the decoder, with the sink engaged at once when a size is declared. */
  method Start(info: BlobInfo, hasSink: bool, offer: BlobSink?) returns (b64: B64Writer, engaged: bool)
    requires offer != null ==> offer.Valid() && !offer.failed && offer.ending == Open && offer.log == []
                               && (offer.fits != null ==> !offer.fits.done)
    ensures fresh(b64) && fresh(b64.quad) && fresh(b64.scratch)
    ensures Going(b64, offer, info, hasSink, engaged, [])
  {
    hide BlobSink.Valid;
    hide Stage;
    hide DecodedText;
    EmptyText();
    b64 := NewDecoder(info.compressed && info.sized && info.size > 0, offer);
    engaged := info.size > 0 && hasSink;
    ghost var scratch := b64.scratch;
    if engaged {
      Engage(b64, offer);
    }
    assert b64.scratch == scratch;
  }

  method NewDecoder(teeing: bool, ghost offer: BlobSink?) returns (b64: B64Writer)
    requires offer != null ==> offer.Valid() && offer.ending == Open && (offer.fits != null ==> !offer.fits.done)
    ensures fresh(b64) && fresh(b64.quad) && fresh(b64.scratch)
    ensures Stage(b64, offer, false) && b64.text == [] && b64.teed == [] && b64.teeing == teeing
  {
    hide BlobSink.Valid;
    assert offer != null ==> forall o | o in offer.Owned() :: allocated(o);
    b64 := new B64Writer(teeing);
  }

  /** One character-data token, engaging the sink first when it is still to be engaged and the
      token is not all white space. */
  method TakeText(b64: B64Writer, offer: BlobSink?, info: BlobInfo, hasSink: bool, was: bool, ghost q: bytes, t: bytes)
    returns (ok: bool, engaged: bool)
    requires Going(b64, offer, info, hasSink, was, q)
    modifies b64, b64.quad, b64.scratch, if offer != null then offer.Owned() else {}
    ensures b64.scratch == old(b64.scratch) || fresh(b64.scratch)
    ensures offer != null ==> fresh(offer.Owned() - old(offer.Owned()))
    ensures ok ==> Going(b64, offer, info, hasSink, engaged, q + Strip(t)) && Live(q + Strip(t))
    ensures !ok ==> !Live(q + Strip(t)) && (offer != null ==> offer.ending == Open)
    ensures !ok && offer != null && !engaged ==> offer.log == []
    ensures !ok && offer != null && engaged ==> Fed(offer, q)
  {
    hide BlobSink.Valid;
    hide Live;
    hide DecodedText;
    hide Strip;
    hide HasB64Data;
    StripBlank(t);
    engaged := was;
    if hasSink && !was && HasB64Data(t) {
      Engage(b64, offer);
      engaged := true;
    }
    ok := Take(b64, offer, engaged, t);
    if ok {
      b64.StillLive();
    }
  }

  /** Reads the tokens of one element. `offer` is what the sink callback would return, null also
      when it returns nil; `hasSink` that there is a callback. `inflate` is the inflated size of
      a compressed payload, if it inflates. */
  method ReadOneBlob(info: BlobInfo, tokens: seq<Token>, hasSink: bool, offer: BlobSink?, inflate: bytes -> Option<int>)
    returns (o: Outcome, engaged: bool, at: nat, teed: bytes)
    requires offer != null ==> offer.Valid() && !offer.failed && offer.ending == Open && offer.log == []
                               && (offer.fits != null ==> !offer.fits.done)
    modifies if offer == null then {} else offer.Owned()
    ensures o.ended ==> EndsHere(tokens, at)
    ensures !o.ended ==> o.err && forall e: nat :: !EndsHere(tokens, e)
    // The sink is engaged by a declared size or by the first character that is not white space.
    ensures o.ended ==> engaged == (hasSink && (info.size > 0 || Strip(TextOf(tokens, at)) != []))
    ensures offer != null && !engaged ==> offer.log == [] && offer.ending == Open
    // Every decoded byte is counted and teed, whether or not the sink failed.
    ensures o.ended ==> var q := Strip(TextOf(tokens, at));
              && o.total == |DecodedText(q)|
              && (info.compressed && info.sized && info.size > 0 ==> teed == DecodedText(q))
    // A sink that did not fail has all that was decoded, up to the end tag or the error that stopped
    // the reading; one that failed has a prefix.
    ensures at <= |tokens| && Runs(tokens, at)
    ensures engaged && offer != null ==> Fed(offer, Strip(TextOf(tokens, at)))
    // It is ended in the way its success calls for; without a good end tag it is not ended at all.
    ensures engaged && offer != null ==> offer.ending == SinkEnding(tokens, offer.closer, offer.aborter, offer.failed)
    // A soft error is counted for a size that is not the declared one and for a sink that failed.
    ensures o.ended ==> var q := Strip(TextOf(tokens, at));
              var wrong := |q| % 4 == 0 && info.sized &&
                           if info.compressed then info.size > 0 && inflate(DecodedText(q)) != Some(info.size)
                           else |DecodedText(q)| != info.size;
              o.softErrors == (if wrong then 1 else 0) + (if engaged && offer != null && offer.failed then 1 else 0)
    // A FITS sink gives the verdict of the whole payload.
    ensures o.ended && engaged && offer != null ==> Judged(offer, DecodedText(Strip(TextOf(tokens, at))))
    // An error is returned for a truncated text or a failing Close of an otherwise good sink.
    ensures o.ended ==>
              (o.err <==> |Strip(TextOf(tokens, at))| % 4 != 0
                          || (engaged && offer != null && offer.closer && !offer.failed && CloseFails(offer)))
    ensures offer != null ==> fresh(offer.Owned() - old(offer.Owned()))
  {
    hide Stage;
    hide BlobSink.Valid;
    hide FITSWriter.Valid;
    hide Live;
    hide Strip;
    hide DecodedText;
    hide Fed;
    hide Judged;
    hide SoftErrors;
    hide CloseFails;
    hide EndingOf;
    hide Runs;
    hide TextOf;
    var b64, reached;
    b64, engaged := Start(info, hasSink, offer);
    reached, engaged, at := Drain(b64, info, tokens, hasSink, offer, engaged);
    teed := b64.teed;
    hide SinkEnding;
    if !reached {
      NeverEnded(tokens);
      return Outcome(false, true, b64.total, 0), engaged, at, teed;
    }
    EndIsUnique(tokens, at);
    ghost var q := Strip(TextOf(tokens, at));
    AtStage(b64, offer, info, hasSink, engaged, q);
    o := Finish(info, b64, offer, engaged, inflate);
    SoftErrorsMeaning(info, q, inflate, engaged && offer != null && offer.failed);
  }

  lemma SoftErrorsMeaning(info: BlobInfo, q: bytes, inflate: bytes -> Option<int>, failed: bool)
    ensures var wrong := |q| % 4 == 0 && info.sized &&
                         if info.compressed then info.size > 0 && inflate(DecodedText(q)) != Some(info.size)
                         else |DecodedText(q)| != info.size;
            SoftErrors(info, |q| % 4 != 0, |DecodedText(q)|, inflate(DecodedText(q)), failed)
            == (if wrong then 1 else 0) + (if failed then 1 else 0)
  {
    hide DecodedText;
  }

  lemma NeverEnded(tokens: seq<Token>)
    requires forall e: nat :: !EndsHere(tokens, e)
    ensures forall closer, aborter, failed :: SinkEnding(tokens, closer, aborter, failed) == Open
  {
  }

  lemma GoingFed(b64: B64Writer, offer: BlobSink?, info: BlobInfo, hasSink: bool, engaged: bool, q: bytes)
    requires Going(b64, offer, info, hasSink, engaged, q)
    ensures offer != null && engaged ==> Fed(offer, q)
  {
    hide B64Writer.Valid;
    hide BlobSink.Valid;
  }

  lemma AtStage(b64: B64Writer, offer: BlobSink?, info: BlobInfo, hasSink: bool, engaged: bool, q: bytes)
    requires Going(b64, offer, info, hasSink, engaged, q)
    ensures Stage(b64, offer, engaged) && b64.text == q
  {
  }

  /** The token loop, up to the end tag or the first error. */
  method Drain(b64: B64Writer, info: BlobInfo, tokens: seq<Token>, hasSink: bool, offer: BlobSink?, was: bool)
    returns (reached: bool, engaged: bool, at: nat)
    requires Going(b64, offer, info, hasSink, was, [])
    modifies b64, b64.quad, b64.scratch, if offer != null then offer.Owned() else {}
    ensures reached ==> EndsHere(tokens, at) && Going(b64, offer, info, hasSink, engaged, Strip(TextOf(tokens, at)))
    ensures !reached ==> (forall e: nat :: !EndsHere(tokens, e)) && (offer != null ==> offer.ending == Open)
    ensures !reached && offer != null && !engaged ==> offer.log == []
    ensures !reached ==> at <= |tokens| && Runs(tokens, at)
    ensures !reached && offer != null && engaged ==> Fed(offer, Strip(TextOf(tokens, at)))
    ensures offer != null ==> fresh(offer.Owned() - old(offer.Owned()))
  {
    hide Stage;
    hide BlobSink.Valid;
    hide FITSWriter.Valid;
    hide Live;
    hide Strip;
    hide DecodedText;
    hide Fed;
    hide TextOf;
    EmptyText();
    NoText(tokens);
    at, engaged := 0, was;
    while at < |tokens|
      invariant 0 <= at <= |tokens|
      invariant b64.scratch == old(b64.scratch) || fresh(b64.scratch)
      invariant Going(b64, offer, info, hasSink, engaged, Strip(TextOf(tokens, at)))
      invariant Runs(tokens, at)
      invariant offer != null ==> fresh(offer.Owned() - old(offer.Owned()))
      invariant forall e :: 0 <= e < at ==> !tokens[e].End?
    {
      NextText(tokens, at);
      GoingFed(b64, offer, info, hasSink, engaged, Strip(TextOf(tokens, at)));
      match tokens[at] {
        case CharData(t) =>
          var ok;
          ok, engaged := TakeText(b64, offer, info, hasSink, engaged, Strip(TextOf(tokens, at)), t);
          if !ok {
            Stopped(tokens, at);
            return false, engaged, at;
          }
        case Child(skipped) =>
          if !skipped {
            Stopped(tokens, at);
            return false, engaged, at;
          }
        case Other =>
        case Fault =>
          Stopped(tokens, at);
          return false, engaged, at;
        case End =>
          return true, engaged, at;
      }
      at := at + 1;
    }
    NoEnd(tokens);
    GoingFed(b64, offer, info, hasSink, engaged, Strip(TextOf(tokens, at)));
    return false, engaged, at;
  }

  /** A FITSWriter offers Close only: it is closed after a text that was cut short. */
  method TruncatedIsClosed(fl: Floats) returns (s: BlobSink, o: Outcome)
    ensures s.closer && !s.aborter && s.ending == Closed && o.ended && o.err
    ensures TRUNCATED == [CharData([65]), End] && |Strip(TextOf(TRUNCATED, 1))| == 1
  {
    hide BlobSink.Valid;
    hide FITSWriter.Valid;
    hide Live;
    hide Strip;
    hide DecodedText;
    hide TextOf;
    TruncatedText();
    EndIsUnique(TRUNCATED, 1);
    var f := new FITSWriter(fl);
    s := new BlobSink.ForFits(f);
    var engaged, at, teed;
    o, engaged, at, teed := ReadOneBlob(BlobInfo(true, 1, false), TRUNCATED, true, s, _ => None);
  }

  /** A sink that offers CloseWithError, and is engaged by the declared size, never hears of a text
      that is not base64. */
  method MalformedIsNotReported() returns (s: BlobSink, o: Outcome)
    ensures s.closer && s.aborter && s.ending == Open && !o.ended && o.err
  {
    hide BlobSink.Valid;
    hide Live;
    hide Strip;
    hide DecodedText;
    hide TextOf;
    forall e: nat
      ensures !EndsHere(MALFORMED, e)
    {
      MalformedText(e);
    }
    NeverEnded(MALFORMED);
    s := new BlobSink(true, true, _ => false, false);
    var engaged, at, teed;
    o, engaged, at, teed := ReadOneBlob(BlobInfo(true, 3, false), MALFORMED, true, s, _ => None);
  }
}
