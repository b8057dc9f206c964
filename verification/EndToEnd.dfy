/** The whole image path: camera frame, FITS file, base64 text in arbitrary tokens, frame. */
module EndToEnd {
  import opened ByteText
  import opened FitsHeader
  import opened FitsFrame
  import opened FitsWriter
  import opened FitsEncode
  import opened FitsRoundTrip
  import Base64
  import opened B64Writer
  import opened OneBlob

  /** The tokens carry the base64 text of this file: cut anywhere, with any white space, child
      elements and comments between, and an end tag after it. */
  ghost predicate Carries(tokens: seq<Token>, file: bytes) {
    exists e: nat :: EndsHere(tokens, e) && Base64.Strip(TextOf(tokens, e)) == Base64.Encode(file)
  }

  /** The pieces as character data, then the end tag. */
  function Tokens(pieces: seq<bytes>): (ts: seq<Token>)
    ensures |ts| == |pieces| + 1 && ts[|pieces|] == End
    ensures forall i :: 0 <= i < |pieces| ==> ts[i] == CharData(pieces[i])
  {
    seq(|pieces|, i requires 0 <= i < |pieces| => CharData(pieces[i])) + [End]
  }

  lemma {:induction false} TokenText(pieces: seq<bytes>, k: nat)
    requires k <= |pieces|
    ensures TextOf(Tokens(pieces), k) == Flat(pieces[..k])
  {
    if k == 0 {
      assert pieces[..0] == [];
    } else {
      TokenText(pieces, k - 1);
      assert pieces[..k] == pieces[..k - 1] + [pieces[k - 1]];
      FlatSnoc(pieces[..k - 1], pieces[k - 1]);
    }
  }

  /** However the encoded file is spaced out with blanks, tabs, carriage returns and line feeds, and
      wherever that is cut into pieces, the tokens carry the file. */
  lemma CutAnywhere(pieces: seq<bytes>, file: bytes)
    requires Base64.Spaced(Flat(pieces), Base64.Encode(file))
    ensures Carries(Tokens(pieces), file)
  {
    hide *;
    Base64.EncodeUnspaced(file);
    Base64.SpacedStrips(Flat(pieces), Base64.Encode(file));
    CutStripped(pieces, file);
  }

  lemma CutStripped(pieces: seq<bytes>, file: bytes)
    requires Base64.Strip(Flat(pieces)) == Base64.Encode(file)
    ensures Carries(Tokens(pieces), file)
  {
    hide Base64.Encode;
    hide Base64.Strip;
    hide Base64.WellFormed;
    hide Base64.Live;
    hide Base64.DecodedText;
    var ts := Tokens(pieces);
    TokenText(pieces, |pieces|);
    assert pieces[..|pieces|] == pieces;
    Base64.EncodeDecode(file);
    Base64.WellFormedIsLive(Base64.Encode(file));
    assert forall j :: 0 <= j < |pieces| ==> Passes(ts[j]);
    assert EndsHere(ts, |pieces|);
  }

  /** The end tag is unique, so what the tokens carry is. */
  lemma CarriedText(tokens: seq<Token>, file: bytes, at: nat)
    requires Carries(tokens, file) && EndsHere(tokens, at)
    ensures Base64.Strip(TextOf(tokens, at)) == Base64.Encode(file)
  {
    var e: nat :| EndsHere(tokens, e) && Base64.Strip(TextOf(tokens, e)) == Base64.Encode(file);
  }

  /** The client side of one uncompressed BLOB: a FITSWriter as its sink. Whatever pieces the
      text came in, the answer is the batch decoder's for the file. */
  method Receive(fl: Floats, ghost file: bytes, size: nat, tokens: seq<Token>)
    returns (o: Outcome, r: Result<Frame, FitsError>)
    requires Carries(tokens, file) && size == |file| > 0
    ensures r == Streamed(fl, file)
    ensures o.ended && o.total == |file| && (r.Ok? ==> o == Outcome(true, false, |file|, 0))
  {
    hide Base64.DecodedText;
    hide Base64.Strip;
    hide Base64.Encode;
    hide FITSWriter.Valid;
    hide BlobSink.Valid;
    hide Streamed;
    var f := new FITSWriter(fl);
    var sink := new BlobSink.ForFits(f);
    var engaged, at, teed;
    o, engaged, at, teed := ReadOneBlob(BlobInfo(true, size, false), tokens, true, sink, _ => None);
    Base64.EncodeDecode(file);
    CarriedText(tokens, file, at);
    assert engaged && Judged(sink, file);
    r := f.Frame();
  }

  /** From the camera's pixels to the client's: the frame arrives exactly when both dimensions are
      positive. Pixel i is the camera's byte, or its pair read with the low byte first; where the
      camera's buffer ends early it is 0 at 8 bits and 32768 at 16. */
  method CameraToClient(fl: Floats, w: int, h: int, bits: int, pixels: bytes, tokens: seq<Token>)
    returns (r: Result<Frame, FitsError>)
    requires Int64(w) && Int64(h) && w * h >= 0
    requires Carries(tokens, Encoded(w, h, bits, pixels))
    ensures r.Ok? <==> w > 0 && h > 0
    ensures r.Ok? ==>
              && r.value.width == w && r.value.height == h && |r.value.pix| == w * h
              && r.value.bitPix == (if bits <= 8 then 8 else 16) && !r.value.bayer
    ensures r.Ok? && bits <= 8 ==>
              && (forall i: nat :: i < w * h && i < |pixels| ==> r.value.pix[i] as int == pixels[i] as int)
              && (forall i: nat :: |pixels| <= i < w * h ==> r.value.pix[i] == 0)
    ensures r.Ok? && bits > 8 ==>
              && (forall i: nat :: i < w * h && 2 * i + 1 < |pixels| ==>
                    r.value.pix[i] as int == pixels[2 * i] as int + 256 * pixels[2 * i + 1] as int)
              && (forall i: nat :: i < w * h && 2 * i + 1 >= |pixels| ==> r.value.pix[i] == 32768)
  {
    hide Carries;
    hide Decoded;
    hide DataBytes;
    var file := EncodeFITS(w, h, bits, pixels);
    var o;
    o, r := Receive(fl, file, |file|, tokens);
    FitsRoundTrip.EncodeDecode(fl, w, h, bits, pixels);
  }
}
