# Verification of the INDI client and server

A Dafny model of the parts of this INDI library whose behaviour is hard to see from one function, with
proofs of what they promise. `dafny verify dfyconfig.toml` checks all of it.

## What is modelled

**The image pipeline.** `FitsEncode` is the camera's FITS writer. `Base64` is RFC 4648 section 4, with the set
of texts the client accepts. `B64Writer` is the decoder that takes the text in whatever pieces the XML reader
delivers, `OneBlob` the token loop around it with the writer it feeds. `FitsHeader` and `FitsFrame` are the batch
FITS decoder (FITS Standard 4.0, sections 3.1, 4.1.2, 4.2.1, 4.4 and 5.2), `FitsWriter` the streaming one. `FitsReading` says in
plain numbers what a file means, cards, rows, samples and mosaic, and proves that the decoder answers just that.
`FitsRoundTrip` and `EndToEnd` connect them. Objects that the source updates in place are classes here: each
carries a ghost field with the input it has had so far, and its invariant says that its fields are what that
input makes them. The specifications are functions on byte sequences.

**The client's store and its waiters.** `ClientStore` is the store as a function of the message history,
`ClientObject` the object that keeps it (with the ring of log lines), `Waiters` the callers of `WaitRevCtx`
interleaved with the read loop.

**The server.** `Outbound` is one connection's queue with senders, writer and removers; `Hub` is any number
of goroutines broadcasting to any number of connections, where the look at a connection's policy and the enqueueing
are separate steps; `Broadcasts` says what its runs come to in terms of their events, `Stalled` that a client which
never reads changes nothing for the others; `BlobPolicy` is the enableBLOB table; `Startup` is
device registration against the start of `Serve`; `Switches` is the switch rule, up to what a client shows.

**The camera driver.** `Exposure` is start, supersede, abort and completion with one goroutine per exposure.

Concurrent parts are state machines whose steps are the source's critical sections, channel operations and
external calls. A run is any sequence of events that can happen (`Runs`), and the main results are about every
run. Critical sections that change an object's fields also appear as methods of a class whose contracts equate the
new state with the step of the machine.

`ByteText` holds the text functions of Go's standard library as exactly as the comparisons here can see them
(`strings.TrimSpace` with its UTF-8 spaces, `strconv.Atoi` with its 64-bit range), `Chunks` a sequence read in
pieces of equal size.

## Where the code and its description differ

The model follows the code.

- The description of BLOB sinks (client/blob.go:44-48) says that writers supporting CloseWithError receive transfer
  errors. Malformed base64 or a read error inside the element returns before the sink is ended, so the sink then
  sees neither CloseWithError nor Close. `OneBlob.ErrorReportedExactlyWhen` says which
  failures are reported, `OneBlob.MalformedIsNotReported` shows one that is not.
- A sink with Close and without CloseWithError is closed after a failed payload too, so Close alone does not mean a
  whole payload. `OneBlob.CloseMeansWhole` gives the exact condition, `OneBlob.TruncatedIsClosed` a case.
- The revision of a property is called monotonic where a redefinition continues it (client/client.go:310). Deleting
  the property restarts it. `Waiters.AnswerMissed` is a run in which an update answering a command is missed,
  `Waiters.AnsweredFromRecording` the exact condition for one to be seen.
- Pixels a 16-bit camera did not deliver are left as zero bytes and decode to 32768, not 0
  (ccd/ccd.go:446-447). `FitsRoundTrip.EncodeDecode` includes them.
- An exposure whose bounded wait expires can overlap the next one (ccd/ccd.go:366-380).
  `Exposure.ExpiredWaitOverlaps` is such a run and `Exposure.OrderlyExactlyWhen` the condition.
- A connection that withdraws its request for BLOBs while a payload is between the look at its policy and its queue
  still gets it (server/server.go:648-651). `Broadcasts.WithdrawnYetSent` is such a run and
  `Broadcasts.StaleExactlyWhen` the condition.

## Model

| member | source | states |
|---|---|---|
| EndToEnd.CameraToClient | ccd/ccd.go:413-456 | From camera to frame: a file made by encodeFITS, base64-encoded, cut into tokens anywhere with white space anywhere, read by readOneBlob into a FITSWriter, gives a frame exactly when both sides are positive; pixel i is then byte i of the camera at 8 bits, byte 2i plus 256 times byte 2i + 1 above, and where the buffer ends early 0 and 32768. |
| EndToEnd.Receive | client/blob.go:148-234 | For every file and every way its base64 text is delivered, the sink's verdict and frame are those of the file decoded as one stream; a good file ends without error or soft error and with the total equal to its length. |
| EndToEnd.CutAnywhere | server/xml.go:175-186 | However blanks, tabs, carriage returns and line feeds are inserted into the text of blobSetXML, and wherever it is then cut, the tokens carry the file in the sense the two results above assume. |
| EndToEnd.CarriedText | server/xml.go:175-186 | Tokens carry one file: at the end tag, the text without white space is that file's encoding. |
| FitsHeader.ScanFITSHeader | client/fits.go:196-220 | The nested block and card loops compute the card-by-card specification whose meaning HeaderMeaning states. |
| FitsHeader.HeaderMeaning | client/fits.go:196-220 | Acceptance exactly when the file begins SIMPLE and some card of a whole block is END; the data offset is the end of the block of the first END; each key is bound to the value of its last statement before it, and nothing else is bound. |
| FitsHeader.ScanHeaderOnly | client/fitsstream.go:95-118 | Header scanning is stable: any file that agrees up to the data offset has the same header and offset, so later bytes never change it and it needed none of them. |
| FitsHeader.MagicAgrees | client/fitsstream.go:184-187 | The trimmed test of the scanner and the exact test of the streaming decoder accept the same files. |
| FitsHeader.FitsCardValue | client/fits.go:224-246 | The quote loop computes the recursive reading of a card value, which the two round-trip lemmas pin down. |
| FitsHeader.StringValueRoundTrip | client/fits.go:224-246 | A string written by the FITS rules (quotes doubled) reads back as itself without trailing blanks, whatever slashes, quotes and comment surround it. |
| FitsHeader.PlainValueRoundTrip | client/fits.go:224-246 | An unquoted value reads back without its padding and without its comment. |
| FitsReading.HeaderReading | client/fits.go:196-220 | Which header a file has, read off its bytes: 80-byte cards in whole 2880-byte blocks up to the first END, each keyword bound to the value of the last card with an equals sign in column 9; NotFits without SIMPLE or a whole block, NoEnd without an END card. |
| FitsReading.CardValueMeaning | client/fits.go:224-246 | A field that begins with a quote is the text up to the next quote that is not doubled, less trailing blanks; any other is the text before the first slash, trimmed. |
| FitsReading.DecodeReading | client/fits.go:43-104 | For every file, exactly when each refusal is given (in the source's order, with the missing-rows test as a product) and otherwise the width, height, depth, number of pixels and header of the frame, in plain numbers. |
| FitsReading.PixelReading | client/fits.go:87-95 | For every accepted file, pixel (x, y) is the sample of column x in file row h - 1 - y when the trimmed, upper-cased ROWORDER is one of the three spellings of bottom-up, and in file row y when it is anything else or absent; the sample is unsigned at 8 bits, big-endian two's complement at 16 and 32, scaled, offset and rounded to the nearest of 0..65535. |
| FitsReading.MosaicReading | client/fits.go:108-134 | For every accepted file, the frame is a mosaic exactly when NAXIS is 2 and BAYERPAT is one of the four patterns, and a pixel is then red in the reported phase exactly when the file pixel it shows is red in the stated pattern, shifted by the offsets. |
| FitsReading.BottomUpIs | client/fits.go:250-262 | Which ROWORDER texts state that rows run bottom-up, and which state an order at all. |
| ByteText.TrimMeaning | client/fits.go:203-206 | Trimming takes white-space characters (the 25 of unicode.IsSpace, as UTF-8) off both ends, nothing else, and leaves none there. |
| ByteText.AtoiMeaning | client/fits.go:264-272 | The accepted integers are an optional sign and digits, with a value of 64 bits, and that is the value. |
| FitsFrame.DecodeFITS | client/fits.go:43-104 | The batch decoder, with its error order and its division test, computes the function whose answer for every file DecodeReading, PixelReading and MosaicReading state from the bytes. |
| FitsFrame.DecodeRows | client/fits.go:87-95 | The row loop, reading rows bottom-up or top-down, fills the picture; every row exactly once and in place. |
| FitsFrame.ConvertFITSRow | client/fits.go:138-170 | Converts the given samples into its stretch of the array and touches nothing else; both the fast loop and the general one. |
| FitsFrame.FastPathSample | client/fits.go:138-144 | For every 16-bit word, flipping bit 15 equals reading it as signed, adding 32768 and clamping. |
| FitsFrame.SampleByBranch | client/fits.go:138-170 | Ties the two's-complement reading of any width to the source's per-BITPIX branches, fast path included. |
| FitsFrame.ClampNearest | client/fits.go:183-192 | The clamped value is within one half of any value in range, and no 16-bit value is nearer to any real. |
| FitsFrame.ClampMonotone | client/fits.go:183-192 | Clamping keeps order. |
| FitsFrame.SampleMonotone | client/fits.go:138-170 | For positive scale, a larger stored integer never gives a smaller sample, across the fast path too. |
| FitsFrame.PictureAt | client/fits.go:87-95 | Pixel (x, y) of the frame is the sample stored at column x of the file row that the row order shows at y. |
| FitsFrame.ShortByDivision | client/fits.go:65-71 | The overflow-free test w > (len/per)/h holds exactly when fewer than h whole rows of w samples arrived. |
| FitsFrame.MosaicSurvivesFlip | client/fits.go:106-119 | For every height, offset and row order, an output pixel is on a red site of the reported phase exactly when the file pixel it shows is on a red site of the offset pattern. |
| FitsWriter.StreamDecode | client/fitsstream.go:39-182 | Any sequence of Write calls, then Close and Frame, gives the result of the concatenation alone, however it was cut. |
| FitsWriter.StreamedAgrees | client/fitsstream.go:120-121 | Streaming refines batch: for every payload the streamed result is a frame exactly when the batch decoder gives one, and it is the same frame; the refusals correspond one to one, but for a header without END, which is NotFits. |
| FitsWriter.FITSWriter.Write | client/fitsstream.go:39-80 | Write keeps the invariant that all fields are determined by the bytes fed so far; it consumes all of p, or latches the error that those bytes call for, and terminates because every turn consumes at least one byte. |
| FitsWriter.FITSWriter.Turn | client/fitsstream.go:44-78 | One pass of the loop: what is fed plus what is left is what there was, and what is left is strictly shorter. |
| FitsWriter.FITSWriter.ConsumeHeader | client/fitsstream.go:95-118 | Refuses, waits or completes exactly as the bytes so far decide; on completion the leftover is a strict suffix of this call's bytes. |
| FitsWriter.HeaderCompletes | client/fitsstream.go:95-118 | When the header completes within a call, the data bytes already in hand all come from that call. |
| FitsWriter.PhaseGrows | client/fitsstream.go:37-39 | More bytes never undo a refusal, and never change a completed header, only append data. |
| FitsWriter.FITSWriter.Size | client/fitsstream.go:122-148 | Applies the batch decoder's acceptance rules and allocates a picture and a row of exactly the planned sizes. |
| FitsWriter.FITSWriter.Convert | client/fitsstream.go:84-91 | One source row lands at its flipped place and every other row is untouched. |
| FitsWriter.FITSWriter.TakePart | client/fitsstream.go:67-77 | Bytes carried over between calls complete rows correctly: consumed data is always y rows and the held part. |
| FitsWriter.FITSWriter.RowsArrived | client/fitsstream.go:161-164 | Rows are missing exactly when fewer than h whole rows of data have been fed. |
| FitsWriter.FITSWriter.RefusedForGood | client/fitsstream.go:37-39 | A latched error is the verdict on every extension of the payload. |
| FitsWriter.FITSWriter.Close | client/fitsstream.go:151-166 | Close accepts exactly the payloads whose stream decodes and otherwise returns its error. |
| FitsWriter.FITSWriter.Frame | client/fitsstream.go:169-182 | Frame before Close is refused; after it, the frame or error of the whole payload. |
| FitsWriter.PictureIgnoresRest | client/fitsstream.go:57-59 | Padding after the last row does not change the picture. |
| FitsEncode.EncodeFITS | ccd/ccd.go:413-456 | The card, padding and pixel loops produce the file that EncodedMeaning describes byte by byte and EncodeDecode reads back. |
| FitsRoundTrip.EncodedMeaning | ccd/ccd.go:413-456 | The printed file byte by byte: keyword, value indicator and right-aligned value of each of the seven cards, END, blanks to 2880, the biased big-endian samples, zeros to a whole block. |
| FitsEncode.FillPairs | ccd/ccd.go:445-451 | The guarded pair loop writes, for every pixel, the bytes that EncodedMeaning states: the little-endian pair less 32768, high byte first, and zero bytes where the camera gave none. |
| FitsRoundTrip.EncodeDecode | ccd/ccd.go:413-456 | Printing then decoding: the file is a multiple of 2880 bytes, decodes exactly when both sides are positive, and gives back width, height, depth and every sample, stated from the camera's bytes (low byte first; 0 or 32768 where they are missing). |
| FitsRoundTrip.HeaderReads | ccd/ccd.go:428-438 | The scanner finds END in the first block of a printed header and reads back exactly the seven printed keys and values. |
| FitsRoundTrip.AssignmentReads | ccd/ccd.go:419-427 | One printed card reads back as its key and its value. |
| FitsRoundTrip.IntegerReads | client/fits.go:264-272 | Printed decimals, negative ones included, read back as the same 64-bit integer, and as the same real. |
| FitsRoundTrip.PlanReads | client/fits.go:43-63 | The printed header passes every acceptance test but the size test, which it passes exactly for positive sides. |
| FitsRoundTrip.SampleReads | ccd/ccd.go:445-451 | The bias and byte order of the writer and of the reader cancel for every sample. |
| Base64.EncodeDecode | client/blob.go:427-455 | Decoding inverts RFC 4648 section 4 encoding, and every encoding is accepted, for every byte string. |
| Base64.TextCanonical | client/blob.go:425-427 | An accepted text is the encoding of what it decodes to exactly when its last quantum leaves no unused bit set (the decoder is lenient, as section 3.5 of RFC 4648 allows). |
| Base64.QuadCanonical | client/blob.go:427-455 | The same for one quantum. |
| Base64.WellFormedIsLive | client/blob.go:313-365 | The verdict built up quantum by quantum is: whole quanta over the alphabet, padding only in the last. |
| Base64.LivePrefix | client/blob.go:196-198 | A text once malformed stays malformed whatever follows. |
| Base64.WellFormedMeaning | client/blob.go:425-447 | The accepted texts: whole quanta of the 64 characters of the alphabet, but for one or two equals signs at the very end. |
| Base64.DecodedMeaning | client/blob.go:427-455 | What an accepted text decodes to, byte by byte: three bytes a quantum less the padding, six bits for each character's place in the alphabet. |
| Base64.StripSkips | client/blob.go:320-323 | A blank, tab, carriage return or line feed anywhere in a text does not count. |
| Base64.EncodeUnspaced | client/blob.go:320-323 | Nothing else is skipped: an encoding has none of the four in it and is left as it is. |
| Base64.BuildReverse | client/blob.go:457-466 | The reverse table maps each byte to its digit, -1 for every other. |
| B64Writer.DecodeQuad | client/blob.go:427-455 | Accepts exactly the well-formed quanta and then yields their 1, 2 or 3 bytes. |
| B64Writer.QuadArithmetic | client/blob.go:451-453 | The shifts and bitwise ors of the decoder give the three bytes of the 24-bit group. |
| B64Writer.OrAdds | client/blob.go:451-453 | A bitwise or with bits a shift has made room for adds them, for every number and shift. |
| B64Writer.OrBits | client/blob.go:451-453 | A bit of the or is set exactly when it is set in one of the two. |
| B64Writer.CompletesQuad | client/blob.go:327-341 | A fourth character keeps the text alive exactly when its quantum is good, and appends exactly that quantum's bytes. |
| B64Writer.B64Writer.Write | client/blob.go:313-358 | Per call: rejects only texts that are past saving; otherwise tee and writer get exactly the newly decoded bytes, once, and a writer that fails is dropped while decoding goes on. |
| B64Writer.B64Writer.DecodeInto | client/blob.go:314-343 | Decoded bytes depend only on the concatenated text without white space; the reused buffer is never overrun. |
| B64Writer.Room | client/blob.go:315 | len/4*3+3 bytes always hold what one call decodes, even with three characters carried over. |
| B64Writer.SpoiledForGood | client/blob.go:313-347 | An error inside a call condemns the whole text of the call. |
| OneBlob.ReadOneBlob | client/blob.go:148-234 | The token loop: the sink is engaged by a declared size or by the first character that is not white space; total and tee cover every decoded byte even after a sink failure; an unfailed sink has exactly what was decoded up to the end tag, or up to the error that stopped the reading, a failed one a prefix; it is ended as the tokens, its methods and its success call for, and without a good end tag not at all; error as computed at the end tag, and a soft error for a size that is not the declared one and for a sink that failed. |
| OneBlob.CloseMeansWhole | client/blob.go:243-253 | That Close means a whole payload, over all token sequences and whether or not the sink failed, holds exactly for sinks that offer CloseWithError, or offer no Close. |
| OneBlob.TruncatedIsClosed | client/blob.go:243-253 | A FITSWriter given one character of base64 and the end tag is closed, though the text was cut short. |
| OneBlob.EndedExactlyWhen | client/blob.go:186-233 | An engaged sink is ended exactly when the end tag is reached with everything before it read without an error, and it offers the call that is then due. |
| OneBlob.ErrorReportedExactlyWhen | client/blob.go:44-48 | A sink with CloseWithError gets it exactly for the failures found at the end tag: a text cut short or a failed write. |
| OneBlob.MalformedIsNotReported | client/blob.go:196-198 | A sink with CloseWithError, engaged by the declared size, hears nothing of a text that is not base64. |
| OneBlob.EndSink | client/blob.go:226-230 | Ends the sink in the one way its success and its methods call for. |
| OneBlob.Finish | client/blob.go:203-231 | What the end tag does, from truncation and size checks to the sink's end. |
| OneBlob.StripBlank | client/blob.go:255-264 | A token has payload exactly when something is left of it without white space. |
| OneBlob.Stopped | client/blob.go:196-198 | A malformed token stops the loop before any end tag could count as good. |
| OneBlob.EndsHereMeaning | client/blob.go:186-234 | An element is read to its end tag exactly when only character data, comments and whole child elements come before it and every character of the whole quanta may stand where it stands. |
| OneBlob.TextMeaning | client/blob.go:192-201 | The text is the character data end to end; child elements and comments add nothing. |
| ClientObject.Client.ApplyDefinition | client/client.go:275-316 | Updates store, order and revision in place to the next state of the message history, and signals. |
| ClientObject.Client.ApplySetting | client/client.go:329-370 | Likewise for set messages, through the nested member loops; a message for an unknown property changes and signals nothing. |
| ClientObject.Client.ApplyBlobMeta | client/blob.go:266-297 | Likewise for BLOB sets, appending a member that is not there. |
| ClientObject.Client.ApplyDelete | client/client.go:372-386 | Likewise for deletions of a device or a property. |
| ClientObject.Client.Receive | client/client.go:141-146 | After every message the store is the replay of the history, and the channel moves on exactly when the waiters' machine says so. |
| ClientObject.Client.Look | client/client.go:448-457 | Channel, connection state and property copy read in one critical section are those of one moment. |
| ClientObject.Client.AddMessage | client/client.go:318-327 | The ring keeps the last 1000 lines after every append, before and after it wraps. |
| ClientObject.Client.Messages | client/client.go:426-433 | Returns the last 1000 lines ever received, oldest first. |
| ClientStore.AssignAllMeaning | client/client.go:346-367 | A set message gives each member the trimmed text of the last item naming it, the number of that text and whether it is the word On, keeps its name, label, format, range and size, and leaves a member no item names as it was. |
| ClientStore.DefinedMeaning | client/client.go:282-300 | What a definition makes of an item of each kind: only numbers have a number, format and range, only switches can be on, BLOBs have no text. |
| ClientStore.TagAllMeaning | client/blob.go:283-294 | A BLOB set gives each member the format and size of the last item naming it and nothing else, and appends a name that is new, once. |
| ClientStore.DefReading | client/client.go:301-315 | A definition replaces the property, with an empty message and the next revision, and no other. |
| ClientStore.SetReading | client/client.go:329-370 | A set or BLOB set of a known property takes a state and a message that are not empty, the next revision and the new members, keeps the rest, and touches no other property; of an unknown one it changes nothing. |
| ClientStore.DelReading | client/client.go:372-386 | After a deletion exactly the named property, or without a name the device's properties, are gone. |
| ClientStore.SilentIsNoChange | client/client.go:329-386 | A message that wakes nobody changed nothing. |
| ClientStore.AlwaysCoherent | client/client.go:302-314 | After every history the order list has no duplicates and lists exactly the stored devices, and every stored property has a positive revision. |
| ClientStore.OrderIsArrival | client/client.go:394-399 | Devices are listed in the order in which they last became known, across deletions. |
| ClientStore.RevCounts | client/client.go:309-312 | The revision is the number of definitions, sets and BLOB sets since the property was last unknown. |
| ClientStore.NewerMeansTouched | client/client.go:578-589 | A revision above an earlier reading means something touched the property since, even across deletions. |
| ClientStore.TouchedMeansNewer | client/client.go:309-312 | While the property is not deleted every touch raises the revision by one. |
| Waiters.NoLostWakeup | client/client.go:446-473 | In every interleaving, a waiter asleep on an open channel has seen the current property and a live connection, neither of which lets it return; an update it waits for or a dead connection always leaves it a wake-up. |
| Waiters.WokenReturns | client/client.go:446-473 | And once scheduled it returns, with the property as it is then, or reports the dead connection. |
| Waiters.AlwaysSound | client/client.go:446-473 | The invariant of all waiters over every interleaving of messages, failure, waits, wake-ups and cancellations. |
| Waiters.SystemAsRun | client/client.go:141-146 | In every run the store is the replay of the messages that came, and the connection is dead exactly when it has failed. |
| Waiters.WaiterAsRun | client/client.go:578-589 | In every run a waiter looks for what its caller asked for; a set-and-wait has recorded the revision once, before its command is sent, and after exactly the messages that had come by then. |
| Waiters.AcknowledgedByLaterUpdate | client/client.go:578-589 | A successful set-and-wait returns a snapshot with at least one update of the property after the pre-send reading, even across deletions. |
| Waiters.AnsweredExactlyWhen | client/client.go:458-460 | A wait is satisfied exactly when the property qualifies and has been touched, since it was last unknown, more often than the recorded revision. |
| Waiters.AnsweredWhileKept | client/client.go:539-541 | While nothing deletes the property: exactly when it qualifies and was touched after the recording. |
| Waiters.AnsweredFromRecording | client/client.go:578-589 | The one exact condition for a recording: while the property stayed, or came only since, any touch after the recording; if it was gone in between, more touches since it came back than the recorded revision. |
| Waiters.AnswerMissed | client/client.go:578-589 | A run in which it is missed: after the command the property is deleted and defined again in state Ok, the waiter looks, and sleeps on the open channel. |
| Waiters.DeletionCanHideTheAnswer | client/client.go:309-312 | The revisions of that run: the count restarts at the deletion (the comment there calls it monotonic). |
| Outbound.Conn.Enqueue | server/server.go:88-105 | Accepted exactly when not closed, with nothing counted or at most 32 MiB with the message, and fewer than 64 queued; full exactly when not closed and otherwise; an accepted message is appended and counted, a refused one changes nothing. |
| Outbound.QueuedMeaning | server/server.go:88-105 | The same of the step that the hub's goroutines take: the whole new state in numbers. |
| Outbound.Conn.Shut | server/server.go:301-307 | Closes the channel once however many removers race. |
| Outbound.Conn.WriteTurn | server/server.go:314-329 | One turn sends the oldest message whole, or stops at the failed write with a prefix on the wire, or ends when the closed channel is drained. |
| Outbound.EnqueueKeeps | server/server.go:88-105 | Accounting, bounds and order survive an enqueue; the budget is exceeded only by a single message. |
| Outbound.AdvanceKeeps | server/server.go:314-329 | They survive every step of the writer, interleaved anywhere. |
| Outbound.WrittenIsPrefix | server/server.go:314-329 | What the socket took is a prefix of the accepted messages in order, all of them when the writer drains the queue. |
| Hub.QueueAccounts | server/server.go:296-337 | Over every interleaving of senders, writers and removers: the byte count equals what is queued plus the message in hand, exceeds the budget only with one message counted, no send or second close hits a closed channel, and the wire has a prefix of what was accepted. |
| Hub.PutDecides | server/server.go:88-105 | After any run, an enqueueing is settled by what is queued and in hand alone: taken exactly when the connection is open, fewer than 64 are queued and those bytes are none or leave room within 32 MiB; refused exactly when it is open and there is no room, and the goroutine then removes it. |
| Hub.Reachable | server/server.go:296-337 | The invariant of the whole hub over every run: steady queues, hearings in the order of each sender, every message meant for a connection settled there or still to be offered, refusals only at connections that are closed or being removed. |
| Broadcasts.NoSilentGaps | server/server.go:581-589 | Stated from the events of the run: every broadcast taken up while an open connection that nobody is removing was listed has been settled there or is still to be offered; each settled one was enqueued after its policy admitted it, or was turned away by the settings the connection had sent when the sender looked; the queue accepted exactly the former, each once, one sender's in its order. |
| Broadcasts.HearingsExplained | server/server.go:581-589 | Every verdict has its reason in the run: the settings sent before the look at the policy, or whether the connection was closed and had room, counted in messages and bytes, at the enqueueing. |
| Broadcasts.JobsAsRun | server/server.go:351-359 | A broadcast is meant for exactly the connections listed when it was taken up, and carries its body and a newline. |
| Broadcasts.PeersAsRun | server/server.go:296-312 | In every run the connections are those that came, and the closed ones exactly those someone has removed. |
| Broadcasts.RemovalEnds | server/server.go:296-312 | A goroutine removing a connection takes it off the list and closes it in two steps that nothing can prevent, changes nothing else, and goes back to what it did. |
| Broadcasts.PolicyIsSettled | server/server.go:435-446 | In every run a connection's policy table is what its own settings, in order, make it. |
| Broadcasts.PayloadsOnlyOnRequest | server/server.go:643-653 | A BLOB payload enters a queue only if, at a step after the payload was taken up, the setting in force for that connection and property asked for BLOBs. |
| Broadcasts.StaleExactlyWhen | server/server.go:643-653 | A payload admitted and not yet enqueued is no longer wanted exactly when a setting sent in between says Never and is the one in force; with none in between it still is. |
| Broadcasts.WithdrawnYetSent | server/server.go:643-653 | For every property and payload a run in which the connection withdraws between the look at its policy and the enqueueing, and gets the payload. |
| Stalled.StalledClientChangesNothing | server/server.go:330-337 | For every run and client there is a run in which that client never takes anything off its queue, and is dropped once it is full, with every other connection's queue, wire, policy and hearings the same at the end. |
| Hub.NeverHeldUp | server/server.go:330-337 | Whatever the queues are like, a goroutine in a broadcast always has a next step and needs at most four per connection. |
| Hub.OwnTaskOnly | server/server.go:330-337 | No one else's step sets a broadcast back. |
| BlobPolicy.Subscriptions.EnableBlob | server/server.go:435-446 | A recognised mode sets its scope; an unrecognised one leaves the table alone. |
| BlobPolicy.Subscriptions.PolicyFor | server/server.go:122-131 | The loop over the three keys returns the entry of the most specific scope present, else Never. |
| BlobPolicy.LatestOfMostSpecific | server/server.go:113-131 | After any settings the policy is the latest one for the property, else for its device, else for all, else Never. |
| BlobPolicy.KeyIsPair | server/server.go:79-81 | NUL-joined keys behave as pairs when device names hold no NUL. |
| BlobPolicy.KeysCanCollide | server/server.go:79-81 | With a NUL in a device name two scopes share a key. |
| BlobPolicy.ModeMeaning | server/server.go:49-60 | Which texts are which mode, in any case and with white space around them. |
| BlobPolicy.WantsExactlyWhen | server/server.go:133-144 | Definitions of BLOB properties always pass; payloads exactly when the setting in force is Also or Only; anything else exactly when it is not Only. |
| BlobPolicy.WithdrawnExactlyWhen | server/server.go:113-144 | Later settings turn a wanted payload into an unwanted one exactly when one of them says Never and is in force. |
| Startup.StartedExactlyOnce | server/server.go:187-241 | For every interleaving of additions with one successful Serve: names unique, nothing started twice, only registered Starters started, and all of them exactly once when Serve is through its list. |
| Startup.Server.AddDevice | server/server.go:187-201 | Accepted exactly when the name is new, and then appended; started at once exactly when Serve has published and it is a Starter. |
| Startup.RegisteredAreFirst | server/server.go:187-201 | In every run the registered devices are exactly those that were the first to be offered under their names. |
| Startup.Server.Publish | server/server.go:223-229 | Publishing the context and taking the list is one step, leaving exactly the devices registered before it to Serve. |
| Startup.Server.StartAll | server/server.go:235-239 | The loop starts the Starters of its list, in order. |
| Exposure.OneExposureAtATime | ccd/ccd.go:309-398 | In every run whose bounded waits do not expire: at most one awaitFrame is before its clearExposing, the camera is told to abort or start only when none is, and clearExposing finds its own handles or none. |
| Exposure.OrderlyExactlyWhen | ccd/ccd.go:366-384 | With expired waits: this holds at every moment of a run exactly when no wait was given up on an exposure still before its clearExposing. |
| Exposure.OverlapFollows | ccd/ccd.go:366-384 | After every such expiry, in a start or a stop, there is a way on without further expiry to two exposures before their clearExposing at once. |
| Exposure.ExpiredWaitOverlaps | ccd/ccd.go:366-384 | A concrete run with an expired wait in which two uncancelled exposures poll the camera. |
| Exposure.AlwaysPaired | ccd/ccd.go:325-329 | The three handles are set and cleared together in every run. |
| Exposure.AbortsWhatItStarted | ccd/ccd.go:381-383 | In every run an abort call directly follows a successful start. |
| Exposure.CallsAsRun | ccd/ccd.go:309-384 | In every run the camera gets exactly these calls: a start for each StartExposure that succeeds, and an abort for exactly the stops that found an exposure set and have a camera, all read off the events. |
| Exposure.StopCanFinish | ccd/ccd.go:366-384 | The exposure a stop waits for is cancelled and returns by at most four steps of its own, without a call to start or abort, and then the stop goes on. |
| Exposure.CommandsAsRun | ccd/ccd.go:309-384 | In every run the next command is taken exactly when none is under way: until its exposure is installed, its start fails, or its stop is through; and there are as many exposures as were installed. |
| Exposure.Device.TakeHandles | ccd/ccd.go:367-371 | The critical section of a stop hands over all three handles and leaves none. |
| Exposure.Device.SetHandles | ccd/ccd.go:325-329 | The critical section of a start sets all three for one exposure. |
| Exposure.Device.ClearExposing | ccd/ccd.go:395-399 | And clearExposing leaves none. |
| Switches.SwitchVector.SetSwitch | server/property.go:182-205 | The member loops compute the specified switches. |
| Switches.RuleKept | server/property.go:179-205 | A rule that holds survives any call; the call is for the first switch of that name, and every switch is afterwards what it asks for, unless that would leave a OneOfMany vector with none On. |
| Switches.RuleKeptThroughout | server/property.go:179-205 | So does it over any sequence of calls, at every snapshot taken or sent. |
| Switches.SwitchVector.Snapshot | server/property.go:226-236 | Copies every member, in order. |
| Switches.ShowsLastSent | server/xml.go:188-201 | With snapshots taken under the lock and sent later by any number of goroutines: a client that has the definition shows exactly the snapshot sent last, whatever it knew before. |
| Switches.DefinitionShows | server/xml.go:139-144 | Defining shows the snapshot field by field: state and rule by name, label, group and permission, and every switch with its label and On or Off. |
| Switches.SettingShows | client/client.go:329-370 | A set message brings a copy with the same, distinct, member names up to date. |
| Switches.ClientSeesTheRule | server/xml.go:139-201 | At every moment, however much has been delivered and in whatever order snapshots were sent, a client with the definition shows a state the vector was in, and never one that breaks the rule. |

## Left out

- FitsWriter.FITSWriter.Size: integers are unbounded, so the wrap-around of w*h and the allocation failure of a huge frame before any data has arrived are not modelled; it assumes w*h and w*per are representable.
- FitsEncode.EncodeFITS: requires w*h to be non-negative, where the source would panic in make; the product is unbounded.
- FitsFrame.SampleByBranch: the samples of BITPIX -32 and -64 are one unspecified function of their bytes.
- FitsFrame.ClampNearest: stated over exact reals; float64 rounding of the sum is not modelled.
- FitsFrame.ConvertFITSRow: BITPIX 8, 16 and 32 use exact real arithmetic; float64 rounding, NaN and infinities are not modelled, and BITPIX -32 and -64 go through one unspecified sample function.
- FitsRoundTrip.IntegerReads: parsing of real header values is a parameter constrained only on integers of at most 2^53.
- OneBlob.ReadOneBlob: whether and to what size a compressed payload inflates is a parameter; the inflating goroutine and its pipe are not modelled. A write to a sink other than FITSWriter fails as a function of what it has been given.
- ClientObject.Client.ApplyDefinition: properties are values, so the sharing of a *Property between the store and a caller is not modelled; ParseNumber is a parameter.
- Waiters.AlwaysSound: a predicate given to a wait is a pure function; it is not modelled that it may block or panic. Deadline and cancellation are one event.
- Broadcasts.NoSilentGaps: connections are dropped by any goroutine at any time, which covers the read loop and the failed writer; a connection that has refused a message and is still being removed may accept later ones, so the statement excludes it.
- Startup.Server.StartAll: shows the loop with no AddDevice in between; the interleavings are the machine's.
- Exposure.OneExposureAtATime: commands are serialised, as by one read loop; the stale Ok a finishing exposure may publish after a new one has started is not ruled out.
- Startup.StartedExactlyOnce: one Serve that listens; a second successful Serve would start everything again.
- Switches.ClientSeesTheRule: a goroutine that takes a second snapshot forgets the first; XML marshalling and parsing carry texts unchanged; members are distinct objects, and the client part assumes distinct member names.
- XML tokenising and marshalling in general, sockets, deadlines, accept back-off, tickers and clocks.
- The polling waits WaitCtx and WaitDevicesCtx, which hold no state between polls.
- dispatchNew's validation of client values, guide pulses, camera settings, mount/mount.go, the conformance checker, the standard property constructors, logging and message texts.
