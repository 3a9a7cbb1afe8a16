# Verification of the transfers of the Newth HTTP tools

This project models, in Dafny, how one HTTP response travels through the Newth tools, from `th` to `dl`: the server's
non-blocking sender, the chunked transfer coding on both ends, the client's receive buffer, and the
percent and URI codecs that they use. `dafny verify dfyconfig.toml` checks all of it.

## What is modelled

**The server's sender.** A socket is the sequence of bytes it has accepted (its *wire*) and a script of
answers: the k-th `send` takes any number of bytes, asks to try again, or fails. Theorems hold for every
script, so for every behaviour of `send`. Wire and script are those of one send buffer: what was on the
socket when it was made and what it has put there since. Several routines may have buffers on one socket;
`KeepAlive.dfy` puts together what its client then receives. `SendBuffer.dfy` has the outgoing buffer,
first as a function on values and then as a class that refines it. `Routine.dfy` is the state machine of one
routine (a file, a directory page, or nothing but a buffer), `Tick.dfy` one pass of `RoutineTick` over the array and every
run made of ticks, select steps, arrivals on any socket, answers without a routine, and hang-ups,
`RoutineArray.dfy` the same with state bits, an
array shifted in place and the write set of select. `Deferral.dfy` is about slow clients: who waits for
select, until when, and what becomes of the response. `Progress.dfy`, `Isolation.dfy` and `Provenance.dfy`
prove termination, independence of the routines, and where a routine in a run comes from. `Server.dfy`
parses the range, writes the header, byte by byte where it depends on request or file size, and hands the
file over.

**The chunked coding** (section 7.1 of RFC 9112, without extensions and trailers). `ChunkDecoder.dfy` is
one byte-at-a-time reference decoder, `After` for its state and `Out` for its payload. The server's
encoder (`ChunkWriter.dfy`) is its inverse (`RoundTrip.dfy`), and the client's three incremental decoders
refine it: from a socket with `MSG_PEEK` (`RecvBuffer.dfy`), from bytes already buffered when the mode
switches (`ModeSwitch.dfy`), and in place in a caller's array (`ChunkStrip.dfy`). "In step with the
reference decoder" is the predicate `Reads`: what was consumed takes the reference decoder to the state
that the C fields encode, and what was delivered is what it puts out.

**The rest of the receive buffer.** `HeaderSplit.dfy`: appending in every length mode, the sliding-window
token search over what the reader delivers, and the split between header and body.

**Codecs.** `Percent.dfy` (section 2.1 of RFC 3986, in place on an array of bytes), `Uri.dfy` (section 3
of RFC 3986), `Decimals.dfy`. `Memory.dfy` has C strings in a fixed buffer and `memmove`, `Bytes.dfy` the
string functions of the C library.

SB_DATA_SIZE differs between platforms; here it is an arbitrary positive constant. Nothing in the sender
depends on its value; how far a search for a token reaches does, and `HeaderSplit.Reach` says how.

## What turned out not to hold

- The order of responses on one connection. A request is read while the routine of an earlier one is still in
  the array, and its header goes to `send` directly, in front of what the other routine has queued or not yet
  read (`KeepAlive.Interleaved` is a run in which the client receives "ACB" for "AB" and "C"). Order survives a
  new response if and only if every other routine on the socket is spent: nothing queued and nothing left to
  send (`KeepAlive.ArrivalInOrder`, `KeepAlive.FollowsWhole`). With such arrivals every run keeps the order
  (`KeepAlive.EveryClientReceives`). What one buffer sends is in order in any run.
- "There should never be any duplicates in the array" (src/server/routine.c:193): with two routines on one
  socket a hang-up deletes the first and leaves the second (`Ticks.WithoutKeeps`).
- The mode switch loses the end of the body when it reads the last chunk's size line: the loop stops with
  `next` 0, nothing ever sets COMPLETE, and no later append completes (`ModeSwitch.MissedIsStuck`). It does so
  when that line ends the buffer, and when it has to be pulled in from the socket.
  `ModeSwitch.ParseExistingBuffer` proves for the cuts it covers that the reader is in step in all other cases
  and only in those; `ModeSwitch.ShortLastChunkIsMissed` and `ModeSwitch.ShortLastChunkIsStuck` give an input.
  When the closing line end is buffered as well, which is how a short response arrives together with its
  header, and nothing more is on the socket, the whole payload is cleared and the connection closed, unless
  there is no payload (`ModeSwitch.ShortBodyIsClosed` gives an input).
- `ioHttpBodyChunkStrip` leaves exactly the payload of a whole body if and only if the body ends with the
  three bytes "0 CR LF" (`ChunkStrip.StripWhole`). Section 7.1 of RFC 9112 ends it with one more line end, and
  so does the server: then the line end of the last chunk with data stays behind the payload
  (`ChunkStrip.ClosingLineStays`, `RoundTrip.StrippedServerBody`).
- An append in the chunk mode reports no error at the end of a body that is cut short (`HeaderSplit.Append`),
  so a search loop never ends there unless it has found the token. That is why a search of a chunked body asks
  for a whole one or for the token in what is there, and for a kernel that again and again shows all there is.
- A blank line at the very start of the stream is not taken for a header when its four bytes arrive on their
  own: the reader notes that the transmission is complete, and then asks for more (`HeaderSplit.HeaderRead`,
  `HeaderSplit.FindAndFetch`, which say exactly when for a kernel that shows all there is).
- `convertPathToUrl` prints one hex digit for bytes below 0x10, which the decoder cannot read back.
  `Percent.EscapeRoundTrip` proves that the round trip holds exactly on the other paths.
- An empty text written as a chunk is the last chunk: `RoundTrip.EncodeDecode` says exactly when that
  loses something.
- A range that starts behind where it ends makes the server announce a negative length
  (`Servers.NegativeLength`).
- A suffix range asks for the last bytes of the file (section 14.1.2 of RFC 9110) and gets the first ones
  (`Servers.SuffixReads`).
- A Content-Range (section 14.4 of RFC 9110) agrees with the Content-Length beside it if and only if the part
  goes to the end of the file. A range that ends before is delivered without its last byte, which the positions
  printed include (`Servers.ContentRangeAgrees`).
- `uriDetailsGetScheme` falls through its cases and takes "FIPS" for FTPS and "FTTP" for HTTP
  (`Uri.SchemeNames`).
- A directory page is cut short, without footer and last chunk, if ten entries that share a batch are all left
  out because their paths do not fit, and only then (`Routines.DirectoryDelivers`).
- Deleting a routine makes `RoutineTick` skip the next one in that tick, and nothing else does
  (`Isolation.TickKeepsOrder`).

## Model

| member | source | states |
|---|---|---|
| `SendBuffers.FlushKeeps` | src/server/sendbufr.c:17-63 | a flush moves a front part of the queue onto the wire, in order, and reports exactly how much, or 0 if it failed hard or was told to try again at once; it never grows the queue, and goes on until nothing is queued or a send did not take a whole block |
| `SendBuffers.WriteKeeps` | src/server/sendbufr.c:65-105 | a write accepts all of its data behind what was accepted before, or fails hard before taking any; with nothing queued it is exactly one send, and with something queued none |
| `SendBuffers.FlushBlocks` | src/server/sendbufr.c:27-62 | on a socket that takes whole blocks a flush sends the queue in as many blocks as it is, and empties it |
| `SendBuffers.FlushCursor` | src/server/sendbufr.c:35-61 | a flush that stops leaves the stream's cursor at the first unsent byte after a short send, and behind the refused block otherwise |
| `SendBuffers.Conservation` | src/server/sendbufr.c:17-105 | over every sequence of writes and flushes, failed sends included, wire and queue are the concatenation of the prefixes the writes reported; a buffer exists exactly when bytes are unsent, and without one the index is 0 |
| `SendBuffers.ErrorsAre` | src/server/sendbufr.h:9 | the error bits in numbers |
| `SendBuffers.SendBuffer.constructor` | src/server/sendbufr.c:11-15 | a new buffer is empty, has no error and has touched nothing |
| `SendBuffers.SendBuffer.SendBlock` | src/server/sendbufr.c:27-61 | one pass of the loop: a block from the cursor is offered, and a short send puts the cursor back |
| `SendBuffers.SendBuffer.FlushPass` | src/server/sendbufr.c:27-62 | one turn of the loop either is the last, with the result of the flush on values, or brings the loop nearer to it |
| `SendBuffers.SendBuffer.Flush` | src/server/sendbufr.c:17-63 | the imperative loop refines the flush on values: new state and result |
| `SendBuffers.SendBuffer.WriteData` | src/server/sendbufr.c:65-105 | the imperative write refines the write on values: new state and result |
| `ChunkWriter.ChunkKeeps` | src/server/http.c:417-428 | a chunk goes out whole and in order, unless one of its three writes failed hard |
| `ChunkWriter.EndingKeeps` | src/server/http.c:430-435 | the last chunk is accepted whole behind everything else, unless its write failed |
| `ChunkWriter.CodingIs` | src/server/http.c:417-435 | a chunk is its length in hex, CR LF, the text, CR LF, and the last chunk "0" and two line ends, in literal bytes |
| `ChunkWriter.HexPrints` | src/server/http.c:420 | each digit is printed as its place in "0123456789abcdef" |
| `Decimals.DigitsPrint` | src/server/http.c:265-266 | each digit of a printed number is its place in "0123456789" |
| `ChunkWriter.BodyWriteChunk` | src/server/http.c:417-428 | the three writes on the buffer object refine the chunk on values, with the sum of their results |
| `ChunkWriter.BodyWriteChunkEnding` | src/server/http.c:430-435 | writing the last chunk and flushing refines the ending on values, with 0 for a failed write and otherwise the flush's result |
| `Routines.FileContinueKeeps` | src/server/routine.c:118-141 | a step reads a block, or what is left of the range or of the file, and the cursor moves by exactly what the send buffer accepted, all or nothing, so header and file[start..cursor] stay what was accepted; 0 without a failure means the end of the range or of the file |
| `Routines.StepFileKeeps` | src/server/routine.c:274-303 | a step of a file routine keeps its invariant: order of bytes, two blocks at most once the header is gone, DEFER only with unsent bytes, always marked, and after a read exactly if more than a block is queued, FINISH only with nothing unsent; it is deleted only in FAIL |
| `Routines.StepFlushKeeps` | src/server/routine.c:237-268 | the DEFER and FLUSH cases keep every routine's invariant and never delete |
| `Routines.WhenFlushFails` | src/server/routine.c:237-268 | when a step in FLUSH or in an unmarked DEFER goes to FAIL, to FLUSH and to CONTINUE, by what its sends answer; a marked DEFER is left alone |
| `Routines.DirBatchKeeps` | src/server/routine.c:9-83 | whatever the batch, a directory routine has accepted whole items in directory order, and at the end the footer and the last chunk |
| `Routines.StepDirKeeps` | src/server/routine.c:305-316 | a step of a directory routine keeps that invariant until it is deleted |
| `Routines.BatchTakes` | src/server/routine.c:15-53 | a batch runs off the end exactly if fewer than ten entries are left that are not hidden; otherwise it takes ten, and reports zero bytes, which deletes the routine, exactly if none of them is listed |
| `Routines.DirectoryDelivers` | src/server/routine.c:9-83 | a directory routine that goes away without a failed send has handed over the complete page tail, one item per listed entry, footer, last chunk, if and only if no ten entries that share a batch are all left out; otherwise items only. All of it is on the wire if the socket takes whole blocks, and it was flushed up to a send that did not take one if not |
| `Routines.CutShortIs` | src/server/routine.c:15-53 | the batches of a listing are its shown entries in groups of ten from the first one on |
| `Routines.PageEnds` | src/server/routine.c:55-66 | the closing text in literals: list end, then footer, with the word for an empty directory in front exactly if no entry is listed |
| `Routines.StepKeeps` | src/server/routine.c:236-324 | every step of every kind of routine, whatever is marked, keeps its invariant, its socket, its work and its wire so far; a mark is left on a deferred routine, or was there before and is another's; and a step that leaves a routine in DEFER leaves it marked, for it has just gone there, or was marked and has not moved |
| `Routines.FileDelivers` | src/server/routine.c:118-141 | FINISH means that the routine's wire is exactly the header and file[start..end], with nothing pending |
| `Routines.PlainDelivers` | src/server/routine.c:259-272 | and for a routine without a body that it is exactly the header |
| `Ticks.TickKeeps` | src/server/routine.c:228-328 | a tick keeps all routines sound, whatever sockets they share, leaves new marks only where a routine is deferred, does not touch marks of other sockets, and keeps sockets distinct that are |
| `Ticks.WithoutAt` | src/server/routine.c:183-196 | deleting by socket takes out exactly the first routine on it |
| `Ticks.WithoutKeeps` | src/server/routine.c:183-196 | the routines on every other socket stay, in order; of those on this socket the first goes, so the socket is free of routines exactly if it had at most one |
| `Ticks.ApplyKeeps` | src/server/mltiplex/select.c:86-126 | ticks, select clearing marks, arrivals on any socket, answers without a routine and hang-ups each keep the invariant of the server: sound routines, and marks only on sockets that some routine waits for |
| `Ticks.EveryRunIsSound` | src/server/mltiplex/select.c:86-126 | so it holds at every boundary of every run |
| `Ticks.EveryFileRoutine` | src/server/routine.c:118-141 | in any run from an idle server: wire and queue of a file routine's buffer are its header and file[start..cursor], its queue is bounded by two blocks once the header has drained, and FINISH means full delivery |
| `Ticks.EveryPlainRoutine` | src/server/routine.c:259-272 | in any such run wire and queue of a routine without a body are its header, all on the wire in FINISH |
| `Ticks.EveryDirectoryRoutine` | src/server/routine.c:9-83 | in any such run a directory routine has accepted its header and whole items only, unless a send failed |
| `Ticks.EveryDirectoryPage` | src/server/routine.c:305-316 | and a directory routine that goes away in any such run without a failed send has handed over its complete page if and only if its listing is not cut short; it is on the wire if the socket takes whole blocks |
| `Deferral.TickMarks` | src/server/routine.c:274-303 | a routine alone on its socket that a tick takes to DEFER has its socket in the write set after that tick |
| `Deferral.WaitsForReady` | src/server/routine.c:237-241 | from then on it is not stepped, flushed or unmarked in any run, until select finds its socket writable, another routine arrives there or the client hangs up |
| `Deferral.ReadyWakes` | src/server/mltiplex/select.c:124-125 | once select has found the socket writable the routine is unmarked, and the next tick takes it out of DEFER, or passes over it behind a deletion |
| `Deferral.DeferEnds` | src/server/routine.c:242-256 | a deferred routine without a mark goes to FLUSH if its next send takes a byte, and to FAIL, with nothing sent, if it is told to try again |
| `Deferral.StepStaysWell` | src/server/routine.c:236-324 | if no send breaks and an unmarked DEFER finds that its send takes a byte, a step keeps a routine from failing, or deletes it because it has delivered; FLUSH with something queued stays FLUSH, however often it is told to try again |
| `Deferral.NeverFails` | src/server/mltiplex/select.c:86-126 | so in any run from an idle server in which no send on a socket breaks and select finds it writable only when it takes a byte, no routine there fails, whatever other sockets do |
| `Progress.StepFalls` | src/server/routine.c:228-328 | with sends that take at least a byte, each step lowers a routine's measure or deletes it, unless it is deferred and marked |
| `Progress.TickFalls` | src/server/routine.c:228-328 | a tick never raises the sum of the measures, and lowers it unless the first routine is deferred and marked |
| `Progress.RunsDry` | src/server/routine.c:228-328 | repeated ticks with marks cleared in between empty any array of file, directory and plain routines within a stated number of ticks |
| `Progress.EveryResponseArrives` | src/server/routine.c:228-328 | and before that each routine whose sends have not failed has delivered: header and file on its wire in FINISH, or the whole page accepted if its listing is not cut short |
| `Progress.TickBringsNearer` | src/server/routine.c:228-328 | a tick brings a routine whose own sends take something nearer to its end, by a step or by a deletion in front of it, whatever the others do, if it has its socket to itself and that is unmarked |
| `Progress.NoStarvation` | src/server/mltiplex/select.c:86-126 | so in any run, with arrivals, failures and hang-ups on other sockets, such a routine has delivered after a stated number of ticks |
| `Isolation.TickIsolates` | src/server/routine.c:228-328 | one tick steps each routine at most once; the outcome, the wire and the mark of each that shares its socket with no other depend on nothing but its own state and mark |
| `Isolation.TickKeepsOrder` | src/server/routine.c:165-211 | whatever sockets they share, the routines that stay keep their order, and one is passed over if and only if the one in front of it is deleted, which its own state decides |
| `Provenance.TickDescends` | src/server/routine.c:228-328 | every routine that a tick leaves is a later state of one that was there before |
| `Provenance.EveryRoutineDescends` | src/server/mltiplex/select.c:86-126 | in every run each routine is a later state, on the same socket and with the same work, of one that was there at the start or arrived since |
| `KeepAlive.SpentIsWhole` | src/server/routine.c:259-303 | a routine that has not failed has nothing queued and nothing left to send if and only if its whole response is on the wire |
| `KeepAlive.FollowsWhole` | src/server/sendbufr.c:65-105 | exactly then every response that follows it on its socket stands behind the whole of it |
| `KeepAlive.TickInOrder` | src/server/routine.c:228-328 | a tick keeps the order on each socket: only the last routine on it sends, and that one sees all that is there |
| `KeepAlive.ArrivalInOrder` | src/server/server.c:104 | an arrival that has put a byte on its socket keeps that order if and only if all other routines on it are spent |
| `KeepAlive.AnswerInOrder` | src/server/server.c:100-101 | and so does a response that is sent without a routine |
| `KeepAlive.EveryRunInOrder` | src/server/mltiplex/select.c:86-126 | so it holds in every run in which the responses on the socket take turns, and what the client has received only grows |
| `KeepAlive.EveryClientReceives` | src/server/http.h:15-20 | keep-alive: in such a run from an idle server what a routine's buffer has on its wire is a front part of what the client receives from then on, and all of it so far while the routine has something left to send |
| `KeepAlive.EveryAnswerIsReceived` | src/server/server.c:100-101 | in such a run the bytes of a response without a routine are received in one piece, right behind what was there |
| `KeepAlive.AnnouncedIsReceived` | src/server/server.c:65-106 | so, if the responses on its socket take turns, the client of every file response that reaches FINISH has received it in one piece: its header, and exactly as many bytes as the number in it says |
| `KeepAlive.Interleaved` | src/server/routine.c:147-163 | a run in which a response does not wait, and the client receives it inside the one before |
| `RoutineArrays.OneOfEach` | src/server/routine.h:8-17 | a state word has one TYPE bit and one STATE bit exactly when some kind and some phase make it |
| `RoutineArrays.BitsAre` | src/server/routine.h:8-17 | the words in numbers |
| `RoutineArrays.WriteSet.Add` | src/server/mltiplex/select.c:60-63 | marks one socket and no other |
| `RoutineArrays.WriteSet.Remove` | src/server/mltiplex/select.c:65-67 | unmarks one socket and no other |
| `RoutineArrays.Routine.constructor` | src/server/routine.c:105-116 | a new routine is in FLUSH, at the start of its work, and remembers what the buffer had accepted |
| `RoutineArrays.Routine.FileRoutineContinue` | src/server/routine.c:118-141 | reading a block, writing it and rewinding the file refines the step on values |
| `RoutineArrays.Routine.DirectoryRoutineContinue` | src/server/routine.c:9-83 | the loop over ten entries refines the batch on values |
| `RoutineArrays.Routine.TickDefer` | src/server/routine.c:237-257 | the bit operations of the DEFER cases refine the step on values |
| `RoutineArrays.Routine.TickFlush` | src/server/routine.c:259-268 | the bit operations of the FLUSH cases refine the step on values |
| `RoutineArrays.Routine.TickFile` | src/server/routine.c:274-303 | the CONTINUE case of a file, with its fall through to deletion, refines the step on values |
| `RoutineArrays.Routine.Tick` | src/server/routine.c:236-324 | the whole switch refines the step on values; its own socket's mark is the only one that changes, and the state word keeps one TYPE and one STATE bit |
| `RoutineArrays.RoutineArray.Add` | src/server/routine.c:147-163 | one routine is added at the end, and all others stay as they are |
| `RoutineArrays.RoutineArray.DelIdx` | src/server/routine.c:165-181 | the in-place shift takes out one slot and keeps the order of the rest |
| `RoutineArrays.RoutineArray.Del` | src/server/routine.c:198-211 | deleting a routine by its address takes out its slot, and no other routine changes |
| `RoutineArrays.RoutineArray.DelSocket` | src/server/routine.c:183-196 | deleting by socket refines the deletion on values |
| `RoutineArrays.RoutineArray.TickSlot` | src/server/routine.c:233-324 | one pass of the loop steps the routine in its slot and changes no other |
| `RoutineArrays.RoutineArray.TickRound` | src/server/routine.c:232-327 | one round of the loop, deletion included, leaves what is left of the tick on values |
| `RoutineArrays.RoutineArray.RoutineTick` | src/server/routine.c:228-328 | the loop that deletes while it runs over the array refines the tick on values, array and write set |
| `Servers.DataClamp` | src/server/http.c:135-164 | the loop over blanks and colons finds the value of the field up to the end of its line |
| `Servers.HeaderReadRange` | src/server/http.c:194-234 | the range as the request's text determines it, or a failure that leaves both numbers alone |
| `Servers.NoRange` | src/server/http.c:194-234 | a value is no range exactly if it is longer than 126 bytes, or has no `bytes=` or no dash in it |
| `Servers.ValueCuts` | src/server/http.c:213-232 | any other value is cut at its first `=` and its first dash, in whichever order they come, and gives the two numbers of its parts, with the size of the file for a second one of 0 |
| `Servers.SuffixReads` | src/server/http.c:213-232 | `bytes=-b` is a range from the start of the file up to b |
| `Servers.FieldReads` | src/server/http.c:135-164 | the value of a field, behind any number of blanks, tabs and colons, up to its line end |
| `Servers.FieldEmpty` | src/server/http.c:135-164 | it is empty if there is nothing in front of the line end, or no line end at all |
| `Servers.AtolIs` | src/server/http.c:224-227 | a number is read behind white space and a sign, as far as its digits go |
| `Servers.RangeReads` | src/server/http.c:194-234 | the first `Range` in a request, behind any number of blanks, tabs and colons: `bytes=a-b` or `bytes=a-`, of at most 126 bytes, is read as a and b, or as a and the size of the file, whatever comes before and behind it |
| `Servers.NoRangeAsked` | src/server/http.c:194-234 | a request without `Range` in it has no range |
| `Servers.ClientGetsItsRange` | src/server/server.c:88-104 | the part that is announced and delivered for such a range is the one the client asked for, cut at the end of the file |
| `Servers.ClientGetsItAll` | src/server/server.c:86-104 | and for a request without a range the part is the whole file |
| `Servers.NegativeLength` | src/server/server.c:90-97 | a client's range is announced with a negative length if and only if it starts behind where it ends |
| `Servers.PrintedIs` | src/server/http.c:265-266 | a printed number is its digits in decimal, with a dash in front if it is negative |
| `Servers.HeaderReads` | src/server/server.c:74-99 | the header in bytes: it starts with the status that goes with the request, has in a line of its own "Content-Length: " and then digits whose value is the announced length, and ends with an empty line |
| `Servers.ContentRangeAgrees` | src/server/http.c:243-247 | the positions printed as a Content-Range are as many bytes as announced if and only if the part goes to the end of the file, and one more otherwise |
| `Servers.WriteHead` | src/server/server.c:75-99 | the texts of the header go to the send buffer in order, with the clamped range announced, and the same range is returned for the routine; Servers.HeaderReads says what these texts are in bytes |
| `Servers.HandleFile` | src/server/server.c:65-106 | on any descriptor: no file, no change; HEAD writes the header only; otherwise a routine for the clamped range joins the array with the header as what was accepted before it |
| `Servers.HandOver` | src/server/server.c:104 | a new file routine joins the array behind the others |
| `Servers.HeadAccepted` | src/server/server.c:88-99 | a header of which no write failed was accepted whole and in order |
| `Servers.AnnouncedIsDelivered` | src/server/server.c:65-106 | in every run, whatever fails in it, a file routine that comes from handleFile and reaches FINISH is a later state of one handed over for the same file with no failed write in its header, and its sends have put on its socket that one's header and behind it the announced part of the file; the number that the header on the wire has behind "Content-Length: " is the number of bytes behind the header's empty line |
| `ChunkDecoder.SizeLineRead` | src/client/recvbufr.c:136-172 | the reference decoder reads a line of hex digits as the number they spell, and 0 as the end |
| `ChunkDecoder.DigitIs` | src/client/io.c:178-191 | a hex digit is worth its place in "0123456789abcdef", in either case, and nothing else is one |
| `ChunkDecoder.EverySchedule` | src/client/recvbufr.c:90-183 | however many appends it takes and whatever the peeks show, what is delivered is a front part of the payload, and all of it once the reader is complete |
| `RoundTrip.HexReads` | src/server/http.c:420 | a length printed in hex is read back as that length |
| `RoundTrip.EitherCaseReads` | src/client/io.c:178-191 | and so is the same line with any of its letters in the other case |
| `RoundTrip.HexGetStringLength` | src/common/hex.c:26-36 | the loop counts exactly the digits that printing takes, also for 0 |
| `RoundTrip.ChunkDecodes` | src/server/http.c:417-428 | one nonempty chunk is decoded to its text, and the decoder is back where it was |
| `RoundTrip.EncodeDecode` | src/server/http.c:417-435 | any body of chunks decodes to the concatenation of its texts, whatever the chunk boundaries, if and only if no text follows an empty chunk |
| `RoundTrip.BodyArrives` | src/server/http.c:417-435 | end to end through the send buffer: what is accepted for a body of nonempty chunks decodes to the body, whatever `send` does short of failing |
| `RoundTrip.BodyReachesClient` | src/client/recvbufr.c:90-183 | from server to client: what the send buffer accepts for a body is delivered by any schedule of appends as a front part of the body, and whole on completion |
| `RoundTrip.StrippedServerBody` | src/client/io.c:193-255 | the in-place strip of a body as the server writes it leaves the payload and one line end |
| `RoundTrip.DirTailDecodes` | src/server/routine.c:9-83 | a whole directory page decodes to its items in order and the footer |
| `RecvBuffers.HexToSize` | src/client/io.c:178-191 | the bit tricks give the value of the hex digits in a `size_t`, and anything else is refused |
| `RecvBuffers.RecvBuffer.constructor` | src/client/recvbufr.c:410-416 | a new buffer holds nothing and is in the unknown-length mode |
| `RecvBuffers.RecvBuffer.Receive` | src/client/recvbufr.c:41-53 | received bytes go to the end of the buffer, in order, as many as the kernel shows |
| `RecvBuffers.RecvBuffer.CopyData` | src/client/recvbufr.c:97-130 | copying chunk data stays in step with the reference decoder and takes no byte of the next size line |
| `RecvBuffers.RecvBuffer.FindSizeLine` | src/client/recvbufr.c:136-165 | a peek of 19 bytes takes what stands between its first two line ends, or in front of the first one, whatever the stream is; that is the size line of a good stream, unless the peek cut it short, and nothing is consumed |
| `RecvBuffers.RecvBuffer.ParseSizeLine` | src/client/recvbufr.c:136-177 | parsing a size line stays in step with the reference decoder; COMPLETE leaves the socket just behind "0 CR LF" |
| `RecvBuffers.RecvBuffer.ReadChunk` | src/client/recvbufr.c:97-177 | one size line and the data behind it, in step with the reference decoder; if nothing is taken, the kernel was asked once and showed too little |
| `RecvBuffers.RecvBuffer.AppendChunk` | src/client/recvbufr.c:90-183 | at most `len` bytes of payload are appended, in step with the reference decoder on every stream that is not bad and for every behaviour of `recv`, also on errors; COMPLETE exactly at the end; with a willing kernel and the whole body there, exactly the next `len` bytes |
| `ModeSwitch.PullLine` | src/client/recvbufr.c:599-613 | the pull takes from the socket exactly what ends with the first line end in view, or nothing |
| `ModeSwitch.Abandon` | src/client/recvbufr.c:622-625 | giving up clears the buffer, closes the socket and forgets the length |
| `ModeSwitch.ParsePass` | src/client/recvbufr.c:581-617 | one pass of the loop cuts a size line out, pulls one in, or gives up, and keeps the loop's invariant |
| `ModeSwitch.ParseExistingBuffer` | src/client/recvbufr.c:577-626 | the loop ends; it gives up only if a peek showed no line end, or leaves exactly the decoded front of the payload and what the current chunk still owes; it is in step with the reference decoder unless the last chunk's size line ends the buffer or is pulled in; with the closing line end buffered and none on the socket it gives up if and only if there is a payload |
| `ModeSwitch.SetLengthChunk` | src/client/recvbufr.c:628-636 | switching the mode with an empty buffer starts at the first size line, and otherwise as above |
| `ModeSwitch.SwitchedBodyArrives` | src/client/recvbufr.c:577-636 | from an in-step switch on, every schedule of appends that completes has delivered the whole payload, buffered bytes included |
| `ModeSwitch.MissedIsStuck` | src/client/recvbufr.c:619 | from any other switch on the payload is whole and no schedule of appends ever completes |
| `ModeSwitch.ShortLastChunkIsMissed` | src/client/recvbufr.c:599-613 | a concrete cut of a good stream for which the last size line is pulled in |
| `ModeSwitch.ShortLastChunkIsStuck` | src/client/recvbufr.c:619 | whatever the switch leaves of that stream, no schedule of appends completes |
| `ModeSwitch.ShortBodyIsClosed` | src/client/recvbufr.c:622-625 | a concrete whole body that is cleared when no line end is on the socket |
| `ChunkStrip.StripFirst` | src/client/io.c:197-218 | the first size line is cut out of the array, or ends the body |
| `ChunkStrip.StripNext` | src/client/io.c:223-249 | a later size line, with the line end before it, is cut out in place without touching the payload in front |
| `ChunkStrip.BodyChunkStrip` | src/client/io.c:193-255 | for every clean cut of a body the array is left with exactly the payload that the reference decoder puts out, its length in `max` and what the chunk still owes in `len`; behind the last chunk's size line `len` is -1 and the framing that is left behind the payload is stated exactly; the loop ends |
| `ChunkStrip.StripResumes` | src/client/io.c:193-255 | resuming with the carried `len` gives the same payload as one pass over the whole input |
| `ChunkStrip.StripWhole` | src/client/io.c:193-255 | a whole body gives `len` -1, and what is left is its payload if and only if it ends with a size line of one zero |
| `ChunkStrip.ClosingLineStays` | src/client/io.c:246-249 | with the closing line end of RFC 9112 behind it, what is left is the payload and a line end |
| `HeaderSplit.FindNeedle` | src/platform/platform.c:339-360 | the first match of the needle in either case, or none at all |
| `HeaderSplit.EitherCaseMatches` | src/platform/platform.c:339-360 | a token matches exactly where each byte is the token's or the same letter in the other case, by two literal alphabets |
| `Bytes.UpperIs` | src/platform/platform.c:347-350 | the comparison's capitals by position in two literal alphabets: a small letter becomes its capital, every other byte stays, and two bytes become the same exactly if they are the same letter |
| `HeaderSplit.DataIncrement` | src/client/recvbufr.c:61-81 | when an append ends the transmission in each length mode, and the counters after it |
| `HeaderSplit.AppendPiece` | src/client/recvbufr.c:212-239 | one turn of the loop: what `recv` gives goes to the end of the buffer and is counted |
| `HeaderSplit.AppendRaw` | src/client/recvbufr.c:203-242 | outside the chunk mode bytes move from the socket to the end of the buffer in order, at most `len`; success means at least one, and on a steady kernel the token, `len` bytes or all there are; a known length that covers the socket is never overrun |
| `HeaderSplit.Append` | src/client/recvbufr.c:187-243 | in every mode what the reader has ahead of it moves to the end of the buffer in order; each error has its cause; in the chunk mode a call that does nothing was shown too little, or stands at the end of a body that is cut short |
| `HeaderSplit.Ditch` | src/client/recvbufr.c:274-281 | the front of the buffer goes, and the buffer with it if nothing is left |
| `HeaderSplit.Find` | src/client/recvbufr.c:303-333 | the first match of a token in the buffer, or none at all; a token of one byte is not seen in the last place |
| `HeaderSplit.WindowKeepsMatches` | src/client/recvbufr.c:353-362 | keeping the last bytes, as many as the token has, loses no match: the first in the window is the first in the stream |
| `HeaderSplit.AppendMore` | src/client/recvbufr.c:187-243 | one more fetch keeps buffer and rest the stream that they were, and takes bytes or waits for the kernel only so long |
| `HeaderSplit.FetchAndDitch` | src/client/recvbufr.c:353-362 | the rest of a round of the search loses no match and, if it goes on, keeps exactly as many bytes as the token has; a match that it finds is not at the front; an error ditches nothing |
| `HeaderSplit.FindAndDitch` | src/client/recvbufr.c:335-372 | in every mode the first match of the whole stream, or of the whole payload, is at offset 0 or 1 of the buffer and at that distance behind the ditched count, and nothing is ditched for one that is a single byte behind the start; buffer and rest are the stream from there; running out of bytes means that the token is not among them; told the token, or a length that covers the socket, or with an unknown length, on a steady kernel, and in the chunk mode on one that shows all there is of a whole body, it succeeds if and only if the token is in the stream; the loop ends, also in a body that is cut short behind the token, and the buffer never holds more than two blocks beyond the token, or one beyond what it had |
| `HeaderSplit.FetchAtLeast` | src/client/recvbufr.c:381-387 | the fetches in front of the search keep the stream, bring in at least as much as the token has, and stay on course |
| `HeaderSplit.FindAndFetch` | src/client/recvbufr.c:374-404 | in every mode the token is in the buffer and nothing was consumed, or one of the stated causes holds; a limit below the token's length is refused before anything is fetched; told the token, or a length that covers the socket, a match behind the start is found on every steady kernel if it is within reach, and in these and the chunk mode on one that shows all there is if and only if it is; a match at the start if and only if more than the token was fetched, which for a kernel that shows all there is is decided by where the fetches begin; RequestCompleted if a fetch brings exactly the token |
| `HeaderSplit.ReachAfter` | src/client/recvbufr.c:391-399 | behind k fetches of a whole block, the one that reaches the end of the token is cut off exactly if it begins behind the token's length and may take the buffer past the limit |
| `HeaderSplit.FirstBlockReaches` | src/client/recvbufr.c:381-387 | into an empty buffer a token that ends within one block is within reach of any limit, also of one smaller than the block |
| `HeaderSplit.HeaderRead` | src/client/io.c:129-168 | header, CR LF, buffer and socket are together the original stream, cut at its first blank line however the bytes arrived; on failure nothing is lost; it succeeds on every steady kernel if no NUL comes first and the header is within reach, and on one that shows all there is if and only if so, a blank line at the very start included with its own condition |
| `Percent.HexToAscii` | src/common/hex.c:5-15 | two bytes make the byte of their values as hex digits; Percent.HexPairReads says what these are |
| `Percent.HexPairReads` | src/common/hex.c:9-13 | the two hex digits of any byte, each in either case, make that byte |
| `Percent.NibbleOfOthers` | src/common/hex.c:13 | of a byte that is no hex digit the four low bits are taken |
| `Percent.SpellingReads` | src/common/hex.c:22-30 | a text that spells bytes, each as itself or as an escape with two hex digits in either case, is decoded to these bytes, and a percent sign with less than two bytes behind it stays |
| `Percent.DecodeEscape` | src/common/hex.c:24-27 | in place: the percent sign becomes the decoded byte and the two digits are closed up, terminator included |
| `Percent.StripDotsKeeps` | src/common/hex.c:32-34 | no "/.." is left, only dots are taken, and a path is not changed exactly if it has no "/.." |
| `Percent.StripUps` | src/common/hex.c:32-34 | the second loop, in place, ends and refines that |
| `Percent.ConvertStringToAscii` | src/common/hex.c:19-36 | the whole decoder, in place, ends and refines decoding and stripping on values: a text that spells bytes, whatever the case of its digits, becomes these bytes without their ways up; the result is never longer |
| `Percent.EscapeAt` | src/server/http.c:104-105 | in place: the rest moves up with its terminator and the escape goes into the gap, within the buffer |
| `Percent.ConvertPathToUrl` | src/server/http.c:89-112 | in place: success gives the escaped path, and happens exactly if nothing needs escaping or one byte of `max` is left over; failure leaves the path escaped up to the byte that did not fit |
| `Percent.EscapeRoundTrip` | src/server/http.c:18-23 | the first decoder loop undoes the encoder if and only if no byte is below 0x10 |
| `Percent.EscapedIsPlain` | src/server/http.c:89-112 | only letters, digits, slashes and escapes are left of a path, which stays as it is exactly if it has nothing else in it |
| `Percent.PathRoundTrip` | src/common/hex.c:19-36 | the whole decoder undoes the encoder if and only if no byte is below 0x10 and there is no "/.."; every encoded path is one the decoder takes |
| `Uri.ParsePrint` | src/client/uri.c:232-359 | printing a parsed URI gives it back character by character if it has "://" and a later slash, and nothing otherwise |
| `Uri.PrintParse` | src/client/uri.c:232-359 | parsing a printed URI gives the same fields if and only if the scheme has no "://", the host no colon or slash, the port no slash, and the path starts with a slash and has no question mark |
| `Uri.PartsParse` | src/client/uri.c:232-359 | the parts of a URI text, with or without scheme, port, path and query, are found as they were put together, if none of them has a separator in it that ends it early |
| `Uri.NoHost` | src/client/uri.c:232-359 | nothing behind "://" leaves only the scheme, and an empty text nothing |
| `Uri.SchemeNames` | src/client/uri.c:57-95 | exactly which names, in either case, each scheme goes by |
| `Uri.DefaultPorts` | src/client/uri.h:8 | the port of each scheme by its name, as a number |
| `Uri.GetPort` | src/client/uri.c:146-178 | the number if the port is all digits and at most 65535, 0 otherwise, and the scheme's port if there is none |

## Left out

- Sockets, select and poll, files, the clock and allocation are foreign calls: their results are
  parameters, scripts or assumed to succeed. `fwrite` to a memory stream and `realloc` always succeed.
- src/server/mltiplex/poll.c plays the same part as select.c; the set of select.c is the abstraction used.
- KeepAlive.EveryClientReceives: a response that is sent without a routine is an event with the bytes that were
  taken of it; what its send buffer had queued is dropped, as in the source. Bytes put on a descriptor are
  counted over all the connections that it serves in turn.
- A file does not change while it is sent. A file shorter than announced is allowed for in the routine's
  invariant, but then FINISH says nothing about full delivery.
- Servers.HandleFile: a range whose start is negative or behind its clamped end is excluded, because the
  source then reads with a count that has wrapped around into a buffer of one block; which ranges of a client
  those are is Servers.NegativeLength. Numbers beyond a `long` are not cut down to one.
- Servers.RangeReads: lists of ranges, which the source does not treat apart; Servers.ValueCuts says how it cuts them.
- Servers.WriteHead: the connection, date, file name and last-modified lines are texts that come from outside.
- SOC_BUF_ERR_FULL is never set by sendbufr.c and is taken to be clear. A DEFER whose flush sends nothing,
  although nothing failed, becomes FAIL, as in the source.
- The text of a list item is a parameter of the directory's entry; building paths and HTML is not modelled,
  nor are events. The end state of a directory frees any unsent tail, so Routines.DirectoryDelivers speaks
  of accepted bytes.
- The answers "try again" of a blocking-style `recv` are folded into the next answer of the kernel, and a
  `recv` after a peek returns the bytes the peek showed.
- The buffer of the receive buffer is a field that holds a sequence; its capacity and the bytes behind its
  length are not modelled.
- RecvBuffers.RecvBuffer.AppendChunk: size lines of more than 15 digits do not fit the peek of 19 bytes
  with both line ends and make the stream bad, as do chunk extensions and trailers; the branch for more
  bytes than the chunk owes is never reached, because no more are asked for.
- ModeSwitch.ParseExistingBuffer: a stream that is bad, on which the source can loop without end; cuts between
  CR and LF of the last size line; a lone CR at the end of a chunk or of the body, behind which the source
  reads on past the end of the buffer; and bytes of a next response behind the closing line end.
- ModeSwitch.SetLengthChunk: the same cuts.
- ModeSwitch.ShortLastChunkIsMissed: shows that the line is pulled in; ModeSwitch.ShortLastChunkIsStuck has the
  outcome.
- ChunkStrip.BodyChunkStrip: malformed bodies and their error returns, an empty input for the first call,
  and cuts just behind a CR are excluded.
- HeaderSplit.Find: only from the start of the buffer, which is how all of its callers use it. From any other
  position, and on an allocated buffer without a byte in it, the source compares bytes behind the end.
- HeaderSplit.FindAndDitch: a token of one byte is excluded, for which the search misses the last place; in the
  chunk mode so are bodies that are bad, bodies that are cut short in front of the token, and kernels that stop
  showing all there is, for there the source loops without end or stops with a malformed-encoding error.
- HeaderSplit.FindAndFetch: the same.
- Percent.ConvertStringToAscii: an escape that decodes to NUL is excluded, because the source then moves
  a count that has wrapped around.
- `isalnum` and `toupper` are those of the C locale.
- Uri.GetPort: a missing port gives the value of the scheme, as in the source, also for schemes without one.
- uriPathAbsoluteAppend, uriPathCombine, uriDetailsCreateStringBase, host lookup and socket addresses.
- recvBufferSend and reconnecting, the site array, the queue, download loops, the command shell, XML, the
  GUI, platformArgvConvertString.
