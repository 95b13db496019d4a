# A model of the Guacamole gateway

This project models the logic of a gateway between browsers and the Guacamole daemon guacd, and proves what that
logic keeps, loses and promises. `dafny verify dfyconfig.toml` checks all of it.

What is modelled, file by file:

* `Base.dfy`, `Utf8.dfy`, `Wire.dfy` — bytes, decimal numerals, Go's UTF-8 decoder, and the Guacamole wire format.
  `Print` is what `Instruction.String` writes (byte lengths), `Encode` what guacd writes (character counts, as the
  Apache Guacamole manual, chapter "The Guacamole protocol", section "Design", demands). `ScanFrom` is the parse loop
  of `ReadSome` over a buffer; it has outcomes for a whole frame, for more bytes needed, for the two parse errors and
  for the index out of range that Go turns into a panic.
* `Instruction.dfy`, `ParseTheorems.dfy` — the printer with its cache, `Parse`, and the round trips.
* `StreamSpec.dfy`, `Stream.dfy` — the sliding window over one array of 3 * 8192 bytes. `StreamSpec` has it as a
  function of the window and a script of what the connection does: non-empty chunks and failures that deliver
  nothing. `Stream` is the object with its array, proved equal to that function call by call. An outcome `Stuck`
  stands for the endless loop of reads into an empty window.
* `NextFrame.dfy`, `EndToEnd.dfy`, `Limits.dfy` — what one call does with the next frame, exactly; printer, incremental
  reader and parser over whole runs; and the exact limits of what they promise.
* `Handshake.dfy` — `AssertOpcode` and `Handshake`.
* `Relay.dfy`, `RelayDelivery.dfy`, `Opcodes.dfy`, `Filter.dfy` — `guacdToWs`, which frames it gets to the browser, and
  `wsToGuacd`.
* `CountedLock.dfy`, `HttpRead.dfy`, `HttpResponses.dfy` — the counted lock and the HTTP reader hand-over, as protocols over any number of
  threads; one atomic operation is one step, and a run is any sequence of enabled steps.
* `TunnelMap.dfy`, `TunnelHistory.dfy`, `Channels.dfy` — the tunnel map and its sweep over timed runs, and the channel
  registry.
* `RoomSpec.dfy`, `RoomHistory.dfy`, `RoomService.dfy`, `RoomSockets.dfy`, `RoomAftermath.dfy` — shared-session rooms as values, each
  operation or command one step; invariants, exact conditions for keeping a host, membership as a function of the
  history alone, the sockets over whole runs, and leaves and stop-shares that come late.
* `Rooms.dfy`, `RoomRegistry.dfy` — the same rooms as objects updated in place: shared client objects, rooms with
  their maps, and the registry; every method is proved to be one step of `RoomSpec`. `Listings.dfy` says what command
  arguments and members lists mean.

Where the code does not do what its documentation suggests, the code is modelled as it is, the failing
inputs are given, and the exact condition is proved:

* `String` prints byte lengths although the protocol and `Parse` count characters: `RoundTripIff`.
* The "enough data" guard of `ReadSome` compares a count of characters with a count of bytes, so a frame cut inside a
  wide character is misread. Input: `CutCharacterPanics`; exact condition: `WaitsAtEveryCutIff`, `ReadInPiecesIff`.
* A frame longer than `MaxGuacMessage` can make `ReadSome` spin although the array could hold it. Input:
  `ShortestSpin`; exact condition for one call: `NextFrame`; for all runs: `SafeSizeIff`.
* `ReadSome` accepts an empty or oversized length field that `Parse` refuses. Input: `EmptyLength`; exact condition:
  `ReturnedFramesAgree`.
* A frame that `guacdToWs` holds back can leave an earlier one unsent. Input: `DroppedFrameStalls`; exact condition:
  `RelayDeliversIff`.
* An open room may have no host. Input: `HostDemoted`; exact condition: `StepHostedIff`, `RunHostedIff`.
* `StopShare` may index a missing creator. Input: `StaleAdminPanics`; exact condition: `StopSharePanicsIff`.
* A leave by someone not in the room may close it. Input: `OutsiderClosesRoom`; exact condition: `AbsentLeaveIff`.

## Model

| member | source | states |
|---|---|---|
| Base.Decimal | pkg/instruction.go:30-32 | %d of a length is a non-empty digit string that denotes that length |
| Base.FormatInt | pkg/stream.go:210-213 | %v of an int is a digit string that denotes it, behind a minus sign when it is negative |
| Base.Ascii | pkg/ws_server.go:22-27 | a one-byte character of a literal is the byte with its code |
| Utf8.EncodeDecoded | pkg/instruction.go:73-74 | appending the rune just decoded writes back the very bytes it was decoded from, wherever a whole character stands |
| Utf8.DecodeEncoded | pkg/instruction.go:73-74 | every code point but the surrogates is decoded from what is appended for it, in the width of section 3 of RFC 3629 |
| Utf8.StrayByte | pkg/instruction.go:73-74 | a byte that starts no character, or one cut off, is read alone and written as the three bytes of the replacement character |
| Utf8.SkipText | pkg/instruction.go:72-76 | decoding as many runes as a valid text has characters covers exactly that text and collects its bytes, whatever surrounds it |
| Utf8.SkipStable | pkg/stream.go:101-107 | a one-byte terminator found behind an element is found again when more bytes have arrived, even if an undecodable tail becomes a character |
| Wire.PrintIsEncode | pkg/instruction.go:25-37 | byte lengths and character counts give the same frame when all characters are one byte wide |
| Wire.ElementRead | pkg/stream.go:83-116 | a complete element with its terminator is recognised whatever follows it, although its text may hold digits, dots, commas and semicolons |
| Wire.FrameRead | pkg/stream.go:83-125 | a whole frame in the buffer, with characters of any width, is found and ends where it ends, whatever follows |
| Wire.PrefixFree | pkg/instruction.go:25-37 | no printed instruction is a proper prefix of another: a text starts with at most one, for elements of any bytes |
| Wire.ScanResumed | pkg/stream.go:78-79 | parsing on from parseStart gives what parsing from the start of the buffer gives |
| Wire.ElementStable | pkg/stream.go:101-116 | an element once accepted is accepted unchanged when bytes are appended, for arbitrary bytes |
| Wire.WaitsAtEveryCutIff | pkg/stream.go:94-99 | the scan of a buffer that ends inside a frame asks for more at every cut exactly when all characters of the frame are one byte wide |
| Wire.CutCharacterPanics | pkg/stream.go:95-107 | the smallest frame whose missing last byte makes ReadSome index out of range |
| Instructions.Instruction.constructor | pkg/instruction.go:17-22 | a new instruction has the given opcode and args and an empty cache, which is a valid cache |
| Instructions.Instruction.String | pkg/instruction.go:25-37 | the first and every later call return the fresh rendering; the cache is empty or that rendering |
| Instructions.Parse | pkg/instruction.go:43-97 | the nested loops compute the recursive parse, including its errors and its panics |
| Instructions.ParseProgress | pkg/instruction.go:48-94 | what one turn of the loop does to the result of the whole parse, branch by branch |
| Instructions.FirstDot | pkg/instruction.go:50-56 | the first dot at or behind a position, or -1 when there is none |
| Instructions.Characters | pkg/instruction.go:71-76 | the characters collected for a length and the position behind them |
| Instructions.AtoiDigits | pkg/instruction.go:64-67 | a digit string is accepted exactly when it is non-empty and within the range of int |
| Instructions.FormatReads | pkg/stream.go:210-213 | every int printed with %v reads back through Atoi |
| ParseTheorems.ParseAscii | pkg/instruction.go:25-97 | printing, then parsing one-byte characters gives the elements back and stops behind the final semicolon |
| ParseTheorems.RoundTripIff | pkg/instruction.go:25-97 | Parse(String(ins)) is ins exactly when every character of every element is one byte wide |
| ParseTheorems.EncodedParses | pkg/instruction.go:43-97 | Parse gives back the elements of every frame whose lengths count characters, whatever their widths |
| ParseTheorems.NoElements | pkg/instruction.go:59-61 | data without a dot is refused, and no data at all is a panic |
| ParseTheorems.BadNumberRefused | pkg/instruction.go:64-67 | a text in front of the first dot that is no int is refused |
| ParseTheorems.NoTerminatorPanics | pkg/instruction.go:72-84 | an element that reaches or goes beyond the end of the data is a panic |
| ParseTheorems.AnyTerminator | pkg/instruction.go:84-92 | behind an element any byte but a semicolon is taken for a comma |
| ParseTheorems.ParsersAgreeIff | pkg/instruction.go:48-94 | a frame the scan finds at the front of a buffer makes Parse accept exactly when all length fields are non-empty and in range, never panic, and end at the final semicolon with the scan's own boundaries |
| ParseTheorems.FrameLocal | pkg/stream.go:83-125 | a frame found at the front of a longer buffer is found in the frame alone, for arbitrary bytes |
| ParseTheorems.SpanIsUtf8 | pkg/stream.go:100-107 | in a frame of valid UTF-8 every text between the scan's boundaries is valid UTF-8 |
| ParseTheorems.FramesParse | pkg/instruction.go:43-97 | Parse on such a frame, taken by itself: refused, or the texts at the scan's boundaries, unchanged when the frame is valid UTF-8 |
| ParseTheorems.TextsUnchanged | pkg/instruction.go:71-80 | an element whose text is valid UTF-8 comes out of Parse byte for byte |
| Streams.Conn.Read | pkg/stream.go:143-160 | a read hands over at most the window and at most one chunk, writes nothing outside it, or fails without a byte |
| Streams.Stream.constructor | pkg/stream.go:34-42 | a new stream has an empty buffer at the start of its own array |
| Streams.Stream.Available | pkg/stream.go:54-56 | true exactly when bytes are buffered |
| Streams.Stream.Flush | pkg/stream.go:59-62 | the buffer moves to the start of the array with its content unchanged, though source and destination may overlap |
| Streams.Stream.ParseElement | pkg/stream.go:83-131 | the loop over digits, length, characters and terminator finds what the element scan says |
| Streams.Stream.EndOfLength | pkg/stream.go:89-131 | behind the digits: dot, enough bytes, characters and terminator are judged as the element scan says |
| Streams.Stream.ParseBuffer | pkg/stream.go:78-137 | the parse loop finds what the scan from parseStart says and leaves parseStart behind the last complete element |
| Streams.Stream.Receive | pkg/stream.go:139-162 | compaction exactly below MaxGuacMessage of capacity, then one read, its failure mapped to an error, or bytes appended |
| Streams.Stream.TakeFrame | pkg/stream.go:121-125 | the frame handed out is a slice of the array, and the buffer goes on directly behind it |
| Streams.Stream.ReadSome | pkg/stream.go:66-164 | one call is the function ReadSome of the window and the script; slices handed out earlier keep their bytes until a compaction |
| StreamSpec.ResumeRefinesRestart | pkg/stream.go:76-137 | over any number of calls, partial reads and failures, for any bytes, resuming at parseStart gives the frames, errors and remainders of a reader that parses the whole buffer afresh each time |
| StreamSpec.ReadConserves | pkg/stream.go:66-164 | no call loses, doubles or reorders a byte: what is buffered or still to come is the frame returned followed by what is buffered or still to come |
| StreamSpec.ReadOwes | pkg/stream.go:66-164 | while frames of one-byte characters and at most MaxGuacMessage bytes are to come, a call returns the next one or uses up one failure; it never ends in a parse error, a panic or an endless loop |
| StreamSpec.FailureReported | pkg/stream.go:143-157 | a read that fails without bytes is reported as timeout, closed connection or server error by its kind, and the buffered bytes stay for the next call |
| StreamSpec.EndReported | pkg/stream.go:153-157 | the end of the connection is reported as a server error, and the buffered bytes stay |
| StreamSpec.CompactionCost | pkg/stream.go:59-62 | over any run from a flushed stream, for any bytes, twice the bytes moved by compaction is at most the bytes returned |
| NextFrames.NextFrame | pkg/stream.go:78-163 | with a frame of one-byte characters next and no failure before it is complete, ReadSome spins exactly when the frame is not buffered and longer than the window from the buffer's start, or from the array's start if compaction is due; otherwise it returns the frame and keeps what follows |
| EndToEnd.ReadsOwe | pkg/stream.go:66-164 | after n calls the frames returned are the first m owed, in order, the rest is still owed, and each call returned a frame or used up a failure until all are out |
| EndToEnd.ReturnedCounted | pkg/stream.go:121-125 | the bytes counted as returned are those of the frames returned |
| EndToEnd.InstructionsSurvive | pkg/stream.go:66-164 | however printed instructions of one-byte characters are cut into reads and interleaved with failures, the calls return exactly their encodings in order, Parse gives each back, and all are out after as many calls as instructions and failures |
| EndToEnd.BufferedFrameReturned | pkg/stream.go:83-125 | a wholly buffered frame with characters of any width is returned as it is, and exactly what follows it stays |
| EndToEnd.WholeFramesSurvive | pkg/stream.go:66-164 | frames with characters of any width that arrive one per read all come out in order and parse back |
| EndToEnd.ReturnedFrame | pkg/stream.go:121-125 | every frame ReadSome returns is one that the scan from the start of a buffer finds |
| EndToEnd.ReturnedFramesAgree | pkg/instruction.go:43-97 | over any run, for every frame ReadSome returns, arbitrary bytes included: Parse never panics, accepts exactly when all length fields are non-empty and in range, ends at the final semicolon with the same boundaries, and keeps the element bytes when the frame is valid UTF-8 |
| EndToEnd.EmptyLength | pkg/instruction.go:64-67 | the frame of an empty length field is returned by ReadSome and refused by Parse |
| Limits.MaxIsSharp | pkg/stream.go:139-143 | every frame longer than 8192 bytes makes ReadSome spin when one chunk delivers it behind two frames of 8192 bytes |
| Limits.ShortestSpin | pkg/stream.go:139-143 | the input with a frame of 8193 bytes |
| Limits.SafeSizeIff | pkg/stream.go:66-164 | a frame is returned behind any frames that fit, however the bytes are cut, exactly when it has at most 8192 bytes |
| Limits.ReadInPiecesIff | pkg/stream.go:94-107 | a frame of at most 8192 bytes is returned however its bytes are cut into reads exactly when all its characters are one byte wide |
| Limits.CutReadPanics | pkg/stream.go:95-107 | ReadSome panics on the smallest frame read without its last byte |
| Limits.WrongTerminatorReported | pkg/stream.go:128-130 | an element followed by neither comma nor semicolon is a parse error |
| Limits.WrongLengthReported | pkg/stream.go:132-135 | a length field that ends in neither a digit nor a dot is a parse error |
| Handshakes.AssertOpcode | pkg/stream.go:263-279 | one instruction is read and parsed; it is returned exactly when it parses and has the expected opcode, else the error says which test failed |
| Handshakes.LookUp | pkg/stream.go:193-207 | the i-th value is the parameter of the i-th name, empty when there is none |
| Handshakes.Send | pkg/stream.go:209-242 | messages are written in order up to the first write that fails |
| Handshakes.AnswerArgs | pkg/stream.go:192-257 | size, audio, video, image and connect are written in order, then ready is awaited and the buffer compacted |
| Handshakes.Handshake | pkg/stream.go:172-260 | result, stream, messages written and connection id are those of the run of the handshake, whichever step fails |
| Handshakes.ExpectedFrame | pkg/stream.go:263-279 | an instruction accepted with its opcode was one frame off the front of the bytes ahead |
| Handshakes.ExpectNext | pkg/stream.go:263-279 | an expected instruction that comes next is accepted, and exactly the bytes behind it are still ahead |
| Handshakes.HandshakeConsumesTwo | pkg/stream.go:172-260 | every successful run reads exactly two frames, one parsing as args and one as ready, and leaves all bytes behind them, across the final compaction; it writes exactly select, size, audio, video, image and connect in that order, with these opcodes byte for byte, size args that read back as width, height and resolution, and connect's i-th arg the parameter for the i-th name or empty; the id is ready's first arg |
| Handshakes.HandshakeSucceeds | pkg/stream.go:172-260 | when args and ready come next in any pieces without a failure before they are complete and the writes are accepted, all is read and written, whatever comes later; the run succeeds exactly when ready carries an id |
| Handshakes.OtherNext | pkg/stream.go:269-277 | another instruction in place of the expected one is consumed and refused, an empty opcode as end of stream |
| Handshakes.WrittenInOrder | pkg/stream.go:181-242 | any run writes a prefix of the six messages, all of them after a success, and stops at the first refused write |
| Relays.ServerNameRead | pkg/ws_server.go:290-300 | the server name recorded for guacd's server_info is its argument, whatever its bytes |
| Relays.WebSocket.WriteMessage | pkg/ws_server.go:321 | a message is sent whole or refused |
| Relays.Buffer | pkg/ws_server.go:313-329 | a frame is appended; the buffer is sent and emptied exactly when nothing more is buffered or it has reached MaxGuacMessage |
| Relays.GuacdToWs | pkg/ws_server.go:276-331 | the loop sends, keeps, reads and records what the relay function says, whichever read or write fails |
| Relays.RelayConserves | pkg/ws_server.go:276-331 | the messages and the unsent bytes are groups of whole frames that laid end to end are the frames read but for internal and server_info ones, in order |
| Relays.RelaySession | pkg/ws_server.go:290-300 | the session is authorised under the name in the last server_info frame read, and untouched without one |
| Relays.RelayReads | pkg/ws_server.go:280-284 | the frames read are what successive calls of ReadSome return up to the first that fails |
| Relays.RelayEnds | pkg/ws_server.go:280-328 | the loop ends at the first read that fails, or else at the first refused message with nothing read after it; all messages before were accepted |
| Relays.RelayBound | pkg/ws_server.go:277-329 | with frames of at most 8192 bytes every message and the rest stay below the initial capacity of 16384 |
| RelayDeliveries.SentAndUnsent | pkg/ws_server.go:276-331 | when all of guacd's frames come, the messages and the unsent bytes together are exactly the forwarded frames |
| RelayDeliveries.RelayDelivers | pkg/ws_server.go:276-331 | the messages alone are exactly the forwarded frames when the last forwarded frame, if any, is the last of all or has 8192 bytes |
| RelayDeliveries.DroppedFrameStalls | pkg/ws_server.go:286-319 | a shorter forwarded frame with only held-back frames behind it, the first in the same chunk, is read and never sent |
| RelayDeliveries.RelayDeliversIff | pkg/ws_server.go:276-331 | all forwarded frames reach the browser however the bytes are cut, exactly under that condition |
| Filters.WsToGuacd | pkg/ws_server.go:237-268 | exactly the messages judged fit are written to guacd, in order, and exactly the commands are handed on, until the messages end or a write fails |
| Filters.JudgedByOpcode | pkg/ws_server.go:245-262 | the prefix tests judge exactly the opcode of the message's first instruction, byte for byte: the empty one is internal, AACMD is a command, and size, mouse and key need the admin role, the mouse and the keyboard right |
| Filters.MouseWithheld | pkg/ws_server.go:257-259 | the bytes of a mouse instruction from a viewer without the right are withheld |
| Filters.RelayedByOpcode | pkg/ws_server.go:286-290 | guacdToWs holds back exactly the instructions whose opcode is empty or server_info |
| CountedLocks.RunKeepsInv | pkg/counted_lock.go:15-29 | in every interleaving the counter equals the threads announced or waiting plus the holder that has not decremented, and the mutex has exactly the holder the phases say |
| CountedLocks.MutualExclusion | pkg/counted_lock.go:15-24 | at most one thread is between mutex lock and unlock, and the counter is exact |
| CountedLocks.QueueSeenByHolder | pkg/counted_lock.go:27-29 | HasQueued asked by the holder is true exactly when some thread is waiting |
| CountedLocks.CanGetLock | pkg/counted_lock.go:15-24 | from every reachable state a thread that does not have the lock can get it |
| CountedLocks.CountedLock.Announce | pkg/counted_lock.go:16 | the increment of Lock is the announcing step |
| CountedLocks.CountedLock.Acquire | pkg/counted_lock.go:17 | the mutex lock is the acquiring step |
| CountedLocks.CountedLock.Decrement | pkg/counted_lock.go:22 | the decrement of Unlock is its own step |
| CountedLocks.CountedLock.Release | pkg/counted_lock.go:23 | the mutex unlock is the releasing step |
| CountedLocks.CountedLock.HasQueued | pkg/counted_lock.go:27-29 | the comparison answers whether some thread is waiting |
| HttpReads.StepRefinesLock | pkg/tunnel.go:85-98 | every step of doRead is a step of the counted lock protocol or leaves the lock alone |
| HttpReads.EachFrameOnce | pkg/server.go:121-209 | with any number of requests in any interleaving, the responses in lock order without their end markers hold exactly the frames taken, once each and in order, and an end marker ends its response |
| HttpReads.AtMostOneMore | pkg/server.go:183-198 | once another reader has announced itself, the present one writes at most one more frame |
| HttpResponses.HandsOverToWaiting | pkg/server.go:195-198 | in every reachable state a request about to write its end marker has another one waiting for the lock |
| HttpResponses.ResponseEnds | pkg/server.go:147-165 | a complete response ends with the marker exactly when its request handed over or was the first to find no frames left and the connection closed; without a hand-over it read until no frames were left |
| HttpResponses.LoneReaderGetsAll | pkg/server.go:168-199 | a request that no other one joins gets all frames |
| HttpResponses.RequestCanBeServed | pkg/server.go:121-165 | from every reachable state any request, new or unfinished, can be brought to its end |
| TunnelMaps.LastAccessedTunnel.Access | pkg/tunnel_map.go:32-36 | an access records the present time |
| TunnelMaps.TunnelMap.Put | pkg/tunnel_map.go:137-142 | the tunnel is registered with the present time, over any earlier one |
| TunnelMaps.TunnelMap.Get | pkg/tunnel_map.go:123-134 | a registered tunnel is returned and its access recorded; nothing else changes |
| TunnelMaps.TunnelMap.Remove | pkg/tunnel_map.go:145-154 | a registered tunnel is returned and forgotten |
| TunnelMaps.TunnelMap.Sweep | pkg/tunnel_map.go:90-120 | exactly the expired tunnels are deleted, and each of them is closed once |
| TunnelMaps.TunnelMap.Collect | pkg/tunnel_map.go:99-105 | the ids collected are those of the expired tunnels, each once |
| TunnelMaps.TunnelMap.CloseAll | pkg/tunnel_map.go:107-119 | the collected tunnels are deleted and closed in order |
| TunnelMaps.Survives | pkg/tunnel_map.go:44-50 | a tunnel left alone survives everything up to one timeout after its last access |
| TunnelMaps.ExpiresInTime | pkg/tunnel_map.go:44-50 | a tunnel left alone since time a is removed and closed by a sweep at a time in (a+T, a+2T] and by none before |
| TunnelMaps.NeverEarly | pkg/tunnel_map.go:90-106 | in any run a sweep removes a tunnel only if every access lies more than one timeout back |
| TunnelHistories.RegisteredByHistory | pkg/tunnel_map.go:90-154 | in any timed run an id is registered exactly when some registration of it has no removal of it and no sweep that found it expired after it; its tunnel is that of the latest registration, its time that of the latest registration or access |
| Channels.ChannelManagement.Add | pkg/channel_control.go:20-28 | the channel is listed under the key, other entries stay |
| Channels.ChannelManagement.Remove | pkg/channel_control.go:30-44 | the channel found under the application is closed and its id forgotten under both keys; it panics exactly when that channel is closed already |
| Channels.ChannelManagement.BroadCast | pkg/channel_control.go:46-55 | every channel under the key gets the value once; it panics exactly when one of them is closed |
| Channels.ChannelsStayOpen | pkg/ws_server.go:165-173 | over any interleaving of connections exactly the connections that have come so far are listed under their keys, with their channels; no listed channel is closed, nothing panics, and each channel is closed once, when its connection is gone |
| Channels.ConnectionCanRun | pkg/ws_server.go:165-173 | after any run another connection can come, be listed and go |
| RoomSpec.StepKeepsInv | pkg/rdp_sharing.go:159-280 | every operation keeps: each room under its own session id, clients under their own user, the creator invited, at most INVITEE_LIMIT invitees, only the creator admin, session data for every room; and a leave never misses session data |
| RoomSpec.RunKeepsInv | pkg/rdp_sharing.go:159-370 | the same over whole runs |
| RoomSpec.LeaveKeepsOrCloses | pkg/rdp_sharing.go:314-329 | after a leave the room keeps someone who is not a viewer, or it is gone with its session data and the sockets of exactly those left are closed |
| RoomSpec.AbsentLeaveIff | pkg/rdp_sharing.go:314-329 | a leave by someone not in the room changes nothing exactly when someone there is not a viewer |
| RoomSpec.StopShareByHost | pkg/rdp_sharing.go:206-234 | stop-share by an admin client in the room completes, users and invitees shrink to exactly the creator, all other sockets are closed once, other rooms stay |
| RoomAftermath.EvictedLeavesQuietly | pkg/rdp_sharing.go:314-329 | after a host's stop-share and any operations that do not bring an evicted user back, the user is absent; its leave does nothing if the room is gone, and else changes nothing exactly when someone there is not a viewer, so while the host is admin there |
| RoomAftermath.OutsiderClosesRoom | pkg/rdp_sharing.go:314-329 | the leave of an outsider closes the room of a host who has demoted itself |
| RoomAftermath.StopSharePanicsIff | pkg/rdp_sharing.go:206-234 | in a room open after a run with fresh session ids, a stop-share with the admin role panics exactly when no create or join of the creator is without a later exit of the creator in the history |
| RoomAftermath.CreatorMarks | pkg/rdp_sharing.go:206-227 | the creator is brought in by its create and its joins and goes only by its own leaves, never by a stop-share or removal |
| RoomAftermath.StaleAdminPanics | pkg/commands.go:160-173 | the input: the creator leaves while a co-host stays, and its old client stops sharing |
| RoomSpec.LastChange | pkg/commands.go:270-296 | the permission a list of changes gives a user is that of the last change naming it, none when none does |
| RoomSpec.AssignedAllLast | pkg/commands.go:270-296 | after set-permissions each named user and invitee has the last permission given to it, all others what they had |
| RoomSpec.RemovedAllRest | pkg/commands.go:226-245 | after remove-share exactly the listed users but the creator are gone from users and invitees |
| RoomSpec.StepHostedIff | pkg/rdp_sharing.go:314-329 | when all open rooms have someone who is not a viewer, an operation keeps this exactly when its guard holds, for every operation |
| RoomSpec.RunHostedIff | pkg/rdp_sharing.go:314-329 | all open rooms have someone who is not a viewer at every point of a run exactly when every guard holds |
| RoomSpec.HostDemoted | pkg/commands.go:279-289 | a creator who demotes itself leaves an open room without a host |
| RoomSpec.PlainRunsHosted | pkg/rdp_sharing.go:159-334 | in runs of create, invite, join by absent users, leave and admin stop-share every open room has someone who is not a viewer |
| RoomSpec.ConnectionEnters | pkg/ws_server.go:102-203 | an accepted connection is a create or a join by a user not in the room and succeeds; by a share link it is the room of the link, with the role and rights of the stored invitation; without one a room of the user's own and of the app asked for, as admin with mouse and keyboard |
| RoomSpec.ConnectionAccepted | pkg/rdp_sharing.go:138-157 | a share link is accepted exactly when an invitation is stored, the room is open and the user not in it; another connection always, opening a new room exactly when there is none of the app to take up again |
| RoomHistories.ReplayIsLatest | pkg/rdp_sharing.go:159-204 | replaying entries, exits and changes one by one is looking for the latest ones |
| RoomHistories.StepMarks | pkg/rdp_sharing.go:159-234 | what each operation does to the rights, the socket and the invitation of one user is what its log entry says, also for other rooms |
| RoomHistories.MembersByHistory | pkg/rdp_sharing.go:159-334 | after any run with fresh session ids a user is in an open room exactly when some create or join of it has no effective leave, removal or stop-share after it; its role and flags are those of the latest create, join or effective set-permissions |
| RoomHistories.SocketsByHistory | pkg/rdp_sharing.go:159-178 | its socket is the one it last came in with |
| RoomHistories.InvitationsByHistory | pkg/rdp_sharing.go:200-216 | a user is invited exactly when its latest effective invitation has no removal or stop-share after it, with the permissions of the latest invitation or change |
| RoomHistories.CreatorByHistory | pkg/rdp_sharing.go:241-267 | a room's creator and app are those of its one create operation |
| RoomService.InvitedUpToFour | pkg/rdp_sharing.go:269-280 | in a room open after a run with fresh session ids an invitation is refused exactly when four users have a standing one in the history, the creator among them; otherwise the user is invited with these permissions and nothing else changes |
| RoomService.OpenRoomServes | pkg/rdp_sharing.go:282-334 | in an open room every join, leave and non-empty removal takes effect, invite, stop-share and set-permissions exactly by their guards, and then do what they are for |
| RoomService.RefusalsChangeNothing | pkg/commands.go:262-269 | refused operations change nothing, and without a room all but create are refused |
| RoomService.CreatorInvited | pkg/rdp_sharing.go:256 | the creator of a new room is its only invitee, with all permissions |
| RoomSockets.StepSockets | pkg/rdp_sharing.go:159-350 | an operation puts a socket only where it brings it, and closes exactly sockets of users it puts out of the room it acts on |
| RoomSockets.EvictedClosed | pkg/rdp_sharing.go:186-227 | whoever an operation puts out, other than by its own leave or coming in again, has its socket closed by it |
| RoomSockets.SocketsClosedOnce | pkg/rdp_sharing.go:186-227 | after any run in which each create and join brings its own socket, no user in a room has a closed socket, no two share one, and no socket has been closed twice |
| Rooms.SplitPair | pkg/commands.go:271-277 | an argument splits into two parts exactly when it is these parts around one colon |
| Rooms.MembersNamedOnce | pkg/rdp_sharing.go:91-128 | a members list names each user or invitee exactly once, with status 1 exactly for those present |
| Listings.MembersShown | pkg/rdp_sharing.go:97-127 | the entry of someone present shows its role and exactly the words of its rights; that of an invitee who is not shows the invitation and the role it would give |
| Listings.PairRead | pkg/commands.go:271-277 | an argument that is a user and a permission around its only colon is one more change, and one more invitation if it names a user |
| Listings.OtherSkipped | pkg/commands.go:272-275 | any other argument is passed over |
| Listings.ArgFailsIff | pkg/commands.go:348-377 | a request to share fails at an argument exactly when it invites a user and the room is gone, has four invitees, or a database or mail call fails |
| Rooms.RdpSessionRoom.constructor | pkg/rdp_sharing.go:245-266 | a new room has its creator as admin with mouse and keyboard, and as invitee |
| Rooms.RdpSessionRoom.Join | pkg/rdp_sharing.go:159-178 | a fresh client with the role and rights of its permissions is put in place; all else stays |
| Rooms.RdpSessionRoom.Leave | pkg/rdp_sharing.go:180-184 | the user's entry is gone; all else stays |
| Rooms.RdpSessionRoom.RemoveUser | pkg/rdp_sharing.go:186-198 | the user is neither in nor invited, and its socket is closed if it was in |
| Rooms.RdpSessionRoom.RemoveUsers | pkg/commands.go:226-245 | the listed users but the creator are removed one after the other, and the sockets closed are exactly theirs |
| Rooms.RdpSessionRoom.AddInvitee | pkg/rdp_sharing.go:200-204 | the permissions are recorded for the user |
| Rooms.RdpSessionRoom.StopShare | pkg/rdp_sharing.go:206-234 | both loops leave exactly the creator, the sockets closed are those of the others, and the last step fails exactly without a creator |
| Rooms.RdpSessionRoom.Assign | pkg/commands.go:276-296 | the clients of one user and its invitation get the new permissions, in place |
| Rooms.RdpSessionRoom.AssignArgs | pkg/commands.go:270-301 | the well-formed arguments are applied one after the other, others are skipped |
| Rooms.RdpSessionRoom.HasAdmin | pkg/rdp_sharing.go:317-326 | the loop finds whether someone is not a viewer |
| Rooms.RdpSessionRoom.CloseSockets | pkg/rdp_sharing.go:347-350 | every socket in the room is closed |
| Rooms.RdpSessionRoom.GetMembers | pkg/rdp_sharing.go:96-128 | the list has one entry for each user and each invitee, with the role and permissions the room gives |
| RoomRegistries.RoomRegistry.NewRdpSessionRoom | pkg/rdp_sharing.go:241-267 | the registry makes the create step and returns the creator's client |
| RoomRegistries.RoomRegistry.AddInvitee | pkg/rdp_sharing.go:269-280 | the registry makes the invite step, refused at the limit or without a room |
| RoomRegistries.RoomRegistry.JoinRoom | pkg/rdp_sharing.go:282-297 | the registry makes the join step and returns the client put in place |
| RoomRegistries.RoomRegistry.LeaveRoom | pkg/rdp_sharing.go:299-334 | the registry makes the leave step, closing the room when only viewers are left |
| RoomRegistries.RoomRegistry.CloseRoom | pkg/rdp_sharing.go:346-358 | the sockets left are closed, the room and its session data dropped; missing session data is a panic |
| RoomRegistries.RoomRegistry.StopShare | pkg/commands.go:160-173 | the registry makes the stop-share step for the role of the sending client object |
| RoomRegistries.RoomRegistry.RemoveShare | pkg/commands.go:218-257 | the registry makes the remove-share step |
| RoomRegistries.RoomRegistry.SetPermissions | pkg/commands.go:261-308 | the registry makes the set-permissions step, changing the shared client objects of this room and of no other |
| RoomRegistries.RoomRegistry.NoClientShared | pkg/rdp_sharing.go:169-175 | one client object is in one room under one user |
| RoomRegistries.RoomRegistry.RequestSharing | pkg/commands.go:343-387 | the well-formed arguments are invited in order; it fails exactly when one of these invitations is refused or a database or mail call for one of them fails |
| RoomRegistries.RoomRegistry.GetRoomByAppIdAndCreator | pkg/rdp_sharing.go:336-344 | a room of this app and creator without the creator in it is found exactly when there is one |
| RoomRegistries.RoomRegistry.Connect | pkg/ws_server.go:102-203 | a connection leads to exactly the operation its share link, its invitation and the dropped rooms call for |
| RoomRegistries.RoomRegistry.GetMembersInstruction | pkg/rdp_sharing.go:91-135 | the members list of an open room, empty once the room is gone |

## Left out

- Integers are unbounded: lengths and `numLocks` do not overflow; where `Atoi` matters its range is modelled.
- A read that returns no bytes without an error on a non-empty window, or bytes together with an error, is not part of the connection model.
- What `ReadSome` does after it has returned a parse error is not claimed; callers stop there.
- StreamSpec.ReadOwes: one-byte characters and frames of at most 8192 bytes, because the code does not promise more; `ReadInPiecesIff` and `SafeSizeIff` show that both bounds are exact, and `WholeFramesSurvive` covers other characters when reads do not split frames.
- Instructions.Instruction.String: opcode and args are constants of the object; a caller that changes them after the first rendering would get the old text.
- Handshakes.HandshakeSucceeds: args and ready of one-byte characters and at most 8192 bytes, the frames that are returned however they are cut; `HandshakeConsumesTwo` holds for every run that succeeds.
- Handshakes.Handshake: deadlines, logging and the TLS or network layer below the connection are not modelled.
- Filters.JudgedByOpcode: speaks of the first instruction of a message, as the code tests no other.
- HttpReads.EachFrameOnce: writes to the response do not fail; frames are those before the stream's first error; closing the tunnel happens with the read that fails, a later read on the closed tunnel ends its request without an end marker, as the type assertion on its raw error panics, and the removal from the tunnel map is not part of this model.
- CountedLocks.RunKeepsInv: the order in which waiting threads get the mutex is free; fairness is not modelled.
- TunnelMaps.ExpiresInTime: ticks come exactly one timeout apart and a sweep is atomic; an access between its two loops is not modelled.
- Channels.ChannelManagement.BroadCast: a send on a full channel, which would block, is not modelled.
- Room operations and commands are atomic, although some command loops hold no lock; the room lookup, tunnel connect and room creation of one connection are one step.
- RoomSpec.StepKeepsInv: a create step may reuse a session id; only `RoomHistory.dfy` demands fresh ones.
- RoomRegistries.RoomRegistry.Connect: the stored invitation is a parameter, and a failing tunnel connection, which changes no room, is left out.
- RoomRegistries.RoomRegistry.RequestSharing: whether the database and mail calls succeed is a parameter; the JSON of the answer and the members list sent on success are left out.
- RoomRegistries.RoomRegistry.RemoveShare: the removal notice and the database are left out.
- RoomRegistries.RoomRegistry.GetMembersInstruction: the list is a sequence of records; its JSON text is left out.
- The members lists and permission messages written to clients after an operation are not logged.
- A socket is an identity; what closing it does to the connection behind it is outside the model, and so is the order in which one operation closes several.
- Status texts, the error table, session stores, Redis, recording, load generation, DLP and monitor-policy commands, user search and event logging are outside the model: plumbing around foreign libraries, or tables and counters that would add only easy members.
