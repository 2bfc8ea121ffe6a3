# Termcall, modelled and proved

Termcall connects two people's terminals: a signaling server introduces them, a daemon hands incoming calls to call
windows, and ASCII video travels between the peers over a lossy, unordered channel. This project models the parts of
it that are state machines, codecs and bounded memories, and proves what they promise. `dafny verify dfyconfig.toml`
checks everything.

Each component is written twice: as the imperative code it is (classes with mutable fields, arrays written in place,
loops in the source's order), and as functions on values. Every method's contract ties its whole new state and its
result to the function; the theorems are then proved about the functions, over all inputs, all runs and all
interleavings.

## The components

**ASCII video.** `Bytes`, `Delta`, `Frame` and `Codec` are the wire format and the stateful encoder and decoder; `Wire`
states the format in plain numbers, byte for byte.
`Stream` puts one encoder, an arbitrary channel and one decoder together; `Atomicity` is about
failed Decode calls and `Cadence` about the distance between keyframes. `Gray` is the conversion from camera pixels.
`Terminal` is a small terminal emulator (printing, scrolling, CUP as in section 8.3.21 of ECMA-48, save and restore
cursor), which gives the renderer in `Render` and the UI in `Video` a meaning; `Pipeline` joins both ends, so that the
last theorem speaks of pixels on one side and the screen on the other.

**Calls.** `Calls` specifies the server's call table, `Manager` is the manager with its two maps and its records
mutated through pointers, `CallTrace` adds the history of accepted signals and states the protocol on that history
alone. `CallHistory` is a second account of the call table, kept as one history per call, and proves that the manager
is exactly that, states, times, counters and errors included. `Presence` is the registry. `Server` interleaves the locked sections of all sessions and of the sweeper. Whether
delivering to a connection succeeds is left open in every state, since a select between a closed connection and a
queue with room may go both ways. `ServerCalls` says which operations the server's steps issue, so that the histories
speak of the server itself, and what each kind of message does to it. The inviter and acceptor of a call are history variables. `Delivery` is about the
invitation that was placed but could not be delivered, `Reconnect` about users who come back at the wrong moment.

**Daemon.** `Daemon` specifies each locked section, has the service with its pending records mutated in place, and
interleaves the signaling goroutine with any number of call windows. `Windows` is about what a window says and to
whom it goes, `Invitations` puts the invitation limiter into the run and tells every outcome from the history.

**Bounded memories.** `RateLimit`, `InviteLog`, `ReplayGuard` and `DuplicateFilter` each prove that what they forget
changes no answer, against a reference that remembers everything.

**Text.** `Utf8` (section 4 of RFC 3629), `Sanitize`, and `Escapes`, which reads sanitized text back.

Times are integers counted in nanoseconds from Go's zero time, which doubles as the "not set" value; the clock is
positive wherever the code reads it. The saturation of Go's `Sub` cannot be observed: it is only compared with
intervals that fit the same 64 bits. Usernames and ids are an abstract type with equality.

## Where the code and its promises differ

- `Decode` is not atomic: a rejected frame can leave changed cells behind (`Codec.FailedDecodeCanChangeCells`).
  `Atomicity.FailedDecodeSpoilsIff` is the exact condition on the frame. What it costs is
  `Atomicity.NextDeltaAfterFailure`: the next delta in sequence can then decode with success to a picture that nobody
  captured, and `Atomicity.HalfAppliedDeltaShows` is such a case. The stream theorem holds all the same, because frames
  made by an encoder never meet the condition.
- `Transition` does not look at deadlines: a call past its deadline is still answered until the next sweep
  (`Calls.OnlyExpireEnforcesDeadlines`).
- A proof presented again exactly at its expiry passes `Verify`, while the guard has already forgotten it.
  `ReplayGuard.ForgottenAtExpiry` gives the exact condition and `ReplayGuard.AcceptedTwiceAtExpiry` an instance.
- A call window that was replaced cannot disturb its successor by releasing, but can by a decline it had already sent
  when the same call id comes back: `Daemon.ReplacedWindowChangesNothing` is the exact condition,
  `Daemon.LateDeclineWithdraws` an instance. Its messages are still sent, too, for a call that is no longer its own:
  `Daemon.SpeaksForItsCallIff` says when a window owns its call, `Daemon.SendsForAnother` is an instance of the other case.
- Undoing an undelivered invitation and hanging up both name a user, not a call, so either can end a call the user has
  got into meanwhile. `Delivery.UndoEndsTheInviteesCall` and `Reconnect.HangUpEndsTheUsersCall` are the exact
  statements, `Reconnect.UndoCanEndAnotherCall` and `Reconnect.HangUpCanEndAnotherCall` instances from one run.
- docs/ascii-frame-protocol.md:39-40 promises a keyframe at least every two seconds. The code sends one with the first
  picture captured at or after the interval, so the promise is kept over a run exactly when no picture is captured later
  than that (`Cadence.KeyframesWithinIff`), and by a steady camera exactly when its period divides the interval
  (`Cadence.SteadyKeyframesWithinIff`); `Cadence.PromiseBroken` is a run in which it is not. How late a keyframe can be
  is `Cadence.KeyframeDistance`.

- Sanitized text is not always readable without doubt: a backslash is shown as it is, so two letters can look like an
  escaped line feed (`Escapes.TwoLookTheSame`). `Escapes.ReadsBackIff` says exactly when the original can be recovered:
  when nothing in it looks like an escape.
- The converter takes any picture whose own dimensions fit its pixels and the encoder counts cells only, so a shot of
  another shape with the same number of cells is sent, and shown with the encoder's line length (`Pipeline.Suits`).

## Model

| member | source | states |
|---|---|---|
| Delta.DeltaRoundTrip | internal/client/asciivideo/codec.go:180-219 | for equal-length frames of at most 2^32 cells, applying the encoded delta to the first succeeds and yields the second, runs longer than 0xffff included |
| Delta.DeltaPatches | internal/client/asciivideo/codec.go:180-219 | on any buffer of the same size, and not only on the first frame, the delta of two frames succeeds and replaces exactly the cells in which they differ |
| Delta.RunsAreCompact | internal/client/asciivideo/codec.go:184-201 | the entries are well formed, in order and disjoint, carry exactly the cells that changed and each of them once, are cut only where a run reaches 0xffff cells, and take one byte a changed cell and six an entry |
| Delta.RunEnd | internal/client/asciivideo/codec.go:190-193 | a run is the maximal changed stretch, cut only at 0xffff cells |
| Delta.ParseEntry | internal/client/asciivideo/codec.go:195-198 | reading a written entry back, whatever follows it, finds exactly its start, its cells and the rest |
| Delta.MakeEntry | internal/client/asciivideo/codec.go:195-198 | the six-byte header and the copied cells, written into a fresh buffer |
| Delta.EncodeDelta | internal/client/asciivideo/codec.go:180-202 | the nested scanning loops compute the specified payload, empty for unequal lengths |
| Delta.ApplyDelta | internal/client/asciivideo/codec.go:204-219 | on an arbitrary payload the in-place loop terminates inside the buffer and leaves exactly the specified cells, also when it fails half way |
| Delta.ApplyPerformsWrites | internal/client/asciivideo/codec.go:204-219 | applying a payload succeeds if and only if every entry is well formed, whatever the buffer holds, and performs all writes before the first bad entry either way |
| Bytes.BigEndianOfUint | internal/client/asciivideo/codec.go:147-153 | every byte string is the one big-endian encoding of the number it denotes |
| Bytes.UintOfBigEndian | internal/client/asciivideo/codec.go:165-177 | a number that fits its field is read back unchanged |
| Bytes.Copy | internal/client/asciivideo/codec.go:144-154 | copying into a buffer replaces exactly the stretch and keeps both sides |
| Frame.UnmarshalMarshal | internal/client/asciivideo/codec.go:136-178 | whatever marshal accepts, unmarshal reads back as the same header fields and payload |
| Frame.MarshalUnmarshal | internal/client/asciivideo/codec.go:136-178 | whatever unmarshal accepts, marshalling the result reproduces byte for byte |
| Frame.HeaderIsCanonical | internal/client/asciivideo/codec.go:136-178 | a byte string is accepted as a packet if and only if it is what that packet marshals to: the 26-byte header has one encoding |
| Frame.MarshalFrame | internal/client/asciivideo/codec.go:136-156 | filling the buffer field by field produces the specified layout, or the specified error for bad dimensions or size |
| Wire.AcceptedIff | docs/ascii-frame-protocol.md:11-36 | a byte string is accepted as a frame if and only if it has 26 to 65536 bytes, begins with T, V and 1, names 1-200 columns, 1-80 rows, charset 1, color mode 0, and announces the size of its payload |
| Wire.SendableIff | internal/client/asciivideo/codec.go:136-143 | a packet is marshalled if and only if it has 1-200 columns, 1-80 rows and at most 65536 bytes in all |
| Wire.FieldsOnTheWire | docs/ascii-frame-protocol.md:11-36 | the offset, width, byte order and sign of every field of a frame sent |
| Wire.RunOnTheWire | internal/client/asciivideo/codec.go:195-198 | a delta entry is four bytes of start, two of length, and the cells |
| Wire.RunsAreRead | internal/client/asciivideo/codec.go:204-216 | a delta entry is read exactly when it is whole, not empty and inside the picture, and then as those fields |
| Wire.StampTellsTheTime | internal/client/asciivideo/codec.go:83-95 | the millisecond field denotes the captured instant, rounded down, for every time that fits 64 bits of milliseconds |
| Codec.EncodeMakesAFrame | internal/client/asciivideo/codec.go:67-95 | encoding fails exactly on a wrong cell count or an unprintable cell and then changes nothing; otherwise the frame reads back, is at most 26 + columns*rows bytes (below 64 KiB), the encoder remembers the cells, and a delta is strictly shorter than the keyframe it replaces |
| Codec.NewEncoder | internal/client/asciivideo/codec.go:55-63 | an encoder exists exactly for 1-200 columns and 1-80 rows, starts with a keyframe owed, and keeps the interval given, or two seconds for a non-positive one |
| Codec.Encoder.constructor | internal/client/asciivideo/codec.go:55-63 | the initial encoder, with the default interval in place of a non-positive one |
| Codec.Encoder.ForceKeyframe | internal/client/asciivideo/codec.go:65-65 | the next frame owes a keyframe and nothing else changes |
| Codec.Encoder.Encode | internal/client/asciivideo/codec.go:67-95 | fields and result are those of the specified encoder step, in every branch |
| Codec.SafeCells | internal/client/asciivideo/codec.go:74-78 | the scan answers whether all cells are printable ASCII |
| Codec.Decoder.Decode | internal/client/asciivideo/codec.go:105-134 | fields, cell buffer and result are those of the specified decoder step, in every branch and after every failure |
| Codec.DecodeIsSafe | internal/client/asciivideo/codec.go:105-134 | on arbitrary bytes a returned picture is printable and of the size it claims; a failed call leaves sequence and dimensions alone, and one that asks for a keyframe leaves everything alone |
| Codec.FailedDecodeCanChangeCells | internal/client/asciivideo/codec.go:112-131 | Decode is not atomic: a keyframe of one escape character is rejected, and the decoder holds that character afterwards |
| Atomicity.FailedDecodeIsAtomicIff | internal/client/asciivideo/codec.go:105-134 | a failed call leaves the decoder as it was, unless the header is accepted, the guards before the cells are passed and the cells written differ from those held |
| Atomicity.FailedDecodeSpoilsIff | internal/client/asciivideo/codec.go:105-134 | a call fails and changes the decoder if and only if the frame is a keyframe of the right size with an unprintable cell, unlike the picture held, or the next delta whose runs alter a cell before a malformed one or leave an unprintable cell |
| Atomicity.KeyframeSpoilsIff | internal/client/asciivideo/codec.go:112-131 | the condition for keyframes alone |
| Atomicity.DeltaSpoilsIff | internal/client/asciivideo/codec.go:117-131 | the condition for deltas alone |
| Atomicity.DecodesIff | internal/client/asciivideo/codec.go:105-134 | the decoder in full: a frame decodes if and only if its header is accepted and it is a keyframe of one printable character a cell, or the next delta on a picture of its dimensions that is well formed and leaves printable cells; what picture it makes, cell by cell, what the decoder then holds, and which error every other frame gets |
| Atomicity.NextDeltaAfterFailure | internal/client/asciivideo/codec.go:117-133 | after a failed call that kept the number of cells the next genuine delta decodes exactly when the result is printable, and the picture is the captured one if and only if the delta rewrites every spoilt cell |
| Atomicity.HalfAppliedDeltaShows | internal/client/asciivideo/codec.go:117-133 | on every one-row picture of at least eight cells a delta that breaks off after its first run is rejected, and the genuine delta after it decodes to a picture that was neither shown before nor captured |
| Codec.AbsorbDelta | internal/client/asciivideo/codec.go:117-133 | a delta made from the cells the decoder holds decodes to the new cells exactly when it is the next frame, and otherwise asks for a keyframe without a change |
| Stream.TransmitIsSound | internal/client/asciivideo/codec.go:67-95 | over every run of Encode and ForceKeyframe calls, frame i carries sequence number i+1 modulo 2^32 and is either all its cells or the delta from frame i-1 |
| Stream.StreamTheorem | internal/client/asciivideo/codec.go:67-134 | for fewer than 2^32 frames under any loss, duplication and reordering: a call that succeeds with sequence s returns exactly the s-th captured picture, every failure is a request for a keyframe, and success happens exactly for a keyframe or the successor of the last frame decoded |
| Stream.DeliverOne | docs/ascii-frame-protocol.md:37-39 | one delivery decodes if and only if it is a keyframe or one after the frame held; otherwise the receiver asks for a keyframe and does not move |
| Stream.LosslessDeliveryNeverFails | internal/client/asciivideo/codec.go:67-134 | delivered completely and in order, every frame decodes to its picture |
| Stream.KeyframesAreFrequent | internal/client/asciivideo/codec.go:83-88 | over every run a delta goes out only while the latest keyframe is younger than the interval (two seconds by default) |
| Cadence.KeyframeDistance | docs/ascii-frame-protocol.md:39-40 | two keyframes in a row are as far apart as their captures; otherwise the distance is less than the interval and the pause before the later one together |
| Cadence.KeyframesWithinIff | docs/ascii-frame-protocol.md:39-40 | over every run keyframes are at most the interval apart if and only if no picture is captured later than that after the latest keyframe |
| Cadence.SteadyKeyframesWithinIff | docs/ascii-frame-protocol.md:39-40 | a camera with a steady period sends its keyframes exactly one stride apart, the first number of periods that fills the interval, so the promise is kept if and only if the period divides the interval or the run ends before a second keyframe |
| Cadence.PromiseBroken | docs/ascii-frame-protocol.md:39-40 | an instance: with a picture every one and a half seconds and the default interval, keyframes are three seconds apart |
| Stream.RequestedKeyframeRepairs | internal/client/asciivideo/codec.go:83-95 | after a request for a keyframe the next captured picture decodes to its cells on a decoder in any state |
| Gray.ConvertDepicts | internal/client/asciivideo/convert.go:3-21 | conversion succeeds exactly for a buffer of matching size, and then for every row and column the cell is the character numbered d of the literal character set, where d is the mean of the pixels at rows 2*row and 2*row+1 of that column, scaled from 255 to 22 and rounded down |
| Gray.DensityFollowsBrightness | internal/client/asciivideo/convert.go:14-17 | brighter pixels never print a lighter character, black prints a blank and only full brightness the densest character |
| Gray.FromGray | internal/client/asciivideo/convert.go:7-21 | the loops compute the specified picture for a buffer of matching size and fail exactly on a mismatch; every cell of the result shows its two pixels; two negative dimensions that pass the size test give zero bytes |
| Gray.ConvertRows | internal/client/asciivideo/convert.go:12-19 | the row loop fills the result with the specified rows |
| Gray.ConvertRow | internal/client/asciivideo/convert.go:13-18 | the column loop writes one row and touches nothing else |
| Gray.ConvertedPictureEncodes | internal/client/app/app.go:474-484 | a converted picture is always accepted by an encoder of its dimensions, in a frame below 64 KiB, and a delta is strictly shorter than the keyframe |
| Terminal.FeedConcat | internal/client/terminal/terminal.go:212-254 | the meaning of the terminal's byte stream does not depend on how it is cut into writes |
| Terminal.FeedMoveTo | internal/client/terminal/terminal.go:236-236 | the printed cursor movement, decimal digits and all, puts the cursor at exactly that row and column and changes nothing else |
| Terminal.FeedText | internal/client/terminal/terminal.go:237-237 | printable text that fits the line overwrites exactly its cells |
| Render.DrawLine | internal/client/terminal/terminal.go:221-238 | on a line that shows anything at all, the stretches written for it put the new cells where the two pictures differ (or everywhere in a complete redraw) and leave every other cell and the rest of the screen untouched |
| Render.RedrawDraws | internal/client/terminal/terminal.go:215-254 | a redraw, incremental or complete, changes the viewport to the picture and nothing else, and the cursor is back where it was |
| Render.UpdateDraws | internal/client/terminal/terminal.go:215-254 | the rendering law: from a viewport showing the previous frame (or anything, if the dimensions changed) the update leaves exactly the new cells, each at its row and column, everything outside as it was and the cursor restored, on both paths |
| Render.RedrawPatches | internal/client/terminal/terminal.go:215-254 | a redraw fed to any screen changes exactly the cells it redraws and the saved cursor position |
| Render.OnlyChangesAreWritten | internal/client/terminal/terminal.go:221-241 | an incremental update rewrites no unchanged cell: fed to any screen at all it puts the new cells where the pictures differ and leaves everything else |
| Render.UpdateLength | internal/client/terminal/terminal.go:215-254 | the exact length of every update: 6 bytes, one a changed cell and a cursor move a stretch when the dimensions agree and that is within the bound, and the complete redraw otherwise |
| Render.UpdateIsBounded | internal/client/terminal/terminal.go:215-254 | for 1 to 9,999,999 rows the update has at most len(cells) + 12*rows bytes whichever path is taken, the full redraw that skips the test included |
| Render.RenderLine | internal/client/terminal/terminal.go:222-238 | the column loops append exactly the stretches of one line |
| Render.RenderChanges | internal/client/terminal/terminal.go:219-240 | the row loop writes exactly the specified redraw |
| Render.RenderWhole | internal/client/terminal/terminal.go:247-253 | the fallback loop writes exactly the complete redraw |
| Render.RenderVideoUpdate | internal/client/terminal/terminal.go:215-254 | the method chooses and writes exactly the specified update |
| Video.ScreenShowsMemory | internal/client/terminal/terminal.go:195-213 | over every run of RenderVideo calls the screen shows exactly the remembered picture, cell by cell, cells outside the viewport are untouched and the cursor has not moved |
| Video.DrawKeepsScreen | internal/client/terminal/terminal.go:198-213 | one call keeps screen and memory in agreement; an unsuitable picture writes nothing and changes nothing |
| Video.UI.RenderVideo | internal/client/terminal/terminal.go:198-213 | an interactive UI writes the specified bytes and remembers the picture; any other writes nothing |
| Pipeline.ScreenShowsACapturedFrame | internal/client/app/app.go:474-516 | end to end: for every camera run and every loss, duplication and reordering, the frames sent are one for one the shots that suit the encoder, and the viewport shows, cell by cell, the conversion of one of them (the last frame that decoded); the rest of the screen and the cursor are as they were; before the first frame decodes nothing is written |
| Pipeline.EveryShotIsSent | internal/client/app/app.go:474-484 | the frames sent are, one for one and in order, the shots whose pixels fit their dimensions and whose number of cells is the encoder's; each carries the cells that show its shot's pixels, and its moment |
| Pipeline.SenderSteps | internal/client/app/app.go:474-484 | one more camera event: a shot that suits puts exactly one frame on the channel, a keyframe if one is owed, and anything else puts none and forgets no request |
| Pipeline.RequestMakesAKeyframe | internal/client/app/app.go:603-606 | after a request the next frame sent is a keyframe, however many unsuitable shots come first |
| Pipeline.LosslessViewShowsTheLastShot | internal/client/app/app.go:474-516 | delivered completely and in order, the viewport shows the pixels of the last shot that suits, and nothing else on the screen has changed |
| Pipeline.SentWasCaptured | internal/client/app/app.go:474-484 | every frame sent carries the conversion of some camera shot |
| Pipeline.WatchingDraws | internal/client/app/app.go:500-516 | decoder, UI memory and screen agree after every delivery |
| Sanitize.OutputIsClean | internal/client/terminal/terminal.go:289-313 | for every byte string the output is valid UTF-8 whose characters are tab or neither control nor format characters |
| Sanitize.UnchangedIffClean | internal/client/terminal/terminal.go:291-313 | a string is left alone if and only if it was clean already |
| Sanitize.SanitizeIsIdempotent | internal/client/terminal/terminal.go:291-313 | sanitizing twice is sanitizing once |
| Sanitize.OutputIsBounded | internal/client/terminal/terminal.go:291-313 | the output is at most eight times as long as the input |
| Escapes.ReadsBackIff | internal/client/terminal/terminal.go:289-313 | a reader of the four escapes recovers the input byte for byte if and only if nothing in it looks like an escape, and gets something shorter otherwise |
| Escapes.ReadsBack | internal/client/terminal/terminal.go:291-313 | the induction behind it, over every input |
| Escapes.EscapedPiece | internal/client/terminal/terminal.go:298-307 | every escape written, whatever follows it, names exactly the bytes it replaces |
| Escapes.SameFront | internal/client/terminal/terminal.go:308-309 | a backslash of the input starts an escape of the output exactly when it starts one of the input |
| Escapes.SanitizeIsInjective | internal/client/terminal/terminal.go:291-313 | two inputs in which nothing looks like an escape are shown alike only if they are the same |
| Escapes.TwoLookTheSame | internal/client/terminal/terminal.go:302-303 | an instance of the other kind: a line feed, and a backslash with the letter n |
| Sanitize.SanitizeText | internal/client/terminal/terminal.go:291-313 | the consuming loop terminates with exactly the specified output |
| Utf8.DecodeEncode | internal/client/terminal/terminal.go:295-295 | decoding finds every encoded character, whatever follows it |
| Utf8.EncodeDecode | internal/client/terminal/terminal.go:295-309 | whatever decodes as well-formed re-encodes to the bytes consumed: no second encoding of a character is accepted |
| Calls.ReachableIsSound | internal/server/calls/manager.go:97-252 | in every reachable table a user is marked with a call exactly when the call is not finished and the user is its caller or callee; deadlines, cleanup times and candidate counts fit the states |
| Calls.InvitedIffFree | internal/server/calls/manager.go:97-120 | over every run an invitation succeeds if and only if it is between two different users in no unfinished call, under an id not on file |
| Calls.NobodyInTwoCalls | internal/server/calls/manager.go:103-118 | nobody takes part in two unfinished calls |
| Calls.FinishRemovesOwnMarkers | internal/server/calls/manager.go:247-252 | finishing a call removes exactly the two markers that name it and no other call's |
| Calls.DisconnectEndsTheUsersCall | internal/server/calls/manager.go:215-229 | disconnecting finds an unfinished call behind every marker (so the defensive branch is never taken), ends exactly that one and leaves the user in none |
| Calls.ExpireIsExact | internal/server/calls/manager.go:196-213 | a sweep times out exactly the unfinished calls with a deadline at or before now, forgets exactly the finished ones past their cleanup time, leaves the rest alone and frees exactly the participants of what timed out |
| Calls.SweepVisits | internal/server/calls/manager.go:200-211 | visiting one more call extends the sweep of any set of visited calls: the order does not matter |
| Calls.TransitionMoves | internal/server/calls/manager.go:122-194 | a signal changes only its own call, never revives one, never changes its participants, and takes it past RINGING without ending it only as the callee's accept |
| Calls.OnlyBetweenParticipants | internal/server/calls/manager.go:125-132 | an accepted signal goes from one participant of an unfinished call to the other, and both are marked with that call |
| Calls.AdvanceKeeps | internal/server/calls/manager.go:134-193 | a signal is accepted only for an unfinished call and leaves deadline, cleanup time and budgets fitting the new state |
| Calls.IceKeepsDeadline | internal/server/calls/manager.go:167-184 | ICE traffic changes a counter and a timestamp, never a state or a deadline |
| Calls.OnlyExpireEnforcesDeadlines | internal/server/calls/manager.go:122-213 | the clock decides neither whether a signal is accepted, nor its error, nor what becomes of the call but for its times; a sweep at or after the deadline ends the call (Calls.ExpireIsExact says what else it does, CallTrace.AcceptedIffPermitted what is accepted) |
| Manager.Record.Set | internal/server/calls/manager.go:241-245 | state, timestamp and deadline are set through the pointer, nothing else |
| Manager.Manager.constructor | internal/server/calls/manager.go:80-95 | an empty table with non-positive durations replaced by 45, 30 and 60 seconds |
| Manager.Manager.Invite | internal/server/calls/manager.go:97-120 | maps and result are those of the specified invitation, errors in the source's order |
| Manager.Manager.FinishRecord | internal/server/calls/manager.go:247-252 | the record's final state and the removal of its two markers |
| Manager.Manager.AdvanceRecord | internal/server/calls/manager.go:134-193 | the switch on the message type, mutating the record, does what the specification says and nothing after an error |
| Manager.Manager.Transition | internal/server/calls/manager.go:122-194 | maps, records and result are those of the specified transition |
| Manager.Manager.VisitRecord | internal/server/calls/manager.go:200-211 | one iteration of the sweep does what the specified visit does |
| Manager.Manager.Expire | internal/server/calls/manager.go:196-213 | deleting while iterating in any order ends in the specified table and reports exactly the calls that timed out, each once |
| Manager.Manager.Disconnect | internal/server/calls/manager.go:215-229 | maps, records and result are those of the specified disconnection |
| Manager.Manager.Get | internal/server/calls/manager.go:231-239 | a lookup answers with the stored call |
| CallTrace.EveryConversationIsLegal | internal/server/calls/manager.go:122-194 | over every run the signals accepted for a call are one refusal, or one accept by the callee first, then caller offers and callee answers strictly alternating from an offer, ICE in between, and nothing after the one that ends the call; candidates of each side total at most 256*(1 + offers accepted while connected) |
| CallTrace.AcceptedIffPermitted | internal/server/calls/manager.go:122-194 | over every run a participant's signal to the other gets through if and only if the call has not ended and the signals accepted so far permit it next, the 256 candidates of each side since the latest restart included |
| CallTrace.DeadlinesAreExact | internal/server/calls/manager.go:97-252 | over every run a ringing call is due one ring timeout after its creation, one in negotiation the negotiation timeout after the latest accept or offer whatever ICE came since, a connected one never; a finished one is kept for the cleanup time from its end (CallHistory.TimesAreHistory ties creation to the invitation) |
| CallHistory.RunTells | internal/server/calls/manager.go:97-252 | over every run the table is exactly what the histories call for: each call's invitation, accepted signals and end determine its record (state, times, deadline, cleanup time and counters), and what is on file is what was invited and not yet swept away |
| CallHistory.TimesAreHistory | internal/server/calls/manager.go:110-118 | a call is created at its invitation and rings until the ring timeout after it; an unfinished one was updated at its latest accepted signal, or its invitation when there is none; a finished one at its end |
| CallHistory.InviteAnswers | internal/server/calls/manager.go:97-120 | over every run an invitation is answered as the histories say, error for error |
| CallHistory.SignalAnswers | internal/server/calls/manager.go:122-194 | over every run a signal is answered as the histories say, error for error, and with the same record |
| CallHistory.DisconnectIsExact | internal/server/calls/manager.go:215-229 | a disconnection ends every unfinished call of the user and touches no other |
| CallTrace.AdvanceFollows | internal/server/calls/manager.go:134-193 | one accepted signal extends a legal conversation to a legal one within budget |
| CallTrace.FinishedCallsAreSilent | internal/server/calls/manager.go:122-194 | a finished or forgotten call accepts nothing until its id is invited again |
| CallTrace.TracingOnlyWatches | internal/server/calls/manager.go:97-229 | recording the accepted signals does not change the table |
| Presence.OwnersOnly | internal/server/presence/registry.go:27-51 | a free username is taken for the session and a taken one changes nothing; leaving undoes joining, and a connection that was refused or is not the owner cannot take anyone offline |
| Presence.Registry.Join | internal/server/presence/registry.go:27-36 | a taken username is refused, otherwise exactly that entry is added |
| Presence.Registry.Get | internal/server/presence/registry.go:38-43 | a lookup answers with the registered endpoint |
| Presence.Registry.Leave | internal/server/presence/registry.go:45-51 | only the same endpoint removes its entry |
| Server.EveryRunKeeps | internal/server/websocket/server.go:197-389 | under every interleaving of the locked sections of serve, dispatch, disconnect and sweepLoop the call table stays sound, the registry names exactly the sessions online, and every unfinished call is held by the session that invited it and, once accepted, by the one that accepted it |
| ServerCalls.TableIsIssued | internal/server/websocket/server.go:197-389 | over every run the server's call table is that of the operations its steps issue, each signal of a serving session among them, in order |
| ServerCalls.ServerTells | internal/server/websocket/server.go:197-389 | so over every run each call on the server's file is what its invitation, the signals accepted since and its end make of it |
| ServerCalls.AcceptIsHeard | internal/server/websocket/server.go:315-330 | the callee's accept from a serving session makes a ringing call ACCEPTED with the negotiation timeout ahead, that session its acceptor, and nothing else different |
| ServerCalls.EndIsHeard | internal/server/websocket/server.go:315-330 | a permitted decline, cancel or end leaves the call in its own final state, both users free and everybody else as they were |
| ServerCalls.OtherSignalsChangeNothing | internal/server/websocket/server.go:315-330 | what is not relayed, or comes from a session that does not serve, changes nothing |
| ServerCalls.InvitationRings | internal/server/websocket/server.go:290-313 | an invitation to somebody online, both of them free and its id new, is on file ringing, with both users marked, once delivered |
| ServerCalls.InvitationRefused | internal/server/websocket/server.go:290-308 | nobody is called who is offline, and a refused invitation leaves the server as it was |
| ServerCalls.ComesOnline | internal/server/websocket/server.go:233-240 | a free username is registered and served; a taken one turns the connection away |
| ServerCalls.GoesOffline | internal/server/websocket/server.go:355-372 | a session that closes takes its user off the registry, ends exactly the user's calls and is gone |
| Server.NoCallOutlivesItsSessions | internal/server/websocket/server.go:355-372 | once a session has run calls.Disconnect, no unfinished call is left that it invited, nor one past RINGING that it accepted |
| Server.RingingCallsAreFreed | internal/server/websocket/server.go:374-389 | a RINGING call carries a deadline whether or not its callee is still there, and the first sweep at or after it ends the call and frees both users |
| Server.NothingIsLeft | internal/server/websocket/server.go:197-389 | when every session is gone there is no unfinished call, nobody is busy and nobody is online |
| Server.OneSessionPerUser | internal/server/websocket/server.go:233-236 | a username is online through at most one session, and the owner check at leaving never fails |
| Server.HangUpKeeps | internal/server/websocket/server.go:355-372 | a session that leaves after its user's call was ended holds no unfinished call |
| Server.AcceptHeld | internal/server/websocket/server.go:315-322 | an accepted call becomes held by the session that accepted it |
| Server.InviteHeld | internal/server/websocket/server.go:303-308 | a placed call is held by the session that placed it |
| Delivery.UndoEndsTheInviteesCall | internal/server/websocket/server.go:303-313 | undoing an undelivered invitation leaves its call over and ends exactly the unfinished call its invitee is in: the placed one as long as it is live, and otherwise the one the invitee has got into since |
| Reconnect.UndoCanEndAnotherCall | internal/server/websocket/server.go:309-313 | that other case is reachable: the invitee's session closes and hangs up, the user reconnects and calls back, and the undoing ends the new call |
| Reconnect.HangUpEndsTheUsersCall | internal/server/websocket/server.go:360-370 | a session that hangs up ends exactly the unfinished call its user is in; that is a call it takes no part in if and only if the user is marked with such a call, which then still rings for the user or is held by another session of the same user |
| Reconnect.HangUpCanEndAnotherCall | internal/server/websocket/server.go:360-370 | that case is reachable: a user who reconnects and calls between Unregister and calls.Disconnect of the old session loses the new call to it |
| Daemon.ClaimedCallsAreOwned | internal/client/daemon/daemon.go:219-419 | under every interleaving a claimed call has a session, every session belongs to a window attached to that very call that has not yet released it, without a signal there is nothing pending and no session, and clearSignal's guard never turns the signaling goroutine away |
| Daemon.ReplacedWindowChangesNothing | internal/client/daemon/daemon.go:300-391 | a step of a window whose session went elsewhere changes the daemon's state if and only if it is the removal after a decline or end it had sent while something is pending under that id; its release changes nothing |
| Daemon.LateDeclineWithdraws | internal/client/daemon/daemon.go:336-358 | that exception is reachable: when a call id comes back, a window still attached to the first call can withdraw the second, already claimed by another window |
| Daemon.ReplacedForGood | internal/client/daemon/daemon.go:300-391 | a replaced window never gets a session again |
| Daemon.OwnersReleaseReopens | internal/client/daemon/daemon.go:382-391 | the owner's release frees its call: the next window that asks gets it exactly when it is still pending |
| Daemon.ClaimIsExclusive | internal/client/daemon/daemon.go:312-323 | until the call ends, the connection is lost, a decline or end is recorded or the owner lets go, a claim stays with its window and every other window that asks is turned away |
| Daemon.SpeaksForItsCallIff | internal/client/daemon/daemon.go:332-359 | as long as a window is attached, sending included, it owns the session of its call if and only if, since it was handed the call, the connection has not been lost, the call has not ended and no other window has been handed it |
| Daemon.SendsForAnother | internal/client/daemon/daemon.go:342-350 | nothing compares the session with the window before sending: a window can be sending for a call that another has claimed |
| Daemon.AnnouncedIsAnswerable | internal/client/daemon/daemon.go:263-283 | an invitation is announced if and only if it is new and the first window that asks for it gets it; otherwise nothing changes |
| Invitations.OutcomeIsExact | internal/client/daemon/daemon.go:261-283 | for every nondecreasing clock an invitation is a duplicate exactly when its id is pending, and otherwise announced if and only if the daemon may be disturbed, does not ignore calls and has admitted fewer than the limit of this caller's earlier invitations in (now-window, now]; what is announced is pending under its caller's name, and anything else leaves the daemon as it was |
| Invitations.AnnouncementsAreLimited | internal/client/daemon/daemon.go:253-283 | over every run no window of the configured length holds more announced invitations of one caller than the limit |
| Windows.OnlyTheCallerIsAddressed | internal/client/daemon/daemon.go:332-380 | over every run, whatever is sent for a window was said by it while attached to the call and addressed to the caller of that call while pending, and was let through on the daemon's connection of that moment; a call is dropped only after a decline or end that went this way |
| Windows.MessageIsHandled | internal/client/daemon/daemon.go:332-380 | undisturbed, a message to the caller of a pending call is sent and leaves everything as it was, a decline or end withdraws exactly that call and its window is gone, and any other message does nothing |
| Windows.EveryWayOut | internal/client/daemon/daemon.go:328-350 | a window that hangs up, whose message cannot be let through or cannot be sent, lets go of its call and of nothing else |
| Daemon.SilentDaemonHoldsNothing | internal/client/daemon/daemon.go:265-267 | over every run a daemon that ignores calls or must not be disturbed has nothing pending and no session |
| Daemon.Service.Invited | internal/client/daemon/daemon.go:261-268 | the locked section of handleInvite updates the caller's log first, takes its answer and then files the invitation unless it is a duplicate, refused or unwanted; other callers' logs are untouched and everything it allocates is fresh |
| Daemon.Service.Signalled | internal/client/daemon/daemon.go:239-245 | the recipient is the session before a terminal signal removes call and session |
| Daemon.Service.TryAttach | internal/client/daemon/daemon.go:312-323 | a call is handed over exactly when it is pending, unclaimed and the daemon connected |
| Daemon.Service.Route | internal/client/daemon/daemon.go:342-348 | a window's message goes out only while its call is pending and on the current connection |
| Daemon.Service.Forgotten | internal/client/daemon/daemon.go:353-358 | a decline or end removes the pending call and keeps the session |
| Daemon.Service.Released | internal/client/daemon/daemon.go:382-391 | only the owner's release removes the session and unclaims the call |
| Daemon.Service.Connected | internal/client/daemon/daemon.go:393-398 | the signal is set, nothing else changes |
| Daemon.Service.Disconnected | internal/client/daemon/daemon.go:400-419 | the current connection's loss empties both maps and tells every session; any other connection's changes nothing |
| RateLimit.SharingIsInvisible | internal/server/websocket/ratelimit.go:36-55 | for every nondecreasing clock and interleaving of keys the shared limiter, which sweeps all keys on each call, answers exactly as one limiter per key |
| RateLimit.EachWindowHoldsTheLimit | internal/server/websocket/ratelimit.go:57-69 | in each window at most limit calls are allowed, and the counter is exactly how many |
| RateLimit.AllowedIff | internal/server/websocket/ratelimit.go:57-69 | a call is allowed if and only if fewer than the limit have been since its window began, a window beginning with the first call at least its length after the beginning of the one before |
| RateLimit.SharedAllowedIff | internal/server/websocket/ratelimit.go:36-55 | and so, for each key, on the shared limiter |
| RateLimit.TwiceTheLimit | internal/server/websocket/ratelimit.go:57-69 | no closed interval of one window's length lets more than 2*limit calls through |
| RateLimit.TwiceTheLimitIsReached | internal/server/websocket/ratelimit.go:57-69 | and for every limit of at least one and every window that many do get through: a burst at the start of one window and another at the first instant after it |
| RateLimit.SharedTwiceTheLimit | internal/server/websocket/ratelimit.go:36-55 | the same bound holds for each key of the shared limiter |
| RateLimit.FixedWindowLimiter.AllowNow | internal/server/websocket/ratelimit.go:57-69 | fields and answer are those of the specified call |
| RateLimit.KeyedFixedWindowLimiter.AllowNow | internal/server/websocket/ratelimit.go:36-55 | sweeping in any order, then counting, ends in the specified map and answer |
| InviteLog.AdmissionIsExact | internal/client/daemon/daemon.go:421-435 | for every nondecreasing clock a call is admitted if and only if fewer than the limit of earlier calls of that caller were admitted in (now-window, now], although the log forgets older ones |
| InviteLog.NoWindowOverflows | internal/client/daemon/daemon.go:421-435 | no window of the configured length, wherever it ends, holds more admissions of one caller than the limit |
| InviteLog.LogIsRecent | internal/client/daemon/daemon.go:421-435 | a caller's log is its full admission history less what some past cutoff dropped |
| InviteLog.Compact | internal/client/daemon/daemon.go:423-428 | filtering the slice over its own front while ranging over it keeps exactly the recent entries in order |
| InviteLog.AdmitSlice | internal/client/daemon/daemon.go:422-434 | the slice and the answer are those of the specified admission, appending in place or in a grown copy |
| InviteLog.InviteLimiter.AllowInvite | internal/client/daemon/daemon.go:421-435 | one caller's log is updated as specified and every other caller's is untouched |
| ReplayGuard.MapIsTheLiveProofs | internal/identity/trust.go:230-250 | for every nondecreasing clock, before each lookup the map is exactly the accepted proofs whose expiry is after now |
| ReplayGuard.AcceptedOnceBeforeExpiry | internal/identity/trust.go:230-250 | a pair accepted once is refused at every time before its first accepted expiry |
| ReplayGuard.RefusalHasAReason | internal/identity/trust.go:241-248 | a refusal means that the guard is full or that this very pair was accepted and is still live; no other pair stands in the way |
| ReplayGuard.KeyIsInjective | internal/identity/trust.go:241-241 | fingerprint, NUL and nonce name one pair |
| ReplayGuard.NeverOverCapacity | internal/identity/trust.go:245-248 | the map never exceeds 65536 entries |
| ReplayGuard.ForgottenAtExpiry | internal/identity/identity.go:181-183 | together with Verify's time test, a proof presented again is accepted a second time if and only if the clock has reached its expiry when the guard looks, the guard has room and the pair was not also accepted with another expiry that is still ahead |
| ReplayGuard.SecondAcceptanceIsAtExpiry | internal/identity/identity.go:181-183 | a proof accepted twice was verified no later than, and guarded no earlier than, its expiry |
| ReplayGuard.AcceptedTwiceAtExpiry | internal/identity/trust.go:236-240 | that instant exists: a concrete proof is accepted twice at its expiry |
| ReplayGuard.Guard.AcceptProof | internal/identity/trust.go:230-250 | sweeping in any order, then inserting, ends in the specified map and answer |
| DuplicateFilter.DuplicateIffRecent | internal/server/websocket/server.go:535-549 | over every history an id is reported a duplicate if and only if it is among the last seenLimit admitted ids, and no more are remembered |
| DuplicateFilter.MemoryIsTheLatest | internal/client/peer/peer.go:769-783 | set and queue always hold the same distinct ids, exactly the latest admitted ones in order |
| DuplicateFilter.Filter.Seen | internal/client/peer/peer.go:769-783 | set, queue and answer are those of the specified observation |

## Left out

- Stream.StreamTheorem: stated for fewer than 2^32 frames of one encoder; after the sequence number wraps, an old delta can meet a decoder that holds its predecessor's number.
- Cadence.SteadyKeyframesWithinIff: a steady camera whose pictures change little enough to be sent as deltas and that is never asked for a keyframe; larger changes and requests only add keyframes, as KeyframeDistance and KeyframesWithinIff cover.
- Render.UpdateIsBounded: beyond 9,999,999 rows a line number has more digits than the bound allows for; the protocol stops at 80 rows.
- Render.RenderVideoUpdate: requires at least one column, which its only caller has tested.
- Video.ScreenShowsMemory: the screen is at least as large as the viewport and only video is written to it; chat lines that scroll the viewport, the prompt and resizing are not part of this model.
- Terminal.FeedMoveTo: the emulator knows only the control functions the renderer uses and ignores all others.
- Utf8.DecodeEncode: decoding one malformed byte at a time is the behaviour of Go's utf8 package, which is not part of the repository.
- Sanitize.OutputIsClean: the Unicode table of format characters is a parameter, any predicate that is false on printable ASCII.
- ReplayGuard.Guard.AcceptProof: signatures, key encodings and fingerprints are opaque.
- Codec.Encoder.Encode: the remembered picture is a value; that Go reuses its backing array is not visible, since the array never leaves the encoder.
- Codec.Decoder.Decode: a keyframe allocates a new cell buffer where Go may reuse the old one; callers receive a copy either way.
- Server.EveryRunKeeps: identity proofs, rate limits and duplicate suppression appear as steps that may not happen; server shutdown deliberately skips the cleanup of calls and is excluded; goroutine scheduling and real-time liveness are not stated.
- Server.NoCallOutlivesItsSessions: says nothing of a RINGING call whose callee has gone; RingingCallsAreFreed covers it.
- Presence.Registry.Join: endpoints are objects with a number for identity; closing all of them at shutdown is left out.
- Daemon.Service.Invited: verifying an invitation's identity proof before the lock is left out; a failed one declines without touching the state.
- Daemon.ClaimedCallsAreOwned: the broadcast of a session error reads the sessions and changes nothing, so it is not a step; reconnect delays are left out.
- Pipeline.ScreenShowsACapturedFrame: when the viewer asks for a keyframe, and that it asks once until one has decoded (app.go:501-514), is left out; what a request does to the sender is Pipeline.RequestMakesAKeyframe.
- ServerCalls.AcceptIsHeard: handing an accepted signal on to the other participant's queue is not part of the server's state here.
- Wire.StampTellsTheTime: a capture time whose milliseconds do not fit 64 bits, 292 million years away, wraps.
- WebSocket, Unix socket, HTTP, WebRTC, media processes, raw terminal mode and the line editor: library and system calls.
- TrustStore, identity files, profiles, command lines, access keys and TURN credentials: file I/O or single-branch checks.
- Field-by-field message validation and address syntax: each is true by reading one branch.
