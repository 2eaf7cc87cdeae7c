# A verified model of the Liaozhai MUX front end

Liaozhai MUX serves a telnet login: bytes arrive, telnet commands are stripped, lines are split
off, a session asks for a name, a password and a world, and a rate limiter shared by all
connections turns away addresses that fail too often. This project models that front end in
Dafny and proves what it keeps, layer by layer and then as a whole.

| file | what it holds |
|---|---|
| `Transducer.dfy` | telnet command stripping as a pure transducer, its streaming law, where a subnegotiation ends, and the exact condition under which text may be stripped twice |
| `Decoder.dfy` | line splitting, one `decode` and one `decode_eof` call as functions on values, the frames of a whole stream, and what draining one buffer yields |
| `Chunking.dfy` | the decoder yields the lines of the stream, however it is read, and exactly when |
| `Resync.dfy` | recovery from overlong lines, bounds every run keeps, and how often one call runs its body |
| `Wire.dfy` | lines as a client sends them, and that they arrive unchanged |
| `Restripping.dfy` | what stripping kept text again does to it, and exact theorems for any bytes, in one read and in many |
| `Streams.dfy` | concrete streams on which it shows how they are read |
| `Codec.dfy` | the buffer, the codec and the framed reader as objects that work in place, tied to the functions above |
| `Text.dfy`, `Registry.dfy`, `Session.dfy` | trimming and numerals, validation of the world list, the session state machine |
| `Connection.dfy` | the connection loop as a step relation, with its invariants over whole runs |
| `RateLimiter.dfy` | the limiter object, and its agreement with a history that is never pruned |
| `Handler.dfy` | the connection loop as it runs over reader, session and limiter objects |
| `Server.dfy` | accept loop, tasks and shared limiter as interleaved steps |
| `EndToEnd.dfy` | codec, connection and limiter composed, and a login from bytes to world |
| `Wrappers.dfy` | the optional values used everywhere |

## How to read the model

- Bytes are numbers below 256. A line stays a sequence of bytes until `Handler.InputOf` applies a
  function `text` from bytes to strings, which stands for lossy UTF-8 decoding.
- A read is a nonempty piece of the stream. The theorems also admit empty pieces, which change
  nothing.
- A connection is a sequence of turns. Each turn has an input and an environment, which decides
  whether shutdown was seen, what `verify_credentials` answers, and which writes succeed. Writes
  append to a transcript. A failed write appends nothing.
- Time is clock readings handed to the limiter: two for each prune, since the subtraction of the
  window from a clock that is younger than the window falls back to a second reading, and one
  for the failure pushed. The theorems say where the fallback matters. Ties in the search for the oldest entry are broken arbitrarily.
- Tables pin what the functions do by byte value, by input and by the store's answer, in terms
  that do not mention the functions they describe; the larger theorems then speak of the code
  those tables describe.
- The server is a state machine whose events interleave freely. A limiter method is one step,
  as its lock makes it. A turn of a connection is one step, since it touches the limiter at most
  once; whether its poll had passed the shutdown check before is part of the state.

## Results where the code keeps less than it seems to promise

- `decode` strips its whole buffer on every call, so text it has stripped and kept is stripped
  again: the text kept at the end of a read, and already within one read everything behind its
  first line. An escaped IAC in such text is lost, and so is text in front of an open
  subnegotiation. `Restripping.SingleReadExact` says for every stream read at once when it
  decodes right, `Restripping.EveryPrefixExact` says so for any reads that keep CR LF together
  and a stream that may end after each of them, and `Transducer.RestripExact` says which kept
  text survives whatever follows. `Streams.dfy` holds concrete streams, among them two that show
  why the second theorem looks at every end and leaves out cuts between CR and LF: an error can
  by chance be made good by a later one.
- A read boundary between CR and LF adds an empty line, since a lone CR ends a line at once.
  `Restripping.CrLfCutExact` shows that for short plain text nothing else does, however many
  reads there are.
- A line is measured together with a cut-off command behind it, at every read boundary. For
  streams with no escaped IAC and no subnegotiation `Chunking.PlainStreamDecodes` gives the exact
  condition on each boundary. Two bytes of room below max_line_length always suffice
  (`Chunking.RoomSuffices`), and without them a line can be rejected
  (`Streams.RoomForACutOffCommandIsNeeded`).
- The comment on the limiter says its map is bounded at max_entries. A recorded failure exceeds
  that exactly when its IP is new, the map is full and every stored deque has been emptied by
  checks (`RateLimiter.CapacityExact`); `RateLimiter.EmptiedEntryBreaksTheBound` is such a run. In
  every run the map holds no more IPs than the larger of max(1, max_entries) and one more than the
  number of checks that emptied a deque (`RateLimiter.CapacityBound`).
- Pruning with a clock younger than the window falls back to a second clock reading and discards
  failures that are inside the window. `RateLimiter.YoungClockExact` says exactly when it does
  not, and `RateLimiter.PruningIsAFloor` says what a check answers at any age of the clock.

## Model

| member | source | states |
|---|---|---|
| Transducer.StripAppend | crates/liaozhai-net/src/codec.rs:89-169 | stripping `a`, then the held-back bytes with `b` under the flags `a` left, concatenates to one pass over `a + b`, for every starting flag state and all raw bytes |
| Transducer.StripChunksIsOnePass | crates/liaozhai-net/src/codec.rs:89-169 | the same over any number of reads |
| Transducer.TailShape | crates/liaozhai-net/src/codec.rs:129-156 | only a lone IAC or a negotiation without its option byte is held back, and nothing inside a subnegotiation |
| Transducer.SubnegotiationEndsAtFirstIacSe | crates/liaozhai-net/src/codec.rs:95-118 | a subnegotiation runs to its first adjacent IAC SE, a pending IAC included; without one everything is swallowed |
| Transducer.EscapedDataRoundTrips | crates/liaozhai-net/src/codec.rs:120-145 | data sent with every IAC doubled comes out as it was |
| Transducer.CommandsAreInvisible | crates/liaozhai-net/src/codec.rs:138-165 | a complete command of any form between two data bytes leaves no trace |
| Transducer.PlainPassesThrough | crates/liaozhai-net/src/codec.rs:119-127 | text without IAC is kept unchanged outside a subnegotiation |
| Transducer.StripShrinks | crates/liaozhai-net/src/codec.rs:89-169 | stripping never lengthens the buffer |
| Transducer.RestripExact | crates/liaozhai-net/src/codec.rs:212-219 | kept text survives a second pass, whatever follows, if and only if it holds no IAC and no subnegotiation is open behind nonempty text |
| Transducer.CommandTable | crates/liaozhai-net/src/codec.rs:119-165 | by byte value, outside a subnegotiation: 255 255 yields one 255, 255 with 251 to 254 swallows one more byte, 255 with anything below 250 vanishes, 255 250 opens a subnegotiation, every other byte is kept |
| Transducer.CutOffTable | crates/liaozhai-net/src/codec.rs:129-156 | a final 255, alone or with 251 to 254, is held back as it is; with a byte below 250 it vanishes |
| Transducer.HeldBackTable | crates/liaozhai-net/src/codec.rs:129-156 | nothing but these is ever held back |
| Transducer.SubnegotiationTable | crates/liaozhai-net/src/codec.rs:95-161 | 255 250 up to the first 255 240 is swallowed; unfinished it swallows all there is |
| LineSplitter.LineEnd | crates/liaozhai-net/src/codec.rs:178-180 | the first LF or CR, or the length when there is none |
| LineSplitter.TerminatorTable | crates/liaozhai-net/src/codec.rs:178-188 | by byte value: text without 10 and 13 is one line up to a 10, a 13 10, or a 13 that no 10 follows, and no line without any of them |
| LineSplitter.Consumed | crates/liaozhai-net/src/codec.rs:182-188 | the length of a line with its terminator lies beyond the line and within the buffer |
| Wire.FirstTerminator | crates/liaozhai-net/src/codec.rs:182-188 | what is consumed behind a line is one whole terminator: LF, CR LF, or a CR that no LF follows |
| LineSplitter.SplitAppend | crates/liaozhai-net/src/codec.rs:178-188 | splitting resumes at any cut that does not part CR from LF |
| LineSplitter.SplitLinesFit | crates/liaozhai-net/src/codec.rs:214-241 | cutting a text with short lines anywhere leaves a short unterminated part |
| Decoder.Decode | crates/liaozhai-net/src/codec.rs:205-242 | an item strictly shrinks the buffer, overflow happens exactly above the cap, and a call without item leaves at most max_line_length bytes, none while discarding |
| Decoder.DecodeEof | crates/liaozhai-net/src/codec.rs:244-282 | an item strictly shrinks the buffer; without one the buffer is empty and discarding is off |
| Decoder.DrainIsSplit | crates/liaozhai-net/src/codec.rs:205-242 | draining a buffer whose text behind the first line is safe to strip again yields the lines of stripping it once and splitting it once, minus a line being discarded, plus a notice for an overlong rest, and leaves exactly rest and held-back bytes |
| Decoder.FramesByDrain | crates/liaozhai-net/src/codec.rs:205-282 | the frames of a stream are those of draining the buffer followed by those after the next read |
| Chunking.DecodesTheStream | crates/liaozhai-net/src/codec.rs:205-282 | from any resting state and over any fitting reads, the decoder yields the lines of the stream stripped in one pass and split, the unterminated one included |
| Chunking.PlainStreamDecodes | crates/liaozhai-net/src/codec.rs:205-282 | from a fresh decoder, a stream with no escaped IAC and no SB decodes to exactly its lines if and only if every read fits the buffer with the bytes held before it, leaves no more than max_line_length bytes held, and does not end between CR and LF |
| Chunking.PlainTable | crates/liaozhai-net/src/codec.rs:129-165 | by byte value: which streams that theorem covers, namely those without 255 255 and 255 250 where a command may start |
| Chunking.ReadBoundariesDoNotMatter | crates/liaozhai-net/src/codec.rs:205-282 | two ways of reading such a stream, one of them meeting these conditions, decode alike if and only if the other meets them |
| Chunking.UnfitReadsShow | crates/liaozhai-net/src/codec.rs:205-242 | on such a stream, from any resting state, a read that breaks a condition shows as an overflow, a rejected line, or a line too many that no later read takes back |
| Chunking.RoomSuffices | crates/liaozhai-net/src/codec.rs:206-241 | lines of at most max_line_length - 2 bytes, reads of at most max_buffer_size - max_line_length bytes and no cut between CR and LF meet the conditions at every boundary |
| Chunking.RestingEof | crates/liaozhai-net/src/codec.rs:244-280 | at end of input a resting decoder emits its text without the cut-off command |
| Resync.EveryLineIsAnswered | crates/liaozhai-net/src/codec.rs:214-241 | on IAC-free input every line is answered by exactly one frame, in order, also from the middle of a discarded line |
| Resync.LinesResynchronise | crates/liaozhai-net/src/codec.rs:214-241 | from a fresh decoder: each line gives its bytes or one too-long notice; lines within the limit are never rejected, and an accepted line exceeds it by less than one read |
| Resync.ByteReadsRejectExactlyLongLines | crates/liaozhai-net/src/codec.rs:235-239 | read byte by byte, exactly the lines over the limit are rejected |
| Resync.OverflowNeedsOneBigRead | crates/liaozhai-net/src/codec.rs:206-210 | on any input an overflow takes one read of more than max_buffer_size - max_line_length bytes |
| Resync.OverflowIsLast | crates/liaozhai-net/src/codec.rs:206-210 | an overflow is the last thing a stream yields |
| Resync.EofNeverOverflows | crates/liaozhai-net/src/codec.rs:244-282 | the calls at end of input never overflow a buffer that fits |
| Resync.SelfCallsOnce | crates/liaozhai-net/src/codec.rs:215-220 | `decode` is its body run once, or a second and last time on a shorter buffer, which happens only at the end of a line being discarded |
| Wire.SplitOfJoin | crates/liaozhai-net/src/codec.rs:178-188 | lines joined with LF, CR or CR LF are split back into exactly those lines and the rest |
| Wire.JoinOfSplit | crates/liaozhai-net/src/codec.rs:178-188 | every text is such a sequence of lines, namely the one splitting finds |
| Wire.LinesArriveAsSent | crates/liaozhai-net/src/codec.rs:205-282 | plain lines within the limit arrive one by one and unchanged, over any reads that cannot overflow the buffer and do not part CR from LF |
| Restripping.UnterminatedStreamExact | crates/liaozhai-net/src/codec.rs:244-280 | a single read without complete line yields its text at end of input if and only if that text holds no IAC and no subnegotiation is open behind it |
| Restripping.SingleReadExact | crates/liaozhai-net/src/codec.rs:205-282 | any bytes read at once decode to the lines of one strip and one split if and only if they fit the buffer, leave no more than max_line_length bytes held, and decode, behind the first line, to no IAC and to nothing at all in front of an open subnegotiation |
| Restripping.EveryPrefixExact | crates/liaozhai-net/src/codec.rs:205-282 | any bytes in any reads that keep CR LF together: the decoder is right wherever the stream may end after a read if and only if every read, with what is held before it, meets the three conditions of `SingleReadExact` |
| Restripping.LastReadExact | crates/liaozhai-net/src/codec.rs:205-282 | the same for one last read into a decoder at rest with any text, held-back bytes and flags |
| Restripping.EofTable | crates/liaozhai-net/src/codec.rs:244-280 | one call at end of input on text that holds no 255 and no complete line: the text without the cut-off command, or nothing behind an open subnegotiation; flags are reset exactly when something is dropped, and discarding always ends |
| Restripping.CrLfCutExact | crates/liaozhai-net/src/codec.rs:182-188 | short text without IAC, in any number of reads, decodes as it does in one read if and only if no boundary parts CR from LF |
| Streams.EscapedIacIsLostAcrossReads | crates/liaozhai-net/src/codec.rs:141-145 | a concrete stream whose escaped IAC is lost when a read ends after it |
| Streams.EscapedIacIsLostWithinARead | crates/liaozhai-net/src/codec.rs:212-225 | a concrete single read whose second line loses an escaped IAC and with it its terminator |
| Streams.NegotiationBeforeALine | crates/liaozhai-net/src/codec.rs:146-156 | a WILL, WONT, DO or DONT with its option in front of any line leaves the line as it is |
| Streams.CutOffAtEof | crates/liaozhai-net/src/codec.rs:260-275 | a cut-off command of any of these forms at the end of input leaves the last line as it is |
| Streams.TextBeforeOpenSubnegotiationIsLost | crates/liaozhai-net/src/codec.rs:157-161 | a concrete stream whose text is lost when a read ends inside a subnegotiation |
| Streams.CutCrLfAddsALine | crates/liaozhai-net/src/codec.rs:182-188 | a cut between CR and LF yields a second, empty line |
| Streams.LossMadeGood | crates/liaozhai-net/src/codec.rs:95-118 | a concrete stream that decodes right as a whole, though not when it ends after its first read |
| Streams.TwoWrongs | crates/liaozhai-net/src/codec.rs:182-225 | concrete reads whose extra line after a cut CR LF stands in for a lost one, wherever the stream ends |
| Streams.RoomForACutOffCommandIsNeeded | crates/liaozhai-net/src/codec.rs:235-239 | a line one byte short of the limit is rejected when a cut-off command follows it |
| Codec.TelnetLineCodec.StripIac | crates/liaozhai-net/src/codec.rs:89-169 | the in-place pass leaves buffer and flags exactly as the transducer specifies |
| Codec.TelnetLineCodec.Compact | crates/liaozhai-net/src/codec.rs:90-168 | the two-cursor loop over an array leaves exactly the stripped bytes in front, the flags behind, and every element outside them as it was |
| Codec.TelnetLineCodec.TakeCommand | crates/liaozhai-net/src/codec.rs:129-165 | a command is skipped whole, an escaped IAC yields one byte, a cut-off command is moved down and ends the pass |
| Codec.TelnetLineCodec.SwallowBodyByte | crates/liaozhai-net/src/codec.rs:95-118 | one subnegotiation byte changes only the flags |
| Codec.FindLineTerminator | crates/liaozhai-net/src/codec.rs:178-180 | the search finds the first terminator or none |
| Codec.ConsumeTerminator | crates/liaozhai-net/src/codec.rs:182-188 | CR LF counts as one terminator when both are in the buffer |
| Codec.TelnetLineCodec.Decode | crates/liaozhai-net/src/codec.rs:205-242 | result, flags, discarding and buffer after the method are those of the function |
| Codec.TelnetLineCodec.DecodeEof | crates/liaozhai-net/src/codec.rs:244-282 | the same at end of input |
| Codec.FramedRead.Next | crates/liaozhai-net/src/connection.rs:66-87 | the reader hands out the frames of the stream one by one, then none |
| Text.TrimRemovesPadding | crates/liaozhai-net/src/session.rs:123 | white space around a nonempty trimmed text is removed, and no more |
| Text.WhiteSpaceTable | crates/liaozhai-net/src/session.rs:123 | exactly the 25 white-space code points, listed one by one, come off at either end |
| Text.ParseOfPrint | crates/liaozhai-net/src/session.rs:193 | print and parse are inverse over every machine word, and larger numerals are refused |
| Text.PrintIsDecimal | crates/liaozhai-net/src/session.rs:243-248 | numerals are positional over the digits 0 to 9 |
| Text.ParseTable | crates/liaozhai-net/src/session.rs:193 | a number is an optional plus sign, any zeros and a numeral below 2^64; nothing else, the empty text and a bare sign included |
| Registry.ParseWorlds | crates/liaozhai-worlds/src/registry.rs:84-108 | validation keeps length and order, with slug, name and short description each trimmed, or names the smallest offending position and its first failing check |
| Registry.ProblemTable | crates/liaozhai-worlds/src/registry.rs:87-106 | slug, name, short description and duplicate slug are checked in this order, each on the trimmed field |
| Registry.ValidationIsExact | crates/liaozhai-worlds/src/registry.rs:87-106 | no check fails if and only if all trimmed fields are nonempty and all trimmed slugs are pairwise distinct |
| Registry.Load | crates/liaozhai-worlds/src/registry.rs:36-51 | loading succeeds exactly for a nonempty valid list |
| Sessions.FormatWorldList | crates/liaozhai-net/src/session.rs:234-251 | entry i shows the number i + 1 beside the name and the description of world i |
| Sessions.MenuShows | crates/liaozhai-net/src/session.rs:234-251 | the menu has one entry per world, in order, with its number, its name and its description |
| Sessions.AuthReplies | crates/liaozhai-net/src/session.rs:98-120 | success is answered with welcome, this menu and the selection prompt, refusal with the notice and the username prompt |
| Sessions.Session.FinishAuth | crates/liaozhai-net/src/session.rs:98-120 | the loop-built answer to an attempt is the specified one |
| Sessions.GoodbyeIsExact | crates/liaozhai-net/src/session.rs:122-181 | in every state a line says goodbye if and only if it is a session terminator |
| Sessions.FourWords | crates/liaozhai-net/src/session.rs:222-227 | the session terminators are quit, exit, bye and disconnect, padded at will and in any mix of cases, and nothing else |
| Sessions.StayReplies | crates/liaozhai-net/src/session.rs:122-219 | what is said to a blank username, a blank password, a choice that is no number, and a number outside the menu |
| Sessions.TerminatorsIgnoreCaseAndPadding | crates/liaozhai-net/src/session.rs:222-227 | a padded word terminates the session if and only if its lower-case form is one of the four words |
| Sessions.AdvanceIsAcceptedUsername | crates/liaozhai-net/src/session.rs:122-147 | a line advances the state if and only if it is a credential in the username state, stored trimmed |
| Sessions.PendingIsAcceptedPassword | crates/liaozhai-net/src/session.rs:149-172 | verification is asked for if and only if a credential arrives in the password state, with the stored username |
| Sessions.SelectionIsExact | crates/liaozhai-net/src/session.rs:174-219 | a line ends the session naming a world if and only if it parses, trimmed, as that world's position |
| Sessions.OtherNumbersStay | crates/liaozhai-net/src/session.rs:202-209 | a number outside the menu leaves the session where it is |
| Sessions.MenuRoundTrip | crates/liaozhai-net/src/session.rs:193-200 | typing the number printed in a menu entry, padded at will, ends the session naming the world whose name is printed in that entry |
| Sessions.UnlistedNumeralsStay | crates/liaozhai-net/src/session.rs:193-217 | any numeral outside 1..n, machine word or not, is refused without leaving the state |
| Sessions.TerminatorsAreNotNumbers | crates/liaozhai-net/src/session.rs:222-227 | no number is a session terminator |
| Connections.EchoDiscipline | crates/liaozhai-net/src/connection.rs:107-149 | WILL and WONT alternate from WILL on, echo is off at the loop head exactly in the password state, and left off at an exit exactly when shutdown, end of input, a read error or overflow strikes in that state |
| Connections.PromptDiscipline | crates/liaozhai-net/src/connection.rs:78-248 | at the loop head the last text is the state's prompt or the too-long notice, and the last words of a closed connection tell how it ended |
| Connections.AttemptBound | crates/liaozhai-net/src/connection.rs:133-174 | at most max(1, max_login_attempts) calls to the store, only the last of which can succeed, and the failure counter is the number of refusals |
| Connections.EffectIsCounted | crates/liaozhai-net/src/connection.rs:151-174 | a turn records a failure exactly with a refused call and within the limit, and resets the limiter exactly with a successful one |
| Connections.AuthenticationSafety | crates/liaozhai-net/src/session.rs:69-120 | world selection for an account is reached only by the store's answer for the most recently accepted username and a later password line, both trimmed, nonempty and no terminators, and the account stays |
| Connections.PasswordOrigin | crates/liaozhai-net/src/session.rs:122-147 | the stored username is the most recently accepted one |
| Connections.StateChanges | crates/liaozhai-net/src/connection.rs:98-216 | the only state changes are an accepted username, an accepted password and a refused one |
| Connections.ClosedForGood | crates/liaozhai-net/src/connection.rs:248-256 | nothing happens after an exit |
| Connections.GateTable | crates/liaozhai-net/src/connection.rs:52-74 | a throttled client gets the refusal, any other the banner and the prompt, and each failed write |
| Connections.NoticeTable | crates/liaozhai-net/src/connection.rs:79-247 | shutdown comes before any input; an overlong line is answered and the connection stays open; overflow is answered and closes; read error and end of input close in silence |
| Connections.GoodbyeTurn | crates/liaozhai-net/src/connection.rs:201-214 | a session terminator restores echo in the password state, says goodbye and ends, in any state |
| Connections.StayTurns | crates/liaozhai-net/src/connection.rs:101-106 | every line that is refused without leaving its state is answered by exactly its two messages |
| Connections.NameTurn | crates/liaozhai-net/src/connection.rs:107-125 | an accepted username is answered by WILL ECHO and the password prompt and stored |
| Connections.AttemptTable | crates/liaozhai-net/src/connection.rs:126-200 | an accepted password, by the answer of the store and the success of the writes: state, failure counter, calls, exact output, exit and limiter effect |
| Connections.ChoiceTurn | crates/liaozhai-net/src/connection.rs:201-214 | a number on the menu names its world and ends the connection |
| Connections.EffectIsTheAnswer | crates/liaozhai-net/src/connection.rs:133-174 | a turn asks the store at most once, and resets the limiter, records a failure or leaves it alone according to the answer |
| Connections.LoginRun | crates/liaozhai-net/src/connection.rs:88-216 | acceptable credentials that the store confirms and then a number on the menu lead to that world in three turns, with one call to the store, no failure, and exactly the expected transcript |
| RateLimiter.AuthRateLimiter.IsThrottled | crates/liaozhai-auth/src/rate_limiter.rs:38-46 | the deque of the IP is pruned in place and compared with the limit; an untracked IP is not throttled |
| RateLimiter.AuthRateLimiter.RecordFailure | crates/liaozhai-auth/src/rate_limiter.rs:56-68 | the deque is pruned, then extended, and is the latest of its IP; others are unchanged, and only when max_entries are tracked and the IP is new an oldest entry makes room |
| RateLimiter.AuthRateLimiter.Reset | crates/liaozhai-auth/src/rate_limiter.rs:75-78 | exactly this IP is forgotten |
| RateLimiter.AuthRateLimiter.FindOldestEntry | crates/liaozhai-auth/src/rate_limiter.rs:90-95 | the entry whose latest failure is earliest, none only if all are empty |
| RateLimiter.PruneDeque | crates/liaozhai-auth/src/rate_limiter.rs:81-86 | the popping loop computes the pruned deque |
| RateLimiter.PruningIsAFloor | crates/liaozhai-auth/src/rate_limiter.rs:38-86 | after any run with a nondecreasing clock, however young, an IP is throttled exactly when it is tracked and its unpruned log has enough failures since the latest window start it was pruned with |
| RateLimiter.LazyPruningAgrees | crates/liaozhai-auth/src/rate_limiter.rs:38-86 | after any run with a nondecreasing clock past one window, deques are sorted, and an IP is throttled exactly when it is tracked and its unpruned log has enough failures in the window |
| RateLimiter.YoungClockExact | crates/liaozhai-auth/src/rate_limiter.rs:82 | pruning keeps the whole window for every sorted deque if and only if the clock has passed one window or the second reading is still zero |
| RateLimiter.RecordEffect | crates/liaozhai-auth/src/rate_limiter.rs:56-68 | at most one other IP is removed, only for room, only one no later than every other nonempty entry, and all others stay unchanged |
| RateLimiter.RoomKeepsEverybody | crates/liaozhai-auth/src/rate_limiter.rs:59-67 | below max_entries, or for a tracked IP, nobody is removed and nobody else changes |
| RateLimiter.FullMapEvictsOne | crates/liaozhai-auth/src/rate_limiter.rs:59-67 | at max_entries a new IP takes the place of exactly one oldest nonempty entry, or of nobody when all are empty |
| RateLimiter.LeavesOnlyByResetOrEviction | crates/liaozhai-auth/src/rate_limiter.rs:38-78 | in every run a tracked IP leaves the map only by its reset, or as an oldest entry when a new IP fails while max_entries are tracked |
| RateLimiter.AlwaysAllowed | crates/liaozhai-auth/src/rate_limiter.rs:38-95 | with a clock that does not run backwards every operation is possible: the search for the oldest entry always has an answer |
| RateLimiter.RecordSize | crates/liaozhai-auth/src/rate_limiter.rs:56-68 | the map grows by one exactly for a new IP that finds room or finds every stored deque empty |
| RateLimiter.CapacityExact | crates/liaozhai-auth/src/rate_limiter.rs:56-68 | a map within max_entries exceeds it by a recorded failure if and only if the IP is new, the map is full and every stored deque is empty |
| RateLimiter.CapacityBound | crates/liaozhai-auth/src/rate_limiter.rs:56-68 | in every run the map holds at most the larger of max(1, max_entries) and one more than the checks that emptied a deque; no more deques are empty than such checks, none without them |
| RateLimiter.EmptiedEntryBreaksTheBound | crates/liaozhai-auth/src/rate_limiter.rs:59-63 | a concrete run that exceeds max_entries |
| Handler.Connection.Greet | crates/liaozhai-net/src/connection.rs:52-74 | the gate asks the limiter once and refuses or greets |
| Handler.TurnsTable | crates/liaozhai-net/src/connection.rs:88-247 | which input each frame is, and that end of input follows the last frame |
| Handler.Connection.Verify | crates/liaozhai-net/src/connection.rs:126-200 | one attempt: echo restored, store asked, limiter told, session finished or closed |
| Handler.Connection.CarryOut | crates/liaozhai-net/src/connection.rs:100-215 | each transition is carried out as the step relation says |
| Handler.Connection.TakeTurn | crates/liaozhai-net/src/connection.rs:79-247 | one turn: shutdown before input, then the next frame |
| Handler.Connection.Handle | crates/liaozhai-net/src/connection.rs:43-256 | the loop over objects ends as the step relation says for the frames of the stream, takes no turn if refused and otherwise just the turns up to the exit, and changes the limiter by exactly the effects of those turns |
| Handler.AppliedByAnswer | crates/liaozhai-net/src/connection.rs:133-174 | what a turn does to the map of the limiter, told from the new call to the store alone |
| Handler.RunTellsLimiter | crates/liaozhai-net/src/connection.rs:133-174 | a whole connection leaves the map as it was if it asked the store nothing, without its IP if its last call succeeded, and with its latest failure recorded if that was refused |
| EndToEnd.TranscriptIgnoresReadBoundaries | crates/liaozhai-net/src/connection.rs:78-248 | under the exact conditions of `PlainStreamDecodes` and in any environment, transcript, store calls and final state depend only on the byte stream |
| EndToEnd.LoginReachesTheWorld | crates/liaozhai-net/src/connection.rs:78-216 | three plain lines with any terminators, over any reads that fit and keep CR LF together, log a client with confirmed credentials in and take it to the world whose number it sent |
| EndToEnd.Serve | crates/liaozhai-net/src/connection.rs:43-256 | a connection served by reader, codec, session and limiter objects: gate, transcript, store calls and every change of the limiter are those of the frames of its reads, and of its stream when the reads meet the conditions of `PlainStreamDecodes`, whichever writes fail |
| Server.PermitConservation | crates/liaozhai-server/src/listener.rs:96-151 | in every interleaving permits plus unfinished tasks are max_connections, accepted streams are spawned or rejected, at most one task is spawned after cancellation, and the loop returns only with all tasks finished and all permits back |
| Server.RejectedExactlyWhenFull | crates/liaozhai-server/src/listener.rs:110-119 | a stream is rejected exactly when max_connections tasks are unfinished |
| Server.ShutdownPriority | crates/liaozhai-net/src/connection.rs:79-87 | after cancellation a connection handles at most one more input, and none unless its poll had passed the check |
| Server.ThrottledAtGate | crates/liaozhai-net/src/connection.rs:52-63 | an IP with enough failures in the window is refused at the gate |
| Server.ThrottleBound | crates/liaozhai-net/src/connection.rs:151-174 | from any reachable state and over any interleaving whose gate checks all refuse an IP, what its connections past the gate have left plus their calls refused by the store never exceeds what they had left before, hence never max_connections times max(1, max_login_attempts) |
| Server.FailuresInWindowKeepItThrottled | crates/liaozhai-net/src/connection.rs:52-63 | enough failures in the window, with neither reset nor eviction, make every gate check refuse the IP up to the end of the window, and leave it throttled then |
| Server.GateReadsTheWholeHistory | crates/liaozhai-server/src/listener.rs:40-44 | in every interleaving the gate refuses exactly by the complete log of the IP over all connections, counted from the latest window start it was pruned with, which past one window is the present window |
| Server.TurnTellsLimiter | crates/liaozhai-net/src/connection.rs:133-174 | in every interleaving a turn tells the shared limiter what the store answered: a refused call is the latest failure and the last entry of the log of the IP, a successful one makes it forgotten, otherwise nothing changes |
| Server.LogIsRefusedCalls | crates/liaozhai-server/src/listener.rs:40-44 | on every interleaving the log of an IP has one entry for each refused call of its connections since the last success of one of them or its last eviction |
| Server.GateCountsRefusedCalls | crates/liaozhai-net/src/connection.rs:52-63 | in every interleaving past one window an IP is throttled exactly when max_failures such calls fall into the window |
| Server.GateOutcome | crates/liaozhai-net/src/connection.rs:52-74 | what a connection is after the gate, by that count and the success of the write, and that no other task is touched |
| Server.TasksCanGoOn | crates/liaozhai-server/src/listener.rs:121-129 | in every state a task can take its next step: the gate, a poll, a turn with any input, its end |
| Server.CanAlwaysReturn | crates/liaozhai-server/src/listener.rs:98-154 | from every reachable state the server can still shut down and return |

## Left out

- Sockets, the async runtime and the internals of the framed reader: only the order of `decode`, read and `decode_eof` calls is kept. Reads that fail with an I/O error are an input of `Connections.Step` but are not produced by `Codec.FramedRead`.
- The account store, argon2 and the record of the last login: `verify_credentials` is an answer chosen by the environment.
- Lossy UTF-8 decoding: a function from bytes to text that the theorems hold for whichever it is.
- TOML parsing, configuration, command line, logging and the wording and padding of messages: the model keeps message kinds and the values filled into them.
- Identifiers of worlds and timestamps of accounts.
- Machine integers: buffer positions, the failure counter and the line counter are unbounded. `Connections.AttemptBound` keeps the failure counter within the configured limit, which is a machine word; only the line counter, which is logged and never read, could wrap.
- Bytes of a write that fails half way: a failed write appends nothing to the transcript.
- Handler.Connection.Handle: describes a connection whose limiter nobody else touches meanwhile; the interleaving of connections is in `Server.dfy`.
- Server.PermitConservation: the accept loop is a state machine on values, because its point is interleaving; joining a task that panicked is not told apart from joining one that returned, and that draining ends at all is left to its timeout.
- Chunking.DecodesTheStream: its conditions on reads are sufficient for the whole stream. They are exact in one read (`Restripping.SingleReadExact`), for streams with no escaped IAC and no subnegotiation (`Chunking.PlainStreamDecodes`), and where the stream may end after any read (`Restripping.EveryPrefixExact`).
- Resync.LinesResynchronise: assumes reads without IAC, so that the length of a line is that of the text typed.
- The entity model, the topology and the soft-code language of the design documents: there is no code for them yet.
