# Verification of the AT channel

A Dafny model of the part of modeminfo-uv that talks to the modem, and proofs about it:

- **The line reader** (`LineReader`, `ReaderLoop`, `Splitter`, `Readings`, `PromptCase`, `BufferEnd`, `Resync`). `readline` cuts lines out of a
  4096-byte buffer that is refilled by reads of any size, shifted down, patched with NULs and ditched when it
  overflows. The model is a class over that array; the descriptor is a list of read events (bursts of bytes,
  interruptions, failures), so a theorem about it holds for every way of cutting a stream into reads. The
  specification is a splitter that looks at one byte at a time. Each call of `readline` leaves a reading (what it
  ditched, skipped, returned, and left over by mistake), and the readings of a run account for the whole stream.
  `Dispatching` is what `readerLoop` makes of the lines.
- **The command protocol** (`Protocol`, `ProtocolRuns`, `Routing`, `LateReplies`, `Channel`, `ResponseList`,
  `LostString`, `EndToEnd`, `Delivered`). One issuing thread
  and the reader share the state behind one mutex. `Protocol` is the state machine with one step per critical
  section: write and install a command, process a line, be woken, let a slice of the timed wait expire. Its runs are
  all interleavings. `Channel` is the code on static variables and a heap list, proved to perform exactly runs of
  that machine; what the reader does while the issuer waits is an arbitrary list of rounds. What a call is given is
  compared with a reference description that filters the lines of the call's window and knows nothing of states;
  `Delivered` says the same of the lines by their texts alone.
- **Writing** (`Wire`) under partial writes, interruptions and failures, and **waiting** (`TimedWait`) in slices with
  a 32-bit counter.
- **The tokenizer** (`Scanner`, `Scanf` over `Tok`, `Formats` and `Numbers`; `RoundTrip`, `Cme`): a cursor into a buffer that
  `strsep` cuts up in place, refined to tokens and conversions on strings; printing and scanning back; error codes
  from the modem's line to the caller. `ByIndex` is the indexed selection over `Strtok`.
- **The band lists** (`Bands`, `BandRoundTrip`): list to JSON strings and back through bounded buffers.

Characters are bytes; strings and streams hold no NUL. `long` has 64 bits and `int` 32. The character classes are
those of the C locale. A format of `at_tok_scanf` may end in '%', whose directive is then the terminator and ends the
scan, unless it meets a place holder, where the original goes on behind the format; precondition `StaysInFormat`
leaves out exactly that.

## What the code does not promise

These hold of the code as it is and are stated as such:

- `readline` puts the cursor one cell behind the terminator of a prompt, although the comment there says it stays
  within the data (atc/atchannel.c:532-535). What the buffer held there from an earlier read is then taken for the
  next bytes. `LineReader.Reader.ReadLine` says for every state what is left over: nothing exactly when that cell
  held NUL before the call (or, after a ditched buffer, lies behind its end). `PromptCase.PromptThenReply` gives the
  exact condition for a line t, a prompt and a reply in bursts of their own: the reply is intact if and only if t
  with the newlines in front is no longer than the prompt's newlines and three cells. `ReaderLoop.Loop` shows that
  bytes are conserved exactly when nothing is ever left over, and always when "> " does not occur in the stream.
- `readline` does not stay within its 4096 bytes (atc/atchannel.c:52-58). The model has two cells behind them and a
  flag that must be set before either is touched. A call leaves the buffer if and only if one of its reads fills all
  the room it was given, as the NUL goes behind it (atc/atchannel.c:504-511), or its cursor was at the end of the
  buffer when it began (`LineReader.Reader.ReadLine`). A stream without "> " that is shorter than the buffer therefore
  never leaves it, however it is cut, and one that is not shorter always does when it comes in one piece
  (`BufferEnd.ReadAll`, `BufferEnd.ReadInOnePiece`). The lines come back all the same: `BufferEnd.GoodStreamLeavesBuffer`
  is 1024 times "OK" with CR LF. `BufferEnd.PromptAtTheEnd` puts the cursor at 4096 and 4097 by a prompt behind 4093 and
  4094 newlines.
- A final line that replaces another one leaves the string of the first allocated for good (atc/atchannel.c:299-304;
  `LostString.FirstFinalIsLost`, with any two final lines). `Channel.OnlyOutStays`: a call leaves nothing but the response
  it hands out if and only if at most one final line came in its window, and otherwise one string for each but the last.
- After a final line has been stored and signalled the reader may process more lines into the same response, up to
  another final that replaces it; the reference description therefore takes the last final of the window.
- The wait loop does not look at the response between slices, so a reply that is there can still be reported as a
  timeout (`ProtocolRuns.SlicesAloneTimeOut`), and a reply that comes after a timeout goes to the next call
  (`ProtocolRuns.LateReplySlips`). `LateReplies.EarlierFinalsExactly`: that can happen at an idle moment if and only
  if fewer final lines than commands have passed.
- `+CMTI:` is a one-line notice but is treated as the first of two, so the line behind it is lost to the protocol
  (`Dispatching.CmtiLosesFinal`). All final lines are processed if and only if none of them stands behind an odd
  number of headers (`Dispatching.FinalsSurviveDispatch`).
- A time of 0 means 15 seconds (atc/atchannel.c:1078-1079), and not a wait without end as the comment above it says
  (`TimedWait.DefaultWait`, `ProtocolRuns.UnansweredCall`).
- The counter of the sliced wait wraps around for some times above 2^31 ms; `TimedWait.SlicedWait` says what happens
  in either case.
- A band of more than eight digits, or a list whose prefixed form exceeds the buffer, does not come back
  (`BandRoundTrip.RoundTripExactly`).

## Model

| member | source | states |
|---|---|---|
| CText.StrStartsWith | atc/atchannel.c:183-192 | the loop up to either terminator decides exactly the prefix relation |
| CText.StrNCpy | atc/at_tok.c:216 | strncpy: the first n characters, NULs up to n, the rest of the destination untouched |
| CText.RemoveFirstCuts | atc/atchannel.c:335-353 | the reference's removal of a trigger line takes out exactly its first occurrence |
| Classify.StartsWithAny | atc/atchannel.c:225-236 | the loop over a prefix table finds a prefix of the line exactly when the table has one |
| Classify.FinalTablesDisjoint | atc/atchannel.c:216-247 | no line is both a success and an error, and no SMS header is final |
| Classify.TablesSpelled | atc/atchannel.c:216-294 | which lines are a success, an error or an SMS header, by their texts |
| Classify.ScanAsciiCode | atc/atchannel.c:313-326 | the scan accepts exactly the lines without OK, AT or a colon whose characters are all letters, digits or one of the five signs |
| Protocol.ExpectedStep | atc/atchannel.c:328-404 | processing a line takes the closed description of a call to the closed description of the call with that line, for the whole channel state: response, triggers, handler log, PDU and raw writes |
| Delivered.LineSpelled | atc/atchannel.c:328-404 | what a line does to the channel in each case, the cases told by the texts of the line alone |
| Delivered.ExpectedIsMadeOf | atc/atchannel.c:339-404 | the reference response of a call with a final line is made of the lines it has heard, told from the lines alone: the last final one with what it says of success, and the first line that answers the command, or all of them for a multi-line command |
| ProtocolRuns.StepKeepsInv | atc/atchannel.c:1072-1128 | every atomic step of either thread keeps the invariant: nothing pending between calls, the reference state during one, exact outcomes |
| ProtocolRuns.RunsAreLocated | atc/atchannel.c:1146-1152 | in every run outcome i, if its command was written, was installed by one event, when i calls had ended and the channel was as the call records, and ended by a later one, with nothing issued in between; its window is exactly the lines processed in between |
| ProtocolRuns.CommandsMatchOutcomes | atc/atchannel.c:1072-1128 | in every run the commands written are, one for one and in order, those of the calls that returned or timed out, and of the open one |
| ProtocolRuns.DeliveredIsExact | atc/atchannel.c:1094-1116 | on every interleaving the i-th outcome, if it is a return, carries the reference response of the lines between the install of its own command, the next after those of the calls before it, and its own collection: all candidates of a multi-line command, the first of the others, the last final |
| ProtocolRuns.FinalFlagAgrees | atc/atchannel.c:339-348 | in every reachable state a stored final begins with one of the three success texts exactly when the success flag is set and with one of the seven error texts exactly when it is clear |
| ProtocolRuns.WrapperGuarantee | atc/atchannel.c:1182-1267 | a delivered response is made of the lines the call has heard; its intermediates were processed in the window, are not final and look as the command demands (its prefix, a leading digit, a code of the given characters); at most one unless multi-line, and exactly one when the typed wrapper accepts a success |
| Routing.RoutingConserves | atc/atchannel.c:328-404 | over every whole run each line, processed during a call or between calls, goes to exactly one of the handler and the finals, intermediates and triggers of all the calls, proxy mode copying the finals only; the handler hears its lines in order, and the PDUs written are some of those of the commands, in order |
| ProtocolRuns.Pairing | atc/atchannel.c:1072-1128 | with one final per command and no timeout the k-th returning call has the k-th command and the k-th final, and nothing is pending between calls |
| ProtocolRuns.LateReplySlips | atc/atchannel.c:1099-1106 | without the timeout hypothesis pairing fails, for any two commands and any final line |
| LateReplies.NextCallGetsLastFinal | atc/atchannel.c:1099-1116 | from any idle moment, whatever follows, the next call returns with the last final line processed, which is the last of its own window |
| LateReplies.EarlierFinalsExactly | atc/atchannel.c:1099-1128 | at every idle moment of every run with at most one final per command, some continuation hands the next call an earlier command's final if and only if some command is still unanswered |
| ProtocolRuns.SlicesAloneTimeOut | atc/atchannel.c:129-138 | from any moment of a call, with or without a stored final, expiring slices alone end it as timed out, and how many it takes |
| ProtocolRuns.UnansweredCall | atc/atchannel.c:1099-1106 | a call that is never answered is given up after four slices when it has the default time, and otherwise after as many as make up its time |
| ResponseList.ATResponse.AddIntermediate | atc/atchannel.c:195-208 | a fresh node with a fresh string at the head, the rest of the list unchanged |
| ResponseList.ATResponse.SetFinal | atc/atchannel.c:299-304 | a fresh string is stored, and the one stored before stays allocated and belongs to nothing any more |
| ResponseList.ATResponse.ReverseIntermediates | atc/atchannel.c:1051-1064 | the relinking loop terminates with the same nodes in reverse order in an acyclic list, so the lines are in order of arrival |
| ResponseList.ATResponse.Free | atc/atchannel.c:1025-1045 | string and node in the order of the list, each once and read only before, then the string of the final line and the response; what stays allocated are the strings of replaced final lines |
| ResponseList.LinesOfReverse | atc/atchannel.c:1047-1064 | reversing the nodes reverses the lines they carry |
| Channel.Static.Takes | atc/atchannel.c:354-396 | the tests of the five command types are the reference test together with the emptiness of the list |
| Channel.Static.ProcessLine | atc/atchannel.c:328-404 | on the heap, processing a line is the protocol's step on the abstract state, and nothing but a triggered PDU is written |
| Channel.Static.SendPdu | atc/atchannel.c:349-353 | the PDU and control-Z are tried on the wire and the PDU is forgotten |
| Channel.Static.TimedWait | atc/atchannel.c:133 | a wait lets the reader process exactly the lines of its round, as steps of the protocol, keeping track of final strings and of the PDU written |
| Channel.Static.CondTimeout | atc/atchannel.c:120-144 | a sliced wait whose unsigned counter does not wrap is the run of the protocol that the rounds it meets make up; it expires only when its slices make up the time |
| Channel.Static.WaitForFinal | atc/atchannel.c:1099-1106 | the wait loop is such a run too, and ends with a final stored or with the last slice expiring |
| Channel.Static.Begin | atc/atchannel.c:1081-1097 | a command is refused, or its bytes and a CR are sent and it is installed, as one step of the protocol |
| Channel.Static.HandOver | atc/atchannel.c:1108-1116 | the response leaves the channel in order of arrival and stays allocated, or all its parts are released; strings of replaced final lines stay in both cases |
| Channel.Static.SendCommandFull | atc/atchannel.c:1072-1128 | a call is the run of the protocol made of its issue and the rounds it meets, with one more outcome, and the error code (0, -1, -2, -4) and the response object report exactly that outcome; a response handed out is made of the lines the call has heard; it sends the command and CR, or a proper front when refused, then PDU and control-Z if the prompt came, and nothing else; of what it allocates, the response handed out and the strings of replaced final lines stay |
| Channel.OnlyOutStays | atc/atchannel.c:299-304 | what else stays allocated is one string for each final line of the window but the last: nothing if and only if there was at most one |
| LostString.FirstFinalIsLost | atc/atchannel.c:299-304 | for any command and any two final lines before the issuer wakes, the call succeeds with the second and the string of the first stays allocated |
| Channel.Static.SendSingle | atc/atchannel.c:1182-1267 | in any reachable state a wrapper that hands out a successful response hands out one line, the first the call has heard that is not final and looks as the command demands; -6 is returned exactly for a success without lines when the caller wants the response; bytes sent and memory as for the call it makes |
| Channel.Static.ClearPending | atc/atchannel.c:753-762 | nothing is pending any more, the response is released and the PDU forgotten, and the raw data stays; the prefix, part of the type here, is not looked at without a response |
| Splitter.LinesKeepText | atc/atchannel.c:413-424 | lines are non-empty, free of newlines, and with the tail are exactly the other bytes of the stream in order |
| Splitter.PrintedLines | atc/atchannel.c:420-423 | lines sent with CR LF are split into themselves |
| LineReader.Port.Read | atc/atchannel.c:502-504 | a read takes a non-empty front of what has arrived, at most the room given |
| LineReader.Reader.FindNextEol | atc/atchannel.c:413-424 | finds the first newline, the prompt at the end of the data, or reports that the line is not complete |
| LineReader.Reader.MoveDown | atc/atchannel.c:463-472 | the pending bytes and their terminator move to the front unchanged |
| LineReader.Reader.ReadMore | atc/atchannel.c:477-528 | one pass of the read loop accounts for every byte: ditched, skipped, pending or still to be read |
| LineReader.Reader.ReadLine | atc/atchannel.c:437-542 | the line returned, the newlines skipped, the buffers ditched, what is pending and what is unread are together exactly the stream before the call; a buffer is ditched only when full; the line is NUL-terminated; a prompt leaves pending what the cell behind its terminator held before the call, nothing exactly when that was NUL; cells behind the 4096 are touched if and only if a read filled its room or the cursor was there already |
| ReaderLoop.FittingNeverDitches | atc/atchannel.c:478-484 | a stream whose newline runs and texts fit the buffer is never ditched |
| ReaderLoop.ReadingIsFirstLine | atc/atchannel.c:437-542 | on a fitting, prompt-free stream a call takes the first line of the splitter |
| ReaderLoop.BytesConserved | atc/atchannel.c:477-542 | for every stream, with ditched buffers and prompts: the readings and what is left are longer than the stream by exactly what prompts left over, and are the stream itself exactly when that is nothing |
| ReaderLoop.PromptsAreInTheStream | atc/atchannel.c:413-424 | a stream without "> " is read without a prompt |
| Dispatching.DispatchTurn | atc/atchannel.c:588-608 | a turn of the loop extends the pairing of headers and lines by exactly its own element |
| Dispatching.DispatchKeepsLines | atc/atchannel.c:588-608 | flattened, the dispatches are the lines again, except for a last header, and for it exactly when the headers at the end are odd in number |
| Dispatching.DispatchesSpelled | atc/atchannel.c:588-608 | what is dispatched, told by the four header texts: a header with the line behind it, any other line by itself, in order, and only a header at the end can be left |
| Dispatching.ProcessedExactly | atc/atchannel.c:588-608 | the lines processed are those that are no header and stand behind an even number of headers |
| Dispatching.FinalsSurviveDispatch | atc/atchannel.c:278-294 | all final lines are processed if and only if none stands behind an odd number of headers |
| Dispatching.CmtiLosesFinal | atc/atchannel.c:278-283 | any final line behind a `+CMTI:` notice is taken for its second line and not processed |
| ReaderLoop.Loop | atc/atchannel.c:575-614 | for every stream and every chunking: the readings, in order and each well formed, account for the stream byte for byte, exactly when no prompt left anything over and always when the stream has no "> ", and then the buffer is left exactly if a read filled its room; what is dispatched is the pairing of their texts, and on a good stream, read to its end, the pairing of its lines |
| BufferEnd.ReadAll | atc/atchannel.c:502-511 | a new reader on any events: without "> " it leaves its buffer if and only if a read fills its room, so never on a stream of less than 4096 bytes, and always when 4096 or more come first in one piece |
| BufferEnd.ReadInOnePiece | atc/atchannel.c:502-511 | a stream without "> " in one piece leaves the buffer if and only if it has at least 4096 bytes |
| BufferEnd.GoodStreamLeavesBuffer | atc/atchannel.c:502-511 | a good stream of 4096 bytes leaves the buffer, though all of its lines come back |
| BufferEnd.PromptAtTheEnd | atc/atchannel.c:532-535 | after newlines and a prompt in one read the cursor is three cells behind the newlines, and with the next call the buffer is left if and only if that is its end or behind it |
| Resync.SplitInTwo | atc/atchannel.c:413-424 | splitting a stream is splitting a front of it and going on with the text begun |
| Resync.LinesArePassed | atc/atchannel.c:477-542 | on a stream without "> ", with lines of any length, the lines of the stream are exactly those the readings pass, in order: the ones ditched whole and the ones whose end is returned |
| Resync.ReadOverlong | atc/atchannel.c:575-614 | the reader's loop on any stream without "> ", cut in any way, dispatches the pairing of the texts of such readings |
| Resync.WholeExactly | atc/atchannel.c:477-542 | a text returned is the whole line if and only if nothing was skipped before it or the last byte skipped was a newline, and otherwise the end of the line |
| Resync.FittingLineComesBack | atc/atchannel.c:477-542 | wherever a reading starts, a line that fits the buffer with the newlines in front of it comes back whole and nothing is ditched |
| PromptCase.ReadPrompt | atc/atchannel.c:415-418 | with newlines pending and a prompt arriving, the pending bytes afterwards are the string the buffer held three cells behind the prompt |
| PromptCase.PromptThenReply | atc/atchannel.c:532-535 | for any newlines around a line, a prompt and a reply: what is read for the reply, and that it is the reply if and only if the line with the newlines in front is no longer than the prompt's newlines and three cells, or newlines come first and the rest of the line happens to equal the reply |
| PromptCase.FramedPromptThenReply | atc/atchannel.c:532-535 | framed with CR LF, the line is read again from its fourth character on in place of the reply, if it has one |
| PromptCase.BarePromptThenReply | atc/atchannel.c:532-535 | with bare CR, the reply is intact if and only if the line has at most three characters |
| EndToEnd.CallsGetFinalsOf | atc/atchannel.c:575-614 | if the lines read start a list without a final behind an odd number of headers, the k-th call is given the k-th final of the list |
| EndToEnd.ReaderFeedsCalls | atc/atchannel.c:575-614 | from bytes to calls: the reader's loop on a good stream, cut into reads in any way or cut short, feeds any run of the issuer without a timeout so that the k-th call is given the k-th final line printed |
| Wire.Line.Write | atc/atchannel.c:650 | a write puts a front of the data on the wire, or nothing |
| Wire.Line.WriteAll | atc/atchannel.c:648-658 | the loop sends all of the data unless a write fails, and then a proper front of it |
| Wire.Line.WriteLine | atc/atchannel.c:623-677 | on both paths success means exactly command and CR were sent and happens exactly when no write failed; a failure leaves a proper prefix |
| Wire.Line.WriteCtrlZ | atc/atchannel.c:678-716 | the same for a PDU and control-Z |
| TimedWait.SetTimespecRelative | atc/atchannel.c:103-118 | the deadline is the clock plus the time, with nanoseconds below 10^9 |
| TimedWait.SlicesCover | atc/atchannel.c:123-129 | slices of a quarter, or of 1 ms below 4 ms; at least four and at most seven of them, their total between the time asked for and one slice more |
| TimedWait.DefaultWait | atc/atchannel.c:1078-1079 | a call without a time waits 15 seconds in four slices of 3750 ms |
| TimedWait.ShortWaitsDoNotWrap | atc/atchannel.c:129 | below 2^31 ms the 32-bit counter cannot wrap |
| TimedWait.WrapsFrom | atc/atchannel.c:129 | the width of the counter: 4294967292 ms do not wrap it, 4294967293 ms do |
| TimedWait.CounterEnd | atc/atchannel.c:129 | after the last slice the loop ends exactly when the counter has not wrapped |
| TimedWait.SlicedWait | atc/atchannel.c:120-144 | without wrap-around the wait expires exactly when all its slices do; with it, it starts over; every deadline is the clock plus a slice |
| Numbers.AccumulatePrinted | atc/at_tok.c:119 | reading the digits of a printed number gives the number |
| Numbers.DigitSpelled | atc/at_tok.c:113-121 | the digits of base 10 and 16 |
| Numbers.NumeralReads | atc/at_tok.c:113-121 | blanks, a sign, a hexadecimal prefix, digits and anything behind: the number, saturated at the ends of 64 bits and cut to 32 |
| Numbers.NothingReads | atc/at_tok.c:123-125 | nothing is converted where no digit follows the blanks and the sign |
| Numbers.PrintedIntReads | atc/at_tok.c:113-121 | a printed 32-bit int survives strtol and the conversion to int |
| Numbers.PrintedHexReads | atc/at_tok.c:148-151 | any number below 2^64 printed in hexadecimal, in either case, with or without prefix, reads back as its lower 32 bits |
| Numbers.AreaCodeReads | atc/cellMgtFrame.c:526-528 | C4ED is 50413 in base 16 and no number in base 10 |
| Tok.CollapseIdempotent | atc/at_tok.c:208-227 | collapsing leaves no adjacent commas, keeps all other characters in order and is idempotent |
| Tok.CollapseAround | atc/at_tok.c:218-223 | collapsing works separately on the two sides of any other character |
| Tok.SepIs | atc/at_tok.c:83-86 | strsep cuts at the first delimiter or takes the rest |
| Tok.DashIsToken | atc/at_tok.c:267-272 | the dash rule moves the cursor as taking the token would |
| Tok.ScanIsTokenwise | atc/at_tok.c:251-298 | directive k meets token k: the count is the first pair that does not convert or the end of either list, and each slot is the conversion of its own token |
| Scanner.Cursor.Start | atc/at_tok.c:31-49 | the cursor is behind the first colon, or NULL with -1 when there is none |
| Scanner.Cursor.StrSep | atc/at_tok.c:83 | the token is the part before the delimiter, ended in place, and nothing outside it changes |
| Scanner.Cursor.NextTok | atc/at_tok.c:73-90 | refines the token function on the rest of the line, the token a string in the buffer that lies before the new cursor |
| Scanner.Cursor.NextInt | atc/at_tok.c:100-129 | stores the converted token, or 0 and -1 when it has no digits |
| Scanner.Cursor.NextBool | atc/at_tok.c:153-174 | accepts exactly the ints 0 and 1 |
| Scanner.Cursor.NextStr | atc/at_tok.c:176-185 | gives the token as a pointer into the buffer |
| Scanner.Cursor.HasMore | atc/at_tok.c:188-191 | true exactly when the rest is not empty |
| Scanf.RemoveConsecutiveCommas | atc/at_tok.c:208-227 | the in-place loop with its two indices computes the collapsed string |
| Scanf.AtTok.Directive | atc/at_tok.c:264-295 | one directive converts the next token as the reference does, leaving earlier strings intact |
| Scanf.AtTok.AtTokScanf | atc/at_tok.c:230-305 | the count and every output are those of the tokenwise reference, strings valid in the line buffer at the end; a NULL line or one without a colon gives 0 |
| RoundTrip.QuotedIsToken | atc/at_tok.c:79-82 | a quoted token ends at the second quote and the scan goes on behind the next comma; one never closed takes the rest |
| RoundTrip.FieldIsToken | atc/at_tok.c:73-90 | a printed field, with blanks in front, before the end or a comma is one token, and is taken for a missing value exactly when it is its dash |
| RoundTrip.FieldConverts | atc/at_tok.c:267-290 | each directive gives its field back: ints, hexadecimal numbers, 0 and 1, quoted and bare strings; a dash gives -1 to an int and leaves other variables alone |
| Formats.FormatDirectives | atc/at_tok.c:251-261 | a format of directives with any commas and blanks between them has those directives, and then those of what follows |
| Formats.DirectivesStop | atc/at_tok.c:255-257 | and no more at a character that belongs to none |
| RoundTrip.FieldsRoundTrip | atc/at_tok.c:230-305 | any list of fields behind a colon-free prefix, with any blanks in front of each and anything behind a comma after the last, under a format with a directive for each and anything behind: all fields come back unchanged, each in its variable, and the scan goes on with the rest of both (a first place holder is hidden by the blank in front of it and is no place holder) |
| RoundTrip.ScanEnds | atc/at_tok.c:255-298 | where it then ends: at the end or a stray character of the format, at the end of the line, or at a directive that refuses its field, whose int is then 0 |
| RoundTrip.ScanPrinted | atc/at_tok.c:230-305 | the scanner itself, on such a line of less than 256 characters, returns the number of fields up to that end and leaves every one of them in its variable |
| Cme.GetCmeError | atc/atchannel.c:1335-1368 | 0 for a success; -1 for no response, no final line, or a failed one whose final line does not begin with "+CME ERROR:"; otherwise the code function |
| Cme.TextIsRead | atc/atchannel.c:1353-1365 | the code is the number at the front of the text behind the colon, up to a comma, and -1 if there is none |
| Cme.QuotedIsRead | atc/atchannel.c:1353-1365 | the same for a text in quotes |
| Cme.NumberIsCode | atc/atchannel.c:1359-1367 | a sign and digits there are the code, cut to 32 bits, whatever follows |
| Cme.NoNumberNoCode | atc/atchannel.c:1359-1363 | -1 when nothing or no number is there |
| Cme.ErrorCodeArrives | atc/atchannel.c:1335-1368 | on every interleaving the last final line a delivered call has heard decides its code: 0 for a success, -1 for an error other than +CME ERROR, and n for the error line of any 32-bit n |
| Strtok.FirstSegment | atc/at_tok.c:321-327 | strtok's first segment: delimiters skipped, text up to the next delimiter or the end |
| Strtok.SegmentsAround | atc/at_tok.c:321-327 | a token between delimiters or the ends splits the segments of a text into those in front, itself and those behind |
| Strtok.SegmentStands | atc/at_tok.c:321-327 | and every segment stands so, behind exactly those before it |
| Strtok.Scan.Next | atc/at_tok.c:338-387 | each call returns the next non-empty segment, ended in place, or NULL when there is none |
| ByIndex.Select | atc/at_tok.c:313-341 | of the first 1023 characters: the segment behind exactly k-1 others for k, the one in front of exactly k-1 others for -k, and -2 exactly when there is none |
| ByIndex.ChosenIs | atc/at_tok.c:330-334 | no other text stands there, and none where there are not as many segments |
| ByIndex.FromEitherEnd | atc/at_tok.c:330 | of n segments, the one at k is the one at k-n-1 |
| ByIndex.LastIsChosen | atc/at_tok.c:330 | -1 chooses the text behind the last delimiter |
| ByIndex.Apply | atc/at_tok.c:343-385 | every directive of the format is applied to the same segment, up to the first without a variable (-2), the first unknown one (-3), the first without memory for its string (-1) or the first stray character (-2) |
| ByIndex.AllApplied | atc/at_tok.c:343-385 | when every directive can use its variable each leaves what it makes of the token, and 0 is returned, or -2 at a stray character |
| ByIndex.FirstRefused | atc/at_tok.c:353-381 | the first directive that cannot use its variable: -2 without one, -3 for an unknown directive, -1 without memory; the ones before it have done their work |
| ByIndex.AtTokByIndexScanf | atc/at_tok.c:307-391 | -1 for a missing argument, -2 where there is no such segment, and otherwise the result of the format on the segment at that place |
| ByIndex.LastPart | atc/at_tok.c:307-391 | index -1 and "%s" give the text behind the last delimiter, for every line of less than 1024 characters |
| ByIndex.HandlerName | request_proc.c:294 | the call that looks up a handler gets lockband from /api/get/lockband |
| Bands.StripInPlace | atc/cellMgtFrame.c:1066-1075 | the src/dst loop removes exactly the dropped characters |
| Bands.StripSnoc | atc/cellMgtFrame.c:1066-1075 | stripping goes character by character |
| Bands.Append | atc/cellMgtFrame.c:1094-1098 | strncat appends as much as leaves the string within its buffer |
| Bands.JoinedSnoc | atc/cellMgtFrame.c:1086-1118 | a string joins the list behind a colon unless the array was empty so far, and anything else adds nothing |
| Bands.ParseBandsJson | atc/cellMgtFrame.c:1077-1120 | each buffer holds the first 159 characters of the joined strings without B and N; a document that does not parse changes nothing |
| Bands.FmtBands2Json | request_proc.c:145-165 | appends the prefixed, nine-character cut of every segment of the cleaned list |
| BandRoundTrip.RoundTripExactly | request_proc.c:145-165 | for every list of digit strings, formatting and parsing give it back exactly when no band exceeds eight digits and the prefixed list fits 159 characters |

## Left out

- `uart_open`, termios, `poll`, `exit`, signals and logging: reads and writes are lists of outcomes instead.
- `at_close`, `onReaderClosed`, `at_open` and two concurrent issuers: shutdown ends in `exit`, and the reader model stops at its last event.
- `at_handshake`: four calls of `SendCommandFull` with a shorter time.
- `writeraw` and `at_send_command_raw`: the raw data is an arbitrary initial value that processing a line may consume; its setting outside the lock and its bytes on the wire are not modelled.
- Times of 2^32 ms and more, which the original would cut to 32 bits on the way to the wait; its callers pass 0 and 1000.
- A NULL unsolicited handler, with which the original drops the lines that the model logs.
- Infinite waits: the schedules of reads, writes and waits are finite, so a descriptor that is interrupted for ever is not modelled.
- Streams that contain NUL bytes.
- The thread check of `at_send_command_full` and its timeout callback.
- ByIndex.Apply: records which text `%f` converts and not the float, and takes out of range ints as `strtol` saturates and cuts them; so does ByIndex.AtTokByIndexScanf.
- LineReader.Reader.ReadLine: takes the two cells behind the 4096 bytes to hold NUL and to keep what is stored there; once the original has left its buffer, what it finds there is not modelled.
- Protocol.Step: adds up the slices of a wait without wrapping around, for any time; Channel.Static.SendCommandFull therefore asks for a time whose counter does not wrap, which holds below 2^31 ms, and TimedWait.SlicedWait says what happens otherwise.
- Cme.GetCmeError: works on a copy of the final line, whereas the original lets `strsep` write into it.
- Bands.ParseBandsJson: a JSON array is a list of strings and other values; parsing JSON text and rejecting invalid UTF-8 are left to the library.
- `at_tok_count`, the device request functions, lookup tables, URL dispatch, JSON packing and the APN data: single branches or finite data.
