# e355-scpix in Dafny

The e355 tools drive an NB-IoT modem that sits behind a meter's optical head.
They write SCPI commands to the head's serial bridge. They switch the bridge
to pass-through (`SER:CON ON` … `+++`) so that AT commands reach the modem,
and they read the modem's replies back.

This project models the core of three Node programs:

- **src/e355-scpix.js**, the newer tool:
  - the polling AT sender, which strips forwarding-timeout notices and gives up after `timeout` ticks without data;
  - the resetting SCPI line reader;
  - the pass-through environment and the AT script runner;
  - `runat` line parsing and execution;
  - `tcpOpen`, `tcpClose`, `tcpSend` and `tcpSendBig`;
  - the `+QIRD` frame parser behind `tcpRecv`;
  - the ping loop's receive decision;
  - the MTU check;
  - the UART unlock retry loop.
- **src/e355scpi.js**, the older tool:
  - the timer-driven AT sender;
  - the keeping line reader;
  - its environment and script runner;
  - `sendat` line parsing and execution;
  - `tcpOpen`, `tcpClose` and `tcpSend`;
  - `commandTcpSend` slicing;
  - the regular-expression `+QIRD` parse.
- **netcli.js**:
  - the SCPI line sender and resetting reader;
  - the `poweron-modem` state machine;
  - the `initmodem` stepping;
  - the `forward` argument mapping.

The two tool versions are separate modules (`Scpix*` and `Scpi*`). What they share word for word is in `Protocol`, `LineReader`, `JsText` and `Unlock`. `Variants` compares their receive parsers.

Conventions:

- Time is abstract. A `setTimeout` wait is a `Delay(ms)` step in a trace, or a pending `Timer` that the environment fires.
- The serial device is parameters and events. Data arrives as chunks. Every line written is recorded.
- Each AT exchange's outcome is an input. The trace of commands issued is the output.
- JavaScript string operations are written out in `JsText`: `trim`, `slice` with its negative and NaN ends, `split`, `indexOf`, `parseInt` and unary plus.

## Model

| member | source | states |
|---|---|---|
| JsText.ToNumber | src/e355scpi.js:460 | unary plus: blank text is 0; digits give their decimal value, `+` digits the same and `-` digits its negation; any other non-blank text is NaN, and only that |
| JsText.NumberOfDec | src/e355-scpix.js:612-613 | unary plus reads a decimal rendering back as the number |
| JsText.ParseInt | src/e355scpi.js:270 | parseInt is NaN exactly when no digit follows the optional white space and sign; unsigned text gives a non-negative value |
| JsText.ParseIntDigits | src/e355scpi.js:270 | parseInt of a run of digits is their decimal value |
| JsText.TrimBlank | src/e355-scpix.js:255 | a line trims to the empty text exactly when it is all white space and line terminators |
| Protocol.TimerDelay | src/e355scpi.js:109 | a timer set for t fires after t when 1 <= t <= 2^31-1, otherwise after 1 tick |
| Protocol.LineBytes | src/e355-scpix.js:120-133 | the line sender writes the line followed by CRLF, or the line alone when raw |
| Protocol.Normalise | src/e355-scpix.js:151-154 | a falsy expect is no pattern, a string is one pattern, a list is kept |
| Protocol.SearchExpect | src/e355-scpix.js:156-162 | the search succeeds exactly when some expected pattern occurs in the response |
| Protocol.Bracket | src/e355-scpix.js:291-308 | the environment writes pass-through on, waits, runs the body, writes pass-through off, waits, and hands on the body's error |
| Protocol.BracketForwards | src/e355-scpix.js:291-308 | every AT command of a body that does not switch modes is sent in pass-through, and the bridge is left out of it |
| Protocol.BracketCommands | src/e355-scpix.js:291-308 | the environment adds no AT command of its own |
| Protocol.ToSpec | src/e355-scpix.js:318-323 | a bare entry gets the AT response delay and no expect; a tuple keeps its timeout and its expect unless falsy |
| Protocol.RunScript | src/e355-scpix.js:315-329 | the shift loop builds the trace that ScriptSteps specifies |
| Protocol.ScriptStopsAtFirstFailure | src/e355-scpix.js:315-329 | commands are issued in order up to and including the first failure, whose error ends the script |
| Protocol.ScriptRunnerIssues | src/e355-scpix.js:310-335 | the runner issues the script's commands up to the first failure, all in pass-through, leaves pass-through off, and reports that failure or success |
| Protocol.ReadLinesCount | src/e355-scpix.js:254-258 | the line handler yields one item per line that does not trim to nothing |
| Protocol.ReadLinesNoBlank | src/e355-scpix.js:254-258 | without blank lines, the i-th item is the i-th line's, in order |
| Protocol.ReadLinesAllBlank | src/e355-scpix.js:254-258 | blank lines yield nothing |
| LineReader.ResetAllConserves | netcli.js:35-43 | the resetting reader loses and duplicates nothing; every text it hands on ends with a newline; what it keeps never does |
| LineReader.KeepAllWhole | src/e355scpi.js:137-146 | the keeping reader hands on, after each chunk, the trimmed text of everything received so far, or nothing |
| ScpixAt.Poll | src/e355-scpix.js:164-188 | a poll strips every timeout notice, writes one keep-alive if any was present, succeeds when a pattern occurs, and fails (or succeeds when none was expected) after `timeout` ticks of silence |
| ScpixAt.ReplayConsistent | src/e355-scpix.js:141-205 | after any data and polls, the verdict agrees with the response, and once given it never changes |
| ScpixAt.SilenceEnds | src/e355-scpix.js:183-186 | a poll past the silence deadline ends the exchange; an earlier poll without a match changes nothing |
| ScpixAt.AtSender.constructor | src/e355-scpix.js:196-204 | the sender normalises the expect list, starts the silence clock and writes the command |
| ScpixAt.AtSender.OnData | src/e355-scpix.js:189-193 | data is appended and restarts the silence clock |
| ScpixAt.AtSender.OnPoll | src/e355-scpix.js:164-188 | one poll as Poll states; the next poll is scheduled PollInterval (20) ticks later exactly while the exchange is open |
| ScpixAt.SilentPollsEnd | src/e355-scpix.js:183-188 | with a finite timeout and no data, the first poll at or past the silence deadline has ended the exchange |
| ScpixAt.SilentPollsEndBy | src/e355-scpix.js:164-204 | with no data and a finite timeout, the exchange ends at a poll less than one poll interval after `lastRecvTime + timeout` |
| ScpixAt.NaNTimeoutPollsForever | src/e355-scpix.js:183-188 | with a NaN timeout, no data and no match, polling never ends the exchange |
| ScpixAt.ScpiResponseHandler.OnData | src/e355-scpix.js:230-240 | once the buffer ends with a newline its text is handed on trimmed and the buffer emptied |
| ScpixScript.TimingFor | src/e355-scpix.js:49-66 | both timing profiles stay in a Node timer's range; simulation waits as long as a timer can |
| ScpixScript.AtScriptRunner | src/e355-scpix.js:310-335 | the script runs inside the environment with a 500-tick settle and the profile's AT delay |
| ScpixScript.RunAtLineRoundTrip | src/e355-scpix.js:608-615 | a `command;timeout;expect` line reads back as that spec |
| ScpixScript.RunAtLineDefaults | src/e355-scpix.js:608-615 | a line without `;` is a bare command with the AT delay and OK-or-ERROR expected |
| ScpixScript.ReadSpecsLines | src/e355-scpix.js:254-258 | without blank lines, the i-th spec is the i-th line parsed as a `runat` line; a file of blank lines gives none |
| ScpixScript.ReadAtFile | src/e355-scpix.js:254-258 | the line loop collects what ReadSpecs specifies |
| ScpixScript.RunAtSteps | src/e355-scpix.js:620-627 | each spec is issued once, in order, followed by the 50-tick pause, without switching modes |
| ScpixScript.ExecSpecs | src/e355-scpix.js:620-627 | the shift loop builds the steps RunAtSteps specifies |
| ScpixScript.RunAt | src/e355-scpix.js:605-635 | runat sets the forwarding timeout and then runs every spec in the environment |
| ScpixScript.RunAtIssues | src/e355-scpix.js:605-635 | runat issues exactly the file's non-blank lines, in order, in pass-through, and leaves it off |
| ScpixTcp.CheckMtu | src/e355-scpix.js:110-113 | as written: an MTU is refused exactly when it is a number outside 1..1006, so NaN passes |
| ScpixTcp.SendBigStep | src/e355-scpix.js:378-387 | one call of `send` splits the text into the slice written and the text still to send, losing nothing |
| ScpixTcp.NaNMtuSendsNothing | src/e355-scpix.js:110-113 | a NaN MTU passes the check, and `send` then writes an empty slice and goes on with the whole text, for ever |
| ScpixTcp.CheckMtuStrict | src/e355-scpix.js:110-113 | corrected check: only an integer MTU from 1 to 1006 passes |
| ScpixTcp.StrictMtuSends | src/e355-scpix.js:378-387 | with an MTU the corrected check passes, each call of `send` writes the next non-empty slice of Chunks |
| ScpixTcp.TcpOpen | src/e355-scpix.js:337-345 | one `at+qiopen` command; its outcome is the result |
| ScpixTcp.TcpClose | src/e355-scpix.js:347-358 | one `at+qiclose` command; its error is discarded |
| ScpixTcp.TcpSend | src/e355-scpix.js:360-376 | the payload is written only after the prompt succeeded; the first error is the result |
| ScpixTcp.Chunks | src/e355-scpix.js:378-387 | the slices concatenate to the text; each is non-empty and at most one MTU; all but the last are exactly one MTU |
| ScpixTcp.ChunkCount | src/e355-scpix.js:378-387 | there are ceil(length / mtu) slices |
| ScpixTcp.SendBigInOrder | src/e355-scpix.js:378-387 | payloads reach the modem in order up to the first failed slice; with no failure they make up the whole text; otherwise that slice's error ends the send |
| ScpixTcp.ReadLength | src/e355-scpix.js:407-414 | the digit loop computes the value of the leading digits and strips them |
| ScpixTcp.ParseQird | src/e355-scpix.js:398-420 | the parse returns what Qird specifies |
| ScpixTcp.TcpRecv | src/e355-scpix.js:389-421 | one `at+qird=0,<mtu>` exchange with the receive timeout and the `\r\nOK\r\n` expect; an AT error is handed on; otherwise the reply is parsed |
| ScpixTcp.QirdComplete | src/e355-scpix.js:389-421 | every well-formed frame yields its payload, whatever precedes the head or follows the payload |
| ScpixTcp.QirdSound | src/e355-scpix.js:389-421 | every accepted reply is a head, digits n, CRLF, n payload characters, anything, then the tail |
| ScpixTcp.QirdChecks | src/e355-scpix.js:401-406 | a reply without the head, or not ending in `\r\nOK\r\n`, is invalid; otherwise the text between them is parsed |
| ScpixTcp.QirdAfterChecks | src/e355-scpix.js:414-419 | after the digits, a missing CRLF or fewer characters than announced is invalid; otherwise the first `len` characters are the payload |
| ScpixTcp.QirdAnnounced | src/e355-scpix.js:389-421 | a frame whose digits announce exactly its payload's length yields the payload |
| ScpixTcp.QirdOwnLength | src/e355-scpix.js:389-421 | a frame carrying its own length yields its payload |
| ScpixTcp.QirdExampleFour | src/e355-scpix.js:389-421 | `+QIRD: 4\r\nABCD\r\nOK\r\n` yields `ABCD` |
| ScpixTcp.QirdExampleEmpty | src/e355-scpix.js:389-421 | `+QIRD: 0\r\n\r\nOK\r\n` yields the empty text |
| ScpixTcp.QirdShortFrame | src/e355-scpix.js:389-421 | any frame announcing one character more than it carries is invalid |
| ScpixTcp.QirdExampleShort | src/e355-scpix.js:389-421 | a frame announcing more than it carries is invalid |
| ScpixTcp.PingStep | src/e355-scpix.js:800-831 | a receive error ends the ping with that error; new data means another read; on an empty read the ping stops exactly when the echo is as long as what was sent or the wait has run out, and otherwise reads again with the echo unchanged; when it stops, success is exactly echo equal to what was sent |
| Unlock.Expecting | src/e355-scpix.js:988-1004 | a SCPI step succeeds exactly when its answer contains the expected word; no answer is the command's timeout error |
| Unlock.AttemptOutcome | src/e355-scpix.js:1022-1050 | an attempt succeeds exactly when the reboot and the loopback answers say OK and the AT test passes; a failed reboot gives its error, then a failed loopback gives its error, and otherwise the AT test's outcome is the attempt's |
| Unlock.AtTest | src/e355-scpix.js:959-967 | the AT test issues one `at` command expecting OK within the AT delay, in pass-through, leaves pass-through off, and hands on its outcome |
| Unlock.ScheduleRetry | src/e355-scpix.js:1006-1014 | the fifth failure gives up with the max-repeat error; any earlier one moves to the next attempt |
| Unlock.Unlock | src/e355-scpix.js:958-1053 | at most five attempts; the procedure stops at the first success; otherwise it ends with `reached max repeat count(5)` |
| Unlock.LinkTest | src/e355-scpix.js:968-987 | polling stops at the first answer naming LANDIS, with one cable warning per five failed polls |
| ScpiAt.Receive | src/e355scpi.js:100-107 | data is appended; the exchange succeeds exactly when a pattern now occurs |
| ScpiAt.Fire | src/e355scpi.js:87-92 | the timer ends an open exchange, with success exactly when nothing was expected |
| ScpiAt.ReplayConsistent | src/e355scpi.js:72-113 | after any data and timer events, the verdict agrees with the response; the deadline and the written line never move; an ended exchange never changes |
| ScpiAt.FeedEndsOnMatch | src/e355scpi.js:100-107 | before the timer, the exchange ends exactly when the data so far contains a pattern, and then succeeds |
| ScpiAt.AtSender.constructor | src/e355scpi.js:73-111 | the sender normalises the expect list, arms one timer and writes the command |
| ScpiAt.AtSender.OnData | src/e355scpi.js:100-107 | data handling as Receive states |
| ScpiAt.AtSender.OnTimer | src/e355scpi.js:87-92 | the timer as Fire states |
| ScpiAt.RespHandler.OnData | src/e355scpi.js:137-146 | the buffer grows and is never emptied; its trimmed text is handed on when it ends with a newline and has three or more characters |
| ScpiScript.AtScriptRunner | src/e355scpi.js:192-217 | the script runs in the environment with a 2000-tick settle and a 1000-tick AT delay |
| ScpiScript.SendAtLineRoundTrip | src/e355scpi.js:455-464 | a `command,timeout,expect` line reads back as that spec |
| ScpiScript.SendAtLineDefaults | src/e355scpi.js:455-464 | a line without `,` is a bare command with a 1000-tick timeout and OK-or-ERROR expected |
| ScpiScript.SendAtEmptyTimeout | src/e355scpi.js:460 | an empty timeout field reads as 0, so the command's timer fires after one tick |
| ScpiScript.ReadSpecsLines | src/e355scpi.js:455-464 | without blank lines, the i-th spec is the i-th line parsed as a `sendat` line; input of blank lines gives none |
| ScpiScript.ReadSendAtFile | src/e355scpi.js:455-464 | the line loop collects what ReadSpecs specifies |
| ScpiScript.SendAtSteps | src/e355scpi.js:467-472 | each spec is issued once, in order, with no pause, without switching modes |
| ScpiScript.ExecSpecs | src/e355scpi.js:467-472 | the shift loop builds the steps SendAtSteps specifies |
| ScpiScript.SendAt | src/e355scpi.js:442-476 | sendat runs every spec in the environment and succeeds |
| ScpiScript.SendAtIssues | src/e355scpi.js:465-475 | sendat issues exactly the input's non-blank lines, in order, in pass-through, and leaves it off |
| ScpiTcp.TcpOpen | src/e355scpi.js:219-228 | one `at+qiopen` command with a 30000-tick timeout; its outcome is the result |
| ScpiTcp.TcpClose | src/e355scpi.js:230-239 | one `at+qiclose` command; its error is handed on |
| ScpiTcp.TcpSend | src/e355scpi.js:241-257 | the prompt request and then the payload are always both issued; the payload's outcome is the result |
| ScpiTcp.TcpSendIgnoresPrompt | src/e355scpi.js:248-256 | the prompt's outcome changes nothing |
| ScpiTcp.SliceSizes | src/e355scpi.js:607-619 | no slice at all when the length or the MTU is not positive |
| ScpiTcp.SendStepSizes | src/e355scpi.js:607-617 | on integers, each step of `send` takes the next of the sizes SliceSizes lists, and stops exactly when none is left |
| ScpiTcp.NaNSendNeverStops | src/e355scpi.js:607-617 | as written, a NaN MTU, or a NaN length with a positive MTU, never stops `send`: NaN is left to send after every step |
| ScpiTcp.SliceSizesSum | src/e355scpi.js:607-619 | with a positive MTU the slice sizes add up to the length; each is 1..mtu; all but the last equal the MTU; there are ceil(len / mtu) of them |
| ScpiTcp.SendSlicesIssues | src/e355scpi.js:607-620 | slices are sent in order, prompt and payload each, up to and including the first failed payload, whose error ends the send |
| ScpiTcp.CommandTcpSendAll | src/e355scpi.js:591-622 | with every payload through, the command succeeds and writes every slice, the sizes adding up to `len` |
| ScpiTcp.LineEnd | src/e355scpi.js:267 | the captured group ends at the first line terminator |
| ScpiTcp.FirstMatch | src/e355scpi.js:267 | the match is the leftmost position where the head is followed by a line ending in CRLF |
| ScpiTcp.TcpRecv | src/e355scpi.js:259-273 | one `at+qird=0,<mtu>` exchange with a 1000-tick timeout and the `OK\r\n` expect; an AT error is handed on; otherwise the reply is parsed |
| ScpiTcp.OldQirdNoHead | src/e355scpi.js:267-268 | a reply without the head is the read error |
| ScpiTcp.OldQirdTakes | src/e355scpi.js:267-271 | after a header announcing n, the parse returns the next n characters, or all that follow when fewer remain; the rest of the reply is not checked |
| ScpiTcp.OldQirdFrame | src/e355scpi.js:267-271 | a well-formed frame yields its payload |
| ScpiTcp.OldQirdHeaderFirst | src/e355scpi.js:267-271 | a reply opening with the header yields the announced number of following characters, or all of them when fewer follow |
| ScpiTcp.OldQirdAnnounced | src/e355scpi.js:267-271 | a header announcing n, followed by at least n characters, yields exactly the first n of them |
| ScpiTcp.OldQirdShortFrame | src/e355scpi.js:267-271 | a header announcing one character more than the payload yields the payload and the character after it, with no error |
| NetCli.ScpiLine | netcli.js:15-24 | every command is written followed by CRLF |
| NetCli.ScpiLineAgrees | netcli.js:15-24 | the line is what the modem tools write for a non-raw line; distinct commands give distinct lines |
| NetCli.PowerStart | netcli.js:81-109 | the command starts querying and reads the power-good pin |
| NetCli.OnResponse | netcli.js:83-107 | responses are ignored unless querying; `0` starts setting and asserts DCC; `1` ends the command; anything else schedules another pin read |
| NetCli.ReplayInv | netcli.js:75-110 | after any data and timers: setting exactly while one power-key sequence is pending; nothing pending after exit; only the three pin commands written; nothing written is taken back |
| NetCli.PowerKeySequence | netcli.js:87-97 | `0` leads to asserting DCC, pressing the power key and reading the pin again, back in querying with the other timers unchanged |
| NetCli.PowerOnCommand.constructor | netcli.js:108-109 | the listener is installed and the power-good pin read |
| NetCli.PowerOnCommand.OnData | netcli.js:83-107 | a chunk goes through the resetting reader and then the handler, as Receive states |
| NetCli.PowerOnCommand.Respond | netcli.js:83-107 | a complete response is handled as OnResponse states |
| NetCli.PowerOnCommand.OnTimer | netcli.js:90-106 | a pending timer fires as Fire states |
| NetCli.ExecAt | netcli.js:172-189 | the index loop builds the steps ExecAtSteps specifies |
| NetCli.ExecAtWrites | netcli.js:172-189 | the stepping writes each command of the list once, in order, and nothing else |
| NetCli.InitModem | netcli.js:148-201 | initmodem switches pass-through on and steps through the list |
| NetCli.AtListPlain | netcli.js:149-171 | the modem list holds no pass-through command |
| NetCli.InitModemIssues | netcli.js:148-201 | initmodem writes pass-through on and then each command exactly once, in order, and leaves the bridge in pass-through |
| NetCli.Forward | netcli.js:124-139 | `on` and `off` write the pass-through commands, which set the mode on and off; any other argument is `Bad argument` |
| Variants.ReceiversAgree | src/e355scpi.js:259-273 | both versions read a well-formed frame as the same payload |
| Variants.ReceiversDisagreeOnShortFrame | src/e355-scpix.js:389-421 | on any frame announcing one character more than it carries, the newer version reports it invalid and the older returns the payload followed by `\r` |

## Left out

- Serial and socket I/O, console output, `process.exit` and argument parsing are left out. Devices are chunk and event sequences; exit is a `done` flag.
- Expect patterns are searched as plain substrings. `String.search` compiles them as regular expressions. The tools' own fixed patterns (`OK`, `ERROR`, `LANDIS`, `OK\r\n`, `\r\nOK\r\n`, `SEND OK\r\n`, `> \r\n`, `PROMPT\r\n`, `PROMPT \r\n`, `MODEM TIMEOUT`) contain no regular-expression metacharacters, so for them the two agree. The `+QIRD` heads are regular expressions in the source and are modelled separately (`Protocol.Head`, `ScpiTcp.FirstMatch`). Only the user-supplied expects of `runat` and `sendat` lines are real regular expressions, and those are compared as substrings here.
- A `String` is JavaScript text after decoding, one `char` per UTF-16 code unit. Every reader builds it with `Buffer.toString()`, which decodes UTF-8 and can split a multi-byte character across chunks; decoding is left out. The `+QIRD` length counts modem bytes while the parsers count characters, so `ScpixTcp.QirdComplete`, the other frame lemmas and `Variants` assume ASCII replies and payloads, where the two counts agree.
- `JsText.ToNumber` and `JsText.ParseInt` read decimal integers only. Fractions, exponents, hexadecimal and `Infinity` are left out.
- ScpiTcp.SliceSizes: takes integers. A NaN `len` or `mtu` is modelled by `ScpiTcp.SendStep` (see Findings). A fractional `len` or `mtu` is not: the text loop then adds empty slices once less than one character is missing, and spins.
- ScpixTcp.Chunks: takes an integer MTU. A fractional MTU passes the check and `parseInt` truncates it before slicing; that step is not modelled.
- `randBoxMuller`, `generateText` and the Lorem Ipsum generator are random. Generated texts are parameters; the unlock delay is not modelled.
- `commandTest`, `commandConnect`, `commandModemPower`, `commandConfigModem`, `commandModemInfo`, `commandActivatePDP`, `commandRebootDevice`, `commandSciLoopback`, `commandSend`, `commandRunScpi`, `fileReducer`'s stream handling, netcli's `poweroff-modem` and `exec`, and src/tcp-echo.js are outside the modelled core.
- The older `commandTcpRecv` loop and the ping statistics are left out; the ping model covers only the decision after each receive.
- `runScpi` is an answer-or-timeout input (`Unlock.ScpiReply`) rather than a listener.
- Unlock.Unlock: each attempt's outcome is an input, not its steps over time. AttemptOutcome states how one attempt ends.
- Unlock.LinkTest: the real poll never stops while the link is down; the model reads a finite prefix of replies.
- NetCli.ReplayInv: timers fire in an order the environment chooses, not by due time. The invariant holds for every order.
- NetCli.InitModem: the responses it prints are left out; the listener it fails to remove only keeps appending to its own unused buffer.
- ScpiTcp.TcpSendIgnoresPrompt: the older send reports only the payload's outcome; that is what the source does.

Where the written description of the tools and the code differ, the model follows the code:

- The newer `tcpRecv` accepts an empty length field, which reads as 0. It also accepts extra characters after the payload, and a head preceded by other text.
- The environment never checks the outcome of `SER:CON ON`.
- No acknowledgement is polled after a send.
- The older `tcpClose` hands on its error; the newer one discards it.

## Findings

| source | as written | input that shows it | evidently intended | confidence | as-written member | corrected member |
|---|---|---|---|---|---|---|
| src/e355-scpix.js:110-113, 378-387 | `argv.mtu < 1 \|\| argv.mtu > maxMtu` is false for NaN, so a NaN MTU passes; `tcpSendBig` then writes `text.slice(0, NaN)`, which is empty, and recurses on `text.slice(NaN)`, the whole text | `--mtu x`: a number option holds NaN for non-numeric text | refuse any MTU that is not an integer from 1 to 1006, so that each slice is non-empty | medium, not executed | ScpixTcp.NaNMtuSendsNothing | ScpixTcp.CheckMtuStrict |
| src/e355scpi.js:607-617 | `thisLen <= 0` is false when `thisLen` is NaN, and `len - thisLen` is NaN again, so `send` never stops | `--mtu x`, or `--len x` with a positive MTU | only integer `len` and `mtu` reach the loop, which then ends after ceil(len / mtu) slices (`ScpiTcp.SliceSizesSum`) | medium, not executed | ScpiTcp.NaNSendNeverStops | ScpiTcp.SliceSizes |
