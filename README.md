# sigfox-iohtee-driver, modelled in Dafny

The driver talks to a Sigfox radio module over a serial line with AT commands.
Each command is one *transaction*. The command text goes out with a carriage
return. A handler then collects the lines the module sends back, until one of
three things happens: a line containing the success reply, a line containing
the error reply, or the timeout. Everything else in the driver is built on
that: the liveness check (`AT`), the information, temperature, voltage and
radio-status queries, the payload send (`sendBytes`: validate, read the radio
status, reset the channel if needed, send `AT$SF=<hex>`) and the metadata walk
over the `COMMAND.ATI` catalog.

The model has six modules:

- `Wrappers`: `Option` and `Result`. A `Result` is how a promise of the driver
  settles: fulfilled with a value, or rejected with an `Error` message.
- `Constants`: the `COMMAND.ATI` catalog as an ordered sequence of (field name,
  code) pairs, in declaration order, which is the order `Object.keys` reports
  them in.
- `JsText`: the JavaScript string operations the driver relies on, on
  `seq<char>`:
  - CR/LF removal;
  - literal pattern matching;
  - `split` on one character;
  - `parseInt` without a radix, following ECMAScript;
  - decimal formatting of a code;
  - `Buffer.toString('hex')`.
- `Transaction`: `_waitDataReceive`, in two forms.
  - A specification: `Step` over one event (a line arrives, or the timer
    fires) and `Run`, its fold over an event sequence.
  - The handler as the source runs it: the class `Transaction`, with the
    `done` flag, the history array, the registered listener, the armed timer
    and the settled promise as fields. The method `Transact` feeds it the
    events in order, and is proved to end exactly in the state and settlement
    of `Run`.
  - `Conclude` is the transaction as its caller sees it: the module's lines,
    then the timer if nothing settled it first.
- `Driver`: the command layer.
  - `_commandSend` composition (`Command`, `WireText`) and the getters.
  - Radio-status parsing and the reset decision.
  - `sendBytes` (`SendBytes`), and the ready wait (`WaitPortReady`).
  - An operation takes a `Script`: the events the module produces during each
    transaction it issues, in order. It returns a `Trace`: the commands it
    issued, in order, and how it settled.
- `Metadata`: `getModuleMetadata`.
  - `Plan()` is the sequence of steps: the catalog fields, then the
    temperature, then the voltages.
  - `Walk` is the source's recursion on the index.
  - `GetModuleMetadata` / `WalkPlan` is the same walk as a loop. It has an
    accumulator map and runs every query through a fresh `Transaction` object.

The source matches replies with `line.match(pattern)`. The only patterns it
ever passes are the literals `OK` and `ERROR`, which have no metacharacters, so
matching is substring containment (`Contains`).

A success reply counts only when it is truthy: the queries pass `false`. The
model writes that as `None`; `Some("")` is treated as falsy too.

## Model

| member | source | states |
|---|---|---|
| `Transaction.Transaction.constructor` | lib/iohteeDriver.js:61-64 | a new handler has an empty history, is not done, has its listener registered and its timer armed, and nothing has settled |
| `Transaction.Transaction.Receive` | lib/iohteeDriver.js:74-94 | a line reaching the listener has all CR/LF removed and is appended to the history; it is then classified if not yet done, and a decision removes the listener, clears the timer and settles the promise; the new state is `Step` of the old; a line arriving after the listener was removed changes nothing; an existing settlement is never replaced |
| `Transaction.Transaction.TimerFires` | lib/iohteeDriver.js:64-73 | an armed timer removes the listener, keeps the history and marks the transaction timed out; it rejects with `timeout` when a success reply was required and resolves with the history otherwise; a cleared timer changes nothing |
| `Transaction.Transact` | lib/iohteeDriver.js:60-97 | feeding a fresh handler the events in order ends in exactly the settlement `Settle(Run(events))` of the fold |
| `Transaction.Await` | lib/iohteeDriver.js:60-97 | a transaction run to its end (the events, then the timer) settles as `Conclude` |
| `Transaction.Step` | lib/iohteeDriver.js:74-93 | one event for the handler: a line is stripped, appended and classified while listening, the timer marks it timed out, and a settled state ignores both; what the fold of it means is stated by `RunFromListening`, `SettledIsFinal` and `HistoryAppendOnly` |
| `Transaction.Run` | lib/iohteeDriver.js:60-97 | the events given to the handler in arrival order; characterised by `RunFromListening`, `FirstOutcomeFinal` and `LinesBeforeFirst`, and `Transact` is proved to follow it |
| `Transaction.Settle` | lib/iohteeDriver.js:64-73 | how the promise stands in a state: unsettled while listening, resolved with the history on success or collect-mode timeout, rejected with `Received (<errorReply>)` or `timeout`; used by `ConcludeFromFirst`, `TimeoutRule` and `ErrorRejects` |
| `Transaction.Classify` | lib/iohteeDriver.js:78-85 | a stripped line decides success when a truthy success reply occurs in it, tested first, otherwise failure when the error reply occurs in it, otherwise nothing; its effect is stated by `SuccessResolves` and `ErrorRejects` |
| `Transaction.Conclude` | lib/iohteeDriver.js:60-97 | what a caller of `_waitDataReceive` sees: the module's lines, then the timer if nothing settled it first; characterised by `ConcludeFromFirst`, and `Await` is proved to compute it |
| `Transaction.RequiredOutcome` | lib/iohteeDriver.js:64-93 | with a success reply required, the transaction resolves if and only if its first decisive event is a success line, and otherwise rejects with `timeout` or `Received (<errorReply>)` |
| `Transaction.RunFromListening` | lib/iohteeDriver.js:74-93 | the fold keeps listening and appends the stripped lines until the first decisive event; that event fixes the status, and its line, if it is one, is the last line recorded |
| `Transaction.ConcludeFromFirst` | lib/iohteeDriver.js:64-93 | the caller's settlement is fixed by the first decisive event; when there is none, the final timer decides over all lines |
| `Transaction.SuccessResolves` | lib/iohteeDriver.js:79-90 | with a success reply required, the first decisive line containing it resolves with the whole history, that line last; every entry is the stripped line, in arrival order; a line that also contains the error reply still succeeds |
| `Transaction.ErrorRejects` | lib/iohteeDriver.js:82-91 | a first decisive line that does not succeed but contains the error reply rejects with `Received (<errorReply>)` |
| `Transaction.TimeoutRule` | lib/iohteeDriver.js:64-73 | when the timer fires before any decisive line, the transaction rejects with `timeout` if a success reply was required, and otherwise resolves with exactly the k lines received (possibly none), stripped, in order |
| `Transaction.NoSuccessWithoutPattern` | lib/iohteeDriver.js:79 | without a success reply no event ever makes the transaction succeed |
| `Transaction.CollectRejectsOnlyOnError` | lib/iohteeDriver.js:64-93 | in fire-and-collect mode the transaction rejects if and only if a line containing the error reply arrives before the timer, and then with `Received (<errorReply>)` |
| `Transaction.SettledIsFinal` | lib/iohteeDriver.js:78-88 | once settled, no further line or timer changes the state |
| `Transaction.HistoryAppendOnly` | lib/iohteeDriver.js:63-77 | the history only grows, keeping what it had as a prefix, by at most one line per event |
| `Transaction.FirstOutcomeFinal` | lib/iohteeDriver.js:62-88 | the promise has settled if and only if some event was decisive; once it has, later events leave state and settlement unchanged |
| `Transaction.LinesBeforeFirst` | lib/iohteeDriver.js:75-77 | before the first decisive event every event is a line, and each one contributes exactly one history entry, its stripped text |
| `JsText.RemoveAll` | lib/iohteeDriver.js:75 | the character is removed everywhere; every other character keeps its count, and no new character appears |
| `JsText.StripCrLf` | lib/iohteeDriver.js:75 | the result holds no CR and no LF, and every other character keeps its count |
| `JsText.StripCrLfInterior` | lib/iohteeDriver.js:75 | a CR LF pair inside a line is removed too, not only a trailing one |
| `JsText.StripCrLfIdempotent` | lib/iohteeDriver.js:75 | stripping twice is stripping once |
| `JsText.StripCrLfTerminated` | lib/iohteeDriver.js:75 | a line sent as text plus CR LF is stored as the text |
| `JsText.ContainsAt` | lib/iohteeDriver.js:79-82 | a literal pattern matches if and only if it occurs at some offset of the line |
| `JsText.Split` | lib/iohteeDriver.js:174-175 | `split` yields at least one part, and no part contains the separator |
| `JsText.JoinSplit` | lib/iohteeDriver.js:174-175 | joining the parts of `split` with the separator gives the string back |
| `JsText.SplitAt` | lib/iohteeDriver.js:174-175 | a field without the separator, then the separator, is split off as the first part |
| `JsText.Decimal` | lib/iohteeDriver.js:164 | a decimal code is non-empty, all digits, and has a leading `0` only for 0 |
| `JsText.ParseIntDigits` | lib/iohteeDriver.js:174-175 | `parseInt` of a non-empty run of decimal digits is its value |
| `JsText.ParseIntDecimal` | lib/iohteeDriver.js:174-175 | `parseInt` reads back every decimal number |
| `JsText.ParseInt` | lib/iohteeDriver.js:174-175 | `parseInt` without a radix: leading white space, an optional sign, `0x` for radix 16, the longest digit run, NaN as `None`; stated by `ParseIntDigits` and `ParseIntDecimal` |
| `JsText.Hex` | lib/iohteeDriver.js:156 | the hex text has two lowercase hex digits per byte |
| `JsText.UnhexHex` | lib/iohteeDriver.js:156 | the hex text decodes back to the bytes |
| `Driver.WireTextRoundTrip` | lib/iohteeDriver.js:111-113 | exactly one CR is appended to the command; a reader that strips CR/LF gets the command back |
| `Driver.CommandSend` | lib/iohteeDriver.js:111 | `_commandSend(text)` with its defaults: success reply `OK`, error reply `ERROR`, 5000 ms |
| `Driver.QueryCommand` | lib/iohteeDriver.js:163-194 | the `false, 'ERROR', 250` arguments of the four queries: no success reply, error reply `ERROR`, 250 ms; `InformationCommandForm` and `PlanCollectOnly` state it for the walk's queries |
| `Driver.WireText` | lib/iohteeDriver.js:113 | the text written for a command, `hexStr + '\r'`; stated by `WireTextRoundTrip` |
| `Driver.Exchange` | lib/iohteeDriver.js:111-117 | the promise `_commandSend` returns: the transaction set up with the command's replies and timeout, as `Conclude` runs it; its outcomes are stated by `FirstLineOutcome` and `CollectRejectsOnlyOnError` |
| `Driver.SendFrameCommandForm` | lib/iohteeDriver.js:156 | the send command is `AT$SF=` followed by 2 × n hex digits that decode to the payload; it expects `OK`, fails on `ERROR` and waits 10000 ms |
| `Driver.InformationCommandForm` | lib/iohteeDriver.js:164 | the query is `AT$I=` followed by the code, which parses back; it collects with no success reply, fails on `ERROR` and waits 250 ms |
| `Driver.CheckModuleIsAlive` | lib/iohteeDriver.js:119-125 | `checkModuleIsAlive`: `AT` expecting `OK`, then `dataHistory[0]`; stated for every answer by `CheckModuleIsAliveRule` |
| `Driver.CheckModuleIsAliveRule` | lib/iohteeDriver.js:119-125 | for any answer, the check succeeds if and only if the first decisive event is a line containing `OK`, and then yields the first line received, as text; otherwise it fails with `timeout` or `Received (ERROR)` |
| `Driver.FirstLineOutcome` | lib/iohteeDriver.js:116-124 | for any command that needs a success reply, its transaction resolves if and only if the first decisive event is a success line, the first line then being the first event's text; otherwise it rejects with `timeout` or the device error |
| `Driver.GetModuleInformation` | lib/iohteeDriver.js:163-168 | `getModuleInformation(code)`: `AT$I=<code>`, collecting for 250 ms, then `dataHistory[0]`; its failures are stated by `QueriesFailOnlyOnError`, its command by `InformationCommandForm` |
| `Driver.GetModuleTemperature` | lib/iohteeDriver.js:182-187 | `getModuleTemperature`: `AT$T?`, then `dataHistory[0]`; its failures are stated by `QueriesFailOnlyOnError` |
| `Driver.GetModuleVoltages` | lib/iohteeDriver.js:189-194 | `getModuleVoltages`: `AT$V?`, then the whole history; its failures are stated by `QueriesFailOnlyOnError` |
| `Driver.FirstLine` | lib/iohteeDriver.js:166 | `dataHistory[0]` is text, the first line, if and only if a line arrived, and `Undefined` when none did |
| `Driver.AliveScenario` | lib/iohteeDriver.js:119-125 | the module answering `OK` CR LF to `AT` gives `OK`, whatever follows |
| `Driver.QueriesFailOnlyOnError` | lib/iohteeDriver.js:163-194 | an information, temperature or voltage query fails only with `Received (ERROR)`, and only after an `ERROR` line that came before the timer |
| `Driver.ParseRadioInfoDecimal` | lib/iohteeDriver.js:173-176 | a first line `<x>,<y>` in decimal gives x and y, whatever lines follow |
| `Driver.ParseRadioInfo` | lib/iohteeDriver.js:172-176 | `parseInt` of the first and second comma-separated fields of `dataHistory[0]`, NaN as `None`, the `TypeError` when no line arrived; its round trip is `ParseRadioInfoDecimal` |
| `Driver.GetModuleRadioInformation` | lib/iohteeDriver.js:170-180 | `getModuleRadioInformation`: `AT$GI?`, collecting for 250 ms, then `ParseRadioInfo`; stated for every answer by `RadioInformationRule` |
| `Driver.RadioInformationRule` | lib/iohteeDriver.js:170-180 | for any answer, the status is read if and only if the query resolved with at least one line; otherwise it fails with `Received (ERROR)` after an error line that came before the timer, or with the `TypeError` of `split` when no line arrived |
| `Driver.NeedsReset` | lib/iohteeDriver.js:152 | a reset is needed when x is 0 or y is below 3, and a NaN field satisfies neither; its effect on `sendBytes` is stated by `SendBytesResetRule` and `ResetScenario` |
| `Driver.RadioExchangeZeroFive` | lib/iohteeDriver.js:171 | the radio query answered `0,5` CR LF and then timed out resolves with the history `["0,5"]` |
| `Driver.RadioReplyZeroFive` | lib/iohteeDriver.js:170-180 | that reply parses as x = 0, y = 5 |
| `Driver.SendBytesValidatesFirst` | lib/iohteeDriver.js:141-149 | a non-buffer, then a buffer shorter than 1 byte, then one longer than 12 are refused with their messages, in that order; a command is sent if and only if the payload passes |
| `Driver.ValidatePayload` | lib/iohteeDriver.js:141-149 | a payload passes if and only if it is a buffer of 1 to 12 bytes, and then yields those bytes; a refusal carries one of the three messages |
| `Driver.SendBytes` | lib/iohteeDriver.js:139-161 | `sendBytes`: validation, then the radio query, then `ResetThenSend`; stated by `SendBytesValidatesFirst`, `SendBytesOutcome`, `SendBytesResetRule` and `SendBytesReturnsLength` |
| `Driver.ResetThenSend` | lib/iohteeDriver.js:151-158 | the `.then` chain after the radio status: `AT$RC` when needed, stopping on its rejection, then `SendFrame`; stated by `ResetThenSendRule` and `ResetThenSendOutcome` |
| `Driver.SendFrame` | lib/iohteeDriver.js:155-159 | `AT$SF=<hex>` with `OK`/`ERROR` and 10000 ms, then the buffer length; its command is stated by `SendFrameCommandForm` and its outcome by `ResetThenSendOutcome` |
| `Driver.CommandsDistinct` | lib/iohteeDriver.js:150-156 | `AT$RC`, `AT$GI?` and `AT$SF=...` are three different commands |
| `Driver.ResetThenSendRule` | lib/iohteeDriver.js:151-158 | after the radio status, `AT$RC` is issued if and only if the status calls for it, and first; the send command, if issued, comes after it and last; success returns the payload length |
| `Driver.ResetThenSendOutcome` | lib/iohteeDriver.js:151-158 | a rejected `AT$RC` rejects with its own message and sends nothing more; `AT$SF=` is sent if and only if no reset was needed or the reset resolved; once it is sent, success with the payload length holds if and only if its transaction resolved, and otherwise the rejection is that transaction's message |
| `Driver.SendBytesOutcome` | lib/iohteeDriver.js:150-159 | with a valid payload: a failed radio query rejects `sendBytes` with its message after `AT$GI?` alone; a rejected `AT$RC` rejects it with that message after `AT$GI?`, `AT$RC`; `AT$SF=` is sent if and only if no reset was needed or the reset resolved; its transaction then decides between the payload length and its own rejection |
| `Driver.SendBytesResetRule` | lib/iohteeDriver.js:150-157 | with a valid payload and a parsed status, `AT$GI?` goes first, `AT$RC` is issued if and only if x is 0 or y is below 3, and then second, and `AT$SF=` comes last |
| `Driver.SendBytesReturnsLength` | lib/iohteeDriver.js:157-159 | a successful `sendBytes` was given a buffer of 1 to 12 bytes, returns exactly its length, and issued the send command last |
| `Driver.ResetScenario` | lib/iohteeDriver.js:150-154 | a radio status `0,5` makes `AT$RC` the second command, right after `AT$GI?` |
| `Driver.WaitPortReady` | lib/iohteeDriver.js:45-58 | `waitPortReady`: resolves when the port is or becomes open before the 2000 ms timer, and rejects with `port ready timeout` otherwise; stated by `ReadyFirstEventWins` |
| `Driver.ReadyFirstEventWins` | lib/iohteeDriver.js:45-58 | the first of "port open" and the 2000 ms timer decides, and the wait fails if and only if the port was not open and the timer came first |
| `Constants.NumKeys` | lib/constants.js:3-14 | the catalog has ten fields |
| `Constants.CodeOf` | lib/constants.js:3-14 | a name is found if and only if it is a catalog field, and then with that field's code |
| `Constants.CatalogWellFormed` | lib/constants.js:4-13 | names are distinct, and codes strictly increase in declaration order |
| `Constants.CatalogMapping` | lib/constants.js:4-13 | the fixed name-to-code mapping in declaration order; deviceId = 10 is the last field |
| `Constants.LookupByKey` | lib/constants.js:3-14 | every field looks up its own code, and no field has code 6 |
| `Metadata.PlanShape` | lib/iohteeDriver.js:206-224 | step i queries `AT$I=<code of field i>` and stores under the field's name; step 10 stores `AT$T?`'s first line under `moduleTemperature`; step 11 stores all of `AT$V?`'s lines under `moduleVoltages`; all twelve keys are distinct; deviceId is step 9 |
| `Metadata.PlanKeysDistinct` | lib/iohteeDriver.js:209-223 | no two steps store under the same key |
| `Metadata.PlanCollectOnly` | lib/iohteeDriver.js:164-190 | every query of the walk collects with no success reply and fails only on `ERROR` |
| `Metadata.GettersMatchPlan` | lib/iohteeDriver.js:207-224 | each step stores what its getter resolves with: `getModuleInformation(code)` for catalog field i, `getModuleTemperature()` and `getModuleVoltages()` for the readings, and a getter's rejection is its query's rejection |
| `Metadata.Walk` | lib/iohteeDriver.js:196-227 | the recursion of `getModuleMetadata` on the index, over a plan; stated by `WalkOrder`, `WalkKeys`, `WalkAnswers` and `WalkComplete`, and `WalkPlan` is proved to follow it |
| `Metadata.CollectMetadata` | lib/iohteeDriver.js:196-205 | `getModuleMetadata(results, index)`: `results` or `{}`, an undefined or negative index as 0, then `Walk` over the catalog plan; stated by the `Metadata*` lemmas below |
| `Metadata.GetModuleMetadata` | lib/iohteeDriver.js:196-227 | the loop issues the same commands and settles with the same map or error as the recursive walk |
| `Metadata.WalkPlan` | lib/iohteeDriver.js:196-227 | the loop over any plan, with one transaction object per query, equals `Walk` over that plan |
| `Metadata.Queries` | lib/iohteeDriver.js:206-221 | the queries from an index on, one per remaining step, in order |
| `Metadata.WalkOrder` | lib/iohteeDriver.js:196-227 | the walk issues a prefix of the plan's queries, in plan order; a completed walk issues all of them; a failed one stopped after its last query with `Received (ERROR)` |
| `Metadata.WalkKeys` | lib/iohteeDriver.js:198-224 | a completed walk adds exactly the keys from the index on and leaves every other entry of `results` unchanged |
| `Metadata.WalkAnswers` | lib/iohteeDriver.js:207-224 | in a completed walk each key holds the answer to its own query: the first line, or the whole history for the voltages |
| `Metadata.WalkComplete` | lib/iohteeDriver.js:196-227 | a completed walk from 0 issued every query and stored every key with its own answer |
| `Metadata.MetadataQueries` | lib/iohteeDriver.js:196-227 | a resolved `getModuleMetadata()` issued exactly twelve queries: `AT$I=<code>` per catalog field in declaration order, then `AT$T?`, then `AT$V?` |
| `Metadata.MetadataKeys` | lib/iohteeDriver.js:196-227 | its map holds exactly the catalog fields, deviceId included, plus `moduleTemperature` and `moduleVoltages` |
| `Metadata.MetadataReadings` | lib/iohteeDriver.js:207-218 | `moduleVoltages` is the whole `AT$V?` history and `moduleTemperature` the first line of `AT$T?` |
| `Metadata.MetadataValues` | lib/iohteeDriver.js:220-224 | each catalog field holds the first line of its own `AT$I=<code>` reply |
| `Metadata.MetadataDeviceId` | lib/iohteeDriver.js:220-224 | `deviceId` is in the map, is defined if and only if its `AT$I=10` query received a line, and is then that line |
| `Metadata.MetadataOrder` | lib/iohteeDriver.js:196-227 | from any start and any `results`, the queries follow plan order, and a rejection is `Received (ERROR)` after at least one query |
| `Metadata.MetadataStartRule` | lib/iohteeDriver.js:198-205 | an undefined or negative index starts at 0; an index at or past numKeys + 2 returns `results` without a query |

## Left out

- Serial transport:
  - the `SerialPort` and `Readline` objects, `port.pipe`, and the `EventEmitter` error forwarding;
  - the constructor, including its `Portname is required!` check;
  - `close()` and `_handlePortOpen`.
  These are calls into libraries that are not part of this model.
- `_writeAndDrain`, and the write that `_commandSend` fires without awaiting it. A failed write only reaches `console.error`, so the transaction does not see it. The model records the command in the `Trace` and gives its wire text (`WireText`).
- Timers and promise scheduling:
  - a timer is an explicit event;
  - the timeout values are kept as data on each `Command` and are not simulated;
  - `WaitPortReady` takes the order of "port open" and "timer fires" as input;
  - every transaction ends with its timer, unless something settled it first.
- Overlapping transactions: the model runs one command at a time, as every caller in the source does. A second transaction started while one is listening would see the same lines; that is not modelled.
- The `debug` logging toggle: it only logs.
- General regular-expression semantics of `String.prototype.match`. Only the literal patterns `OK` and `ERROR` occur, which behave as substring search.
- `parseInt` on number texts that a double cannot hold exactly (above 2^53): the model returns the exact integer.
- Text is modelled as sequences of Unicode scalar values. JavaScript strings are UTF-16 code units; the two differ only outside the Basic Multilingual Plane.
- The exact wording of the `TypeError` when `dataHistory[0].split` runs on an empty history. The model uses V8's current message (`UndefinedSplitMessage`).
- `results`, when given to `getModuleMetadata`, is a map of values; the in-place mutation of a caller's object, which the caller would then observe, is not modelled. A non-integer `index` is not modelled.
- test/index.js is not part of this model: it drives real hardware. Its assertions match `SendBytesValidatesFirst`, `SendBytesReturnsLength`, `MetadataKeys` and `MetadataDeviceId`. Its check that `metadata.deviceId` is defined holds only when the module answered `AT$I=10` with a line, as `MetadataDeviceId` states.
