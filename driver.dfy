/**
 * The command layer of the driver: how `_commandSend` composes what goes on the
 * wire, the single-query getters built on one transaction each, the radio-status
 * parsing, the `sendBytes` validation / reset / send sequence, and the readiness
 * wait. The device's behaviour during each successive transaction is a parameter:
 * a script of events per transaction, in the order the transactions are issued.
 */
module Driver {
  import opened Wrappers
  import opened JsText
  import opened Transaction

  const DefaultTimeout: nat := 5000
  const SendFrameTimeout: nat := 10000
  const QueryTimeout: nat := 250

  /** One `_commandSend` call: the command text and how its transaction listens. */
  datatype Command = Command(text: string, successReply: Option<string>, errorReply: string, timeout: nat)

  /** `_commandSend(text)` with every default: success `OK`, error `ERROR`, 5000 ms. */
  function CommandSend(text: string): Command
  {
    Command(text, Some("OK"), "ERROR", DefaultTimeout)
  }

  /** A fire-and-collect query: no success reply, error `ERROR`, 250 ms. */
  function QueryCommand(text: string): Command
  {
    Command(text, None, "ERROR", QueryTimeout)
  }

  /** What `_commandSend` writes: the command followed by one carriage return. */
  function WireText(c: Command): string
  {
    c.text + "\r"
  }

  /**
   * Exactly one carriage return goes after the command; a line reader that strips
   * CR/LF, as the receiving side does, gets the command back unchanged.
   */
  lemma WireTextRoundTrip(c: Command)
    requires '\r' !in c.text && '\n' !in c.text
    ensures StripCrLf(WireText(c)) == c.text
    ensures |WireText(c)| == |c.text| + 1 && WireText(c)[..|c.text|] == c.text
    ensures multiset(WireText(c))['\r'] == 1
  {
    StripCrLfAppend(c.text, "\r");
    StripCrLfClean(c.text);
    assert WireText(c)[..|c.text|] == c.text;
    assert multiset(WireText(c)) == multiset(c.text) + multiset{'\r'};
    assert multiset(c.text)['\r'] == 0;
  }

  const AliveCommand := CommandSend("AT")
  const RadioInfoCommand := QueryCommand("AT$GI?")
  const ResetChannelCommand := CommandSend("AT$RC")
  const TemperatureCommand := QueryCommand("AT$T?")
  const VoltagesCommand := QueryCommand("AT$V?")

  /** `AT$I=<code>`, the code written in decimal. */
  function InformationCommand(code: nat): Command
  {
    QueryCommand("AT$I=" + Decimal(code))
  }

  /** `AT$SF=<hex>` with the extended 10000 ms timeout. */
  function SendFrameCommand(bytes: seq<byte>): Command
  {
    Command("AT$SF=" + Hex(bytes), Some("OK"), "ERROR", SendFrameTimeout)
  }

  /** The send command carries two lower-case hex digits per byte, which decode back to the payload. */
  lemma SendFrameCommandForm(bytes: seq<byte>)
    ensures var c := SendFrameCommand(bytes);
      && c.text[..6] == "AT$SF="
      && |c.text| == 6 + 2 * |bytes|
      && Unhex(c.text[6..]) == Some(bytes)
      && c.successReply == Some("OK") && c.errorReply == "ERROR" && c.timeout == 10000
  {
    var c := SendFrameCommand(bytes);
    assert c.text[6..] == Hex(bytes);
    UnhexHex(bytes);
  }

  /** A query for an information code names that code, and formatting it loses nothing. */
  lemma InformationCommandForm(code: nat)
    ensures var c := InformationCommand(code);
      && c.text[..5] == "AT$I="
      && ParseInt(c.text[5..]) == Some(code)
      && c.successReply == None && c.errorReply == "ERROR" && c.timeout == 250
  {
    assert InformationCommand(code).text[5..] == Decimal(code);
    ParseIntDecimal(code);
  }

  // ---------------------------------------------------------------------------
  // Transactions against the device.

  /** The events the device produces during each successive transaction. */
  type Script = seq<seq<Event>>

  /** The events of the next transaction; a device with nothing scripted stays silent. */
  function Next(scripts: Script): seq<Event>
  {
    if |scripts| > 0 then scripts[0] else []
  }

  function Rest(scripts: Script): Script
  {
    if |scripts| > 0 then scripts[1..] else []
  }

  /** One command's transaction; the timer ends it if nothing decisive arrives. */
  function Exchange(c: Command, events: seq<Event>): Settlement
  {
    Conclude(c.successReply, c.errorReply, events)
  }

  /** A value a getter hands back: `dataHistory[0]`, possibly undefined, or the whole history. */
  datatype Value = Undefined | Text(text: string) | LineList(lines: seq<string>)

  /** `dataHistory[0]`: undefined when no line arrived. */
  function FirstLine(history: seq<string>): (v: Value)
    ensures v.Text? <==> |history| > 0
    ensures v.Text? ==> v.text == history[0]
    ensures |history| == 0 ==> v == Undefined
  {
    if |history| > 0 then Text(history[0]) else Undefined
  }

  /** `checkModuleIsAlive`: `AT`, expecting `OK`; yields the first line. */
  function CheckModuleIsAlive(events: seq<Event>): Result<Value>
  {
    match Exchange(AliveCommand, events)
    case Resolved(h) => Success(FirstLine(h))
    case Rejected(m) => Failure(m)
  }

  /** `getModuleInformation(code)`: the first line of the `AT$I=<code>` reply. */
  function GetModuleInformation(code: nat, events: seq<Event>): Result<Value>
  {
    match Exchange(InformationCommand(code), events)
    case Resolved(h) => Success(FirstLine(h))
    case Rejected(m) => Failure(m)
  }

  /** `getModuleTemperature`: the first line of the `AT$T?` reply. */
  function GetModuleTemperature(events: seq<Event>): Result<Value>
  {
    match Exchange(TemperatureCommand, events)
    case Resolved(h) => Success(FirstLine(h))
    case Rejected(m) => Failure(m)
  }

  /** `getModuleVoltages`: every line of the `AT$V?` reply. */
  function GetModuleVoltages(events: seq<Event>): Result<seq<string>>
  {
    match Exchange(VoltagesCommand, events)
    case Resolved(h) => Success(h)
    case Rejected(m) => Failure(m)
  }

  /** The liveness check: the device answering `OK` (with CR LF) gives `OK`. */
  lemma AliveScenario(rest: seq<Event>)
    ensures CheckModuleIsAlive([Line("OK\r\n")] + rest) == Success(Text("OK"))
  {
    var events := [Line("OK\r\n")] + rest;
    assert "OK" + "\r\n" == "OK\r\n";
    StripCrLfTerminated("OK");
    assert Contains("OK", "OK");
    SuccessResolves(Some("OK"), "ERROR", events, 0);
    assert events[..1] == [Line("OK\r\n")];
  }

  /**
   * For any answer: the liveness check succeeds exactly when the first decisive event
   * is a line containing `OK`, and then yields the first line received (never
   * undefined); otherwise it fails with `timeout` or `Received (ERROR)`.
   */
  lemma CheckModuleIsAliveRule(events: seq<Event>)
    ensures var r, k := CheckModuleIsAlive(events), FirstDecisive(Some("OK"), "ERROR", events);
      && (r.Success? <==> k < |events| && Verdict(Some("OK"), "ERROR", events[k]) == Succeeded)
      && (r.Success? ==> |events| > 0 && events[0].Line? && r.value == Text(StripCrLf(events[0].data)))
      && (r.Failure? ==> r.message == TimeoutMessage || r.message == "Received (ERROR)")
  {
    assert AliveCommand == Command("AT", Some("OK"), "ERROR", DefaultTimeout);
    assert DeviceErrorMessage("ERROR") == "Received (ERROR)";
    FirstLineOutcome(AliveCommand, events);
  }

  /** The first line of a transaction that needs a success reply, or its rejection. */
  lemma FirstLineOutcome(c: Command, events: seq<Event>)
    requires SuccessRequired(c.successReply)
    ensures var a, k := Exchange(c, events), FirstDecisive(c.successReply, c.errorReply, events);
      && (a.Resolved? <==> k < |events| && Verdict(c.successReply, c.errorReply, events[k]) == Succeeded)
      && (a.Resolved? ==> |events| > 0 && events[0].Line? && FirstLine(a.history) == Text(StripCrLf(events[0].data)))
      && (a.Rejected? ==> a.message == TimeoutMessage || a.message == DeviceErrorMessage(c.errorReply))
  {
    var k := FirstDecisive(c.successReply, c.errorReply, events);
    RequiredOutcome(c.successReply, c.errorReply, events);
    if k < |events| && Verdict(c.successReply, c.errorReply, events[k]) == Succeeded {
      SuccessResolves(c.successReply, c.errorReply, events, k);
    }
  }

  /** The queries the metadata walk relies on never end early except on an error line. */
  lemma QueriesFailOnlyOnError(code: nat, events: seq<Event>)
    ensures GetModuleInformation(code, events).Failure? ==>
            GetModuleInformation(code, events).message == "Received (ERROR)" && exists j :: ErrorLineAt("ERROR", events, j)
    ensures GetModuleTemperature(events).Failure? ==>
            GetModuleTemperature(events).message == "Received (ERROR)" && exists j :: ErrorLineAt("ERROR", events, j)
    ensures GetModuleVoltages(events).Failure? ==>
            GetModuleVoltages(events).message == "Received (ERROR)" && exists j :: ErrorLineAt("ERROR", events, j)
  {
    CollectRejectsOnlyOnError(None, "ERROR", events);
  }

  // ---------------------------------------------------------------------------
  // Radio status: `AT$GI?` answers `<x>,<y>`.

  /** The two parsed fields; None stands for NaN. */
  datatype RadioInfo = RadioInfo(x: Option<int>, y: Option<int>)

  /** What `dataHistory[0].split` throws when no line arrived. */
  const UndefinedSplitMessage := "Cannot read properties of undefined (reading 'split')"

  /** `parseInt` of the first and second comma-separated field of the first line. */
  function ParseRadioInfo(history: seq<string>): Result<RadioInfo>
  {
    if |history| == 0 then Failure(UndefinedSplitMessage)
    else
      var fields := Split(history[0], ',');
      Success(RadioInfo(ParseInt(fields[0]), if |fields| > 1 then ParseInt(fields[1]) else None))
  }

  lemma DecimalNoComma(n: nat)
    ensures ',' !in Decimal(n)
  {
    var d := Decimal(n);
    forall i | 0 <= i < |d| ensures d[i] != ',' { assert IsDigit(d[i], 10); }
  }

  /** A reply `<x>,<y>` in decimal parses back to x and y, whatever lines follow. */
  lemma ParseRadioInfoDecimal(x: nat, y: nat, later: seq<string>)
    ensures ParseRadioInfo([Decimal(x) + "," + Decimal(y)] + later) == Success(RadioInfo(Some(x), Some(y)))
  {
    var dx, dy := Decimal(x), Decimal(y);
    var line := dx + "," + dy;
    assert line == dx + [','] + dy;
    DecimalNoComma(x);
    DecimalNoComma(y);
    SplitAt(dx, dy, ',');
    SplitNone(dy, ',');
    assert Split(line, ',') == [dx, dy];
    ParseIntDecimal(x);
    ParseIntDecimal(y);
    assert ([line] + later)[0] == line;
  }

  /** `getModuleRadioInformation`. */
  function GetModuleRadioInformation(events: seq<Event>): Result<RadioInfo>
  {
    match Exchange(RadioInfoCommand, events)
    case Resolved(h) => ParseRadioInfo(h)
    case Rejected(m) => Failure(m)
  }

  /**
   * For any answer: the radio status is read exactly when the query resolved with at
   * least one line. It fails with `Received (ERROR)` after an error line that came
   * before the timer, or with the `TypeError` of `split` when no line arrived.
   */
  lemma RadioInformationRule(events: seq<Event>)
    ensures var r, answer := GetModuleRadioInformation(events), Exchange(RadioInfoCommand, events);
      && (r.Success? <==> answer.Resolved? && |answer.history| > 0)
      && (r.Failure? ==>
            || (r.message == "Received (ERROR)" && exists j :: ErrorLineAt("ERROR", events, j))
            || (answer == Resolved([]) && r.message == UndefinedSplitMessage))
  {
    CollectRejectsOnlyOnError(None, "ERROR", events);
  }

  /** `radioInfo.x === 0 || radioInfo.y < 3`; NaN compares false both ways. */
  predicate NeedsReset(info: RadioInfo)
  {
    info.x == Some(0) || (info.y.Some? && info.y.value < 3)
  }

  // ---------------------------------------------------------------------------
  // `sendBytes`.

  /** The argument of `sendBytes`: a Node.js Buffer, or any other value. */
  datatype Payload = Buffer(bytes: seq<byte>) | NotABuffer

  const NotABufferMessage := "A buffer is required"
  const TooShortMessage := "Buffer minimum length is 1 byte"
  const TooLongMessage := "Buffer maximum length is 12 bytes"

  /** The checks in their order: a buffer, at least one byte, at most twelve. */
  function ValidatePayload(p: Payload): (r: Result<seq<byte>>)
    ensures r.Success? <==> p.Buffer? && 1 <= |p.bytes| <= 12
    ensures r.Success? ==> r.value == p.bytes
    ensures r.Failure? ==> r.message in {NotABufferMessage, TooShortMessage, TooLongMessage}
  {
    if !p.Buffer? then Failure(NotABufferMessage)
    else if |p.bytes| < 1 then Failure(TooShortMessage)
    else if |p.bytes| > 12 then Failure(TooLongMessage)
    else Success(p.bytes)
  }

  /** The commands an operation issued, in order, and how its promise settled. */
  datatype Trace<T> = Trace(sent: seq<Command>, result: Result<T>)

  /** An operation that issues `c` first and then carries on as `t`. */
  function Then<T>(c: Command, t: Trace<T>): Trace<T>
  {
    Trace([c] + t.sent, t.result)
  }

  /** The last step of `sendBytes`: the payload command, then the number of bytes sent. */
  function SendFrame(bytes: seq<byte>, events: seq<Event>): Trace<nat>
  {
    var c := SendFrameCommand(bytes);
    match Exchange(c, events)
    case Resolved(_) => Trace([c], Success(|bytes|))
    case Rejected(m) => Trace([c], Failure(m))
  }

  /** The events the payload transaction sees: the next script, or the one after `AT$RC`'s. */
  function FrameEvents(info: RadioInfo, scripts: Script): seq<Event>
  {
    if NeedsReset(info) then Next(Rest(scripts)) else Next(scripts)
  }

  /** `AT$RC` when the radio status calls for a reset, nothing otherwise. */
  function ResetPrefix(info: RadioInfo): seq<Command>
  {
    if NeedsReset(info) then [ResetChannelCommand] else []
  }

  /** What follows a parsed radio status: `AT$RC` when it calls for one, then the payload. */
  function ResetThenSend(bytes: seq<byte>, info: RadioInfo, scripts: Script): Trace<nat>
  {
    if NeedsReset(info) then
      match Exchange(ResetChannelCommand, Next(scripts))
      case Rejected(m) => Trace([ResetChannelCommand], Failure(m))
      case Resolved(_) => Then(ResetChannelCommand, SendFrame(bytes, Next(Rest(scripts))))
    else SendFrame(bytes, Next(scripts))
  }

  /** `sendBytes(buffer)`. */
  function SendBytes(p: Payload, scripts: Script): Trace<nat>
  {
    match ValidatePayload(p)
    case Failure(m) => Trace([], Failure(m))
    case Success(bytes) =>
      match GetModuleRadioInformation(Next(scripts))
      case Failure(m) => Trace([RadioInfoCommand], Failure(m))
      case Success(info) => Then(RadioInfoCommand, ResetThenSend(bytes, info, Rest(scripts)))
  }

  /** Validation comes first, in its fixed order, and a failed check sends nothing. */
  lemma SendBytesValidatesFirst(p: Payload, scripts: Script)
    ensures p.NotABuffer? ==> SendBytes(p, scripts) == Trace([], Failure(NotABufferMessage))
    ensures p.Buffer? && |p.bytes| < 1 ==> SendBytes(p, scripts) == Trace([], Failure(TooShortMessage))
    ensures p.Buffer? && |p.bytes| > 12 ==> SendBytes(p, scripts) == Trace([], Failure(TooLongMessage))
    ensures SendBytes(p, scripts).sent != [] <==> p.Buffer? && 1 <= |p.bytes| <= 12
  {
    if p.Buffer? && 1 <= |p.bytes| <= 12 {
      assert SendBytes(p, scripts).sent[0] == RadioInfoCommand;
    }
  }

  /** `AT$RC`, the radio query and the send command are three different commands. */
  lemma CommandsDistinct(bytes: seq<byte>)
    ensures ResetChannelCommand != RadioInfoCommand
    ensures ResetChannelCommand != SendFrameCommand(bytes)
    ensures RadioInfoCommand != SendFrameCommand(bytes)
  {
    assert ResetChannelCommand.text[3] == 'R';
    assert RadioInfoCommand.text[3] == 'G';
    assert SendFrameCommand(bytes).text[3] == 'S';
  }

  /** A command is in a prefixed trace when it is the prefix or in the rest. */
  lemma ThenMembers<T>(c: Command, t: Trace<T>, d: Command)
    ensures Then(c, t).sent == [c] + t.sent
    ensures d in Then(c, t).sent <==> d == c || d in t.sent
  {
  }

  /** `AT$RC` is issued exactly when the status calls for it; the payload, if sent, comes after it. */
  lemma ResetThenSendRule(bytes: seq<byte>, info: RadioInfo, scripts: Script)
    ensures var t := ResetThenSend(bytes, info, scripts);
      && |t.sent| >= 1
      && (ResetChannelCommand in t.sent <==> NeedsReset(info))
      && (NeedsReset(info) ==> t.sent[0] == ResetChannelCommand)
      && (SendFrameCommand(bytes) in t.sent ==>
            t.sent == ResetPrefix(info) + [SendFrameCommand(bytes)])
      && (t.result.Success? ==> t.sent[|t.sent| - 1] == SendFrameCommand(bytes) && t.result.value == |bytes|)
  {
    CommandsDistinct(bytes);
    var sf := SendFrameCommand(bytes);
    var t := ResetThenSend(bytes, info, scripts);
    if NeedsReset(info) {
      var rc := Exchange(ResetChannelCommand, Next(scripts));
      if rc.Rejected? {
        assert t.sent == [ResetChannelCommand];
      } else {
        var f := SendFrame(bytes, Next(Rest(scripts)));
        assert f.sent == [sf];
        assert t.sent == [ResetChannelCommand, sf];
      }
    } else {
      assert t.sent == [sf];
    }
  }

  /**
   * The `.then` chain after the radio status: a rejected `AT$RC` rejects with its own
   * message and keeps the payload from being sent; the payload is sent exactly when no
   * reset was needed or the reset resolved, and its transaction alone then decides:
   * the payload length on success, its rejection otherwise.
   */
  lemma ResetThenSendOutcome(bytes: seq<byte>, info: RadioInfo, scripts: Script)
    ensures var t, rc := ResetThenSend(bytes, info, scripts), Exchange(ResetChannelCommand, Next(scripts));
      && (NeedsReset(info) && rc.Rejected? ==> t == Trace([ResetChannelCommand], Failure(rc.message)))
      && (SendFrameCommand(bytes) in t.sent <==> !NeedsReset(info) || rc.Resolved?)
    ensures var t, sf := ResetThenSend(bytes, info, scripts), Exchange(SendFrameCommand(bytes), FrameEvents(info, scripts));
      SendFrameCommand(bytes) in t.sent ==>
        t.result == if sf.Resolved? then Success(|bytes|) else Failure(sf.message)
  {
    CommandsDistinct(bytes);
  }

  /**
   * The whole chain of `sendBytes` after validation: a failed radio query rejects with
   * its message after `AT$GI?` alone; a rejected `AT$RC` rejects with its message and
   * nothing more is sent; once `AT$SF=` is sent, its transaction decides the result.
   */
  lemma SendBytesOutcome(p: Payload, scripts: Script)
    ensures var radio, t := GetModuleRadioInformation(Next(scripts)), SendBytes(p, scripts);
      ValidatePayload(p).Success? && radio.Failure? ==> t == Trace([RadioInfoCommand], Failure(radio.message))
    ensures var radio, t := GetModuleRadioInformation(Next(scripts)), SendBytes(p, scripts);
      ValidatePayload(p).Success? && radio.Success? ==>
        var rc := Exchange(ResetChannelCommand, Next(Rest(scripts)));
        && (NeedsReset(radio.value) && rc.Rejected? ==>
              t == Trace([RadioInfoCommand, ResetChannelCommand], Failure(rc.message)))
        && (SendFrameCommand(p.bytes) in t.sent <==> !NeedsReset(radio.value) || rc.Resolved?)
    ensures var radio, t := GetModuleRadioInformation(Next(scripts)), SendBytes(p, scripts);
      ValidatePayload(p).Success? && radio.Success? && SendFrameCommand(p.bytes) in t.sent ==>
        var sf := Exchange(SendFrameCommand(p.bytes), FrameEvents(radio.value, Rest(scripts)));
        t.result == if sf.Resolved? then Success(|p.bytes|) else Failure(sf.message)
  {
    var radio := GetModuleRadioInformation(Next(scripts));
    if ValidatePayload(p).Success? && radio.Success? {
      SendBytesAfterRadio(p, scripts);
      ThenOutcome(p.bytes, radio.value, Rest(scripts));
    }
  }

  /** `ResetThenSendOutcome` with the radio query in front. */
  lemma ThenOutcome(bytes: seq<byte>, info: RadioInfo, scripts: Script)
    ensures var t, rc := Then(RadioInfoCommand, ResetThenSend(bytes, info, scripts)), Exchange(ResetChannelCommand, Next(scripts));
      && (NeedsReset(info) && rc.Rejected? ==> t == Trace([RadioInfoCommand, ResetChannelCommand], Failure(rc.message)))
      && (SendFrameCommand(bytes) in t.sent <==> !NeedsReset(info) || rc.Resolved?)
    ensures var t, sf := Then(RadioInfoCommand, ResetThenSend(bytes, info, scripts)), Exchange(SendFrameCommand(bytes), FrameEvents(info, scripts));
      SendFrameCommand(bytes) in t.sent ==>
        t.result == if sf.Resolved? then Success(|bytes|) else Failure(sf.message)
  {
    var r := ResetThenSend(bytes, info, scripts);
    ResetThenSendOutcome(bytes, info, scripts);
    CommandsDistinct(bytes);
    ThenMembers(RadioInfoCommand, r, SendFrameCommand(bytes));
  }

  /**
   * With a valid payload and a radio status that parsed: the radio query goes first,
   * `AT$RC` is issued exactly when `x == 0 || y < 3`, and the send command, when
   * issued, comes last, after the reset.
   */
  lemma SendBytesResetRule(p: Payload, scripts: Script)
    ensures var radio := GetModuleRadioInformation(Next(scripts));
      ValidatePayload(p).Success? && radio.Success? ==>
        var info, t := radio.value, SendBytes(p, scripts);
        && |t.sent| >= 2 && t.sent[0] == RadioInfoCommand
        && (ResetChannelCommand in t.sent <==> NeedsReset(info))
        && (NeedsReset(info) ==> t.sent[1] == ResetChannelCommand)
        && (SendFrameCommand(p.bytes) in t.sent ==>
              t.sent == [RadioInfoCommand] + ResetPrefix(info) + [SendFrameCommand(p.bytes)])
  {
    var radio := GetModuleRadioInformation(Next(scripts));
    if ValidatePayload(p).Success? && radio.Success? {
      var info := radio.value;
      var r := ResetThenSend(p.bytes, info, Rest(scripts));
      ResetThenSendRule(p.bytes, info, Rest(scripts));
      SendBytesAfterRadio(p, scripts);
      RadioFirst(r, p.bytes, info);
    }
  }

  /** Putting the radio query in front keeps the order of what follows it. */
  lemma RadioFirst(r: Trace<nat>, bytes: seq<byte>, info: RadioInfo)
    requires |r.sent| >= 1
    requires ResetChannelCommand in r.sent <==> NeedsReset(info)
    requires NeedsReset(info) ==> r.sent[0] == ResetChannelCommand
    requires SendFrameCommand(bytes) in r.sent ==> r.sent == ResetPrefix(info) + [SendFrameCommand(bytes)]
    ensures var t := Then(RadioInfoCommand, r);
      && |t.sent| >= 2 && t.sent[0] == RadioInfoCommand
      && (ResetChannelCommand in t.sent <==> NeedsReset(info))
      && (NeedsReset(info) ==> t.sent[1] == ResetChannelCommand)
      && (SendFrameCommand(bytes) in t.sent ==> t.sent == [RadioInfoCommand] + ResetPrefix(info) + [SendFrameCommand(bytes)])
  {
    CommandsDistinct(bytes);
    ThenMembers(RadioInfoCommand, r, ResetChannelCommand);
    ThenMembers(RadioInfoCommand, r, SendFrameCommand(bytes));
    if SendFrameCommand(bytes) in r.sent {
      assert [RadioInfoCommand] + (ResetPrefix(info) + [SendFrameCommand(bytes)])
          == [RadioInfoCommand] + ResetPrefix(info) + [SendFrameCommand(bytes)];
    }
  }

  lemma SendBytesAfterRadio(p: Payload, scripts: Script)
    ensures var radio := GetModuleRadioInformation(Next(scripts));
      ValidatePayload(p).Success? && radio.Success? ==>
        SendBytes(p, scripts) == Then(RadioInfoCommand, ResetThenSend(p.bytes, radio.value, Rest(scripts)))
  {
  }

  /** On success `sendBytes` resolves with exactly the payload length, after sending the payload. */
  lemma SendBytesReturnsLength(p: Payload, scripts: Script)
    ensures var t := SendBytes(p, scripts);
      t.result.Success? ==>
        && p.Buffer? && t.result.value == |p.bytes| && 1 <= t.result.value <= 12
        && |t.sent| >= 2 && t.sent[|t.sent| - 1] == SendFrameCommand(p.bytes)
  {
    if ValidatePayload(p).Success? {
      match GetModuleRadioInformation(Next(scripts))
      case Failure(_) =>
      case Success(info) => ResetThenSendRule(p.bytes, info, Rest(scripts));
    }
  }

  /** A radio query answered `0,5` and then left to time out yields x = 0, y = 5. */
  lemma RadioReplyZeroFive(events: seq<Event>)
    requires events == [Line("0,5\r\n")]
    ensures GetModuleRadioInformation(events) == Success(RadioInfo(Some(0), Some(5)))
  {
    RadioExchangeZeroFive(events);
    assert Decimal(0) + "," + Decimal(5) == "0,5";
    ParseRadioInfoDecimal(0, 5, []);
    assert ["0,5"] + [] == ["0,5"];
  }

  lemma RadioExchangeZeroFive(events: seq<Event>)
    requires events == [Line("0,5\r\n")]
    ensures Exchange(RadioInfoCommand, events) == Resolved(["0,5"])
  {
    assert "0,5" + "\r\n" == "0,5\r\n";
    StripCrLfTerminated("0,5");
    assert !Contains("0,5", "ERROR");
    TimeoutRule(None, "ERROR", events, 1);
    assert events[..1] == events;
  }

  /** Scenario: radio status `0,5` forces `AT$RC` before `AT$SF=...`. */
  lemma ResetScenario(bytes: seq<byte>, scripts: Script)
    requires 1 <= |bytes| <= 12
    requires |scripts| > 0 && scripts[0] == [Line("0,5\r\n")]
    ensures var t := SendBytes(Buffer(bytes), scripts);
      |t.sent| >= 2 && t.sent[..2] == [RadioInfoCommand, ResetChannelCommand]
  {
    RadioReplyZeroFive(Next(scripts));
    var info := RadioInfo(Some(0), Some(5));
    assert NeedsReset(info);
    SendBytesResetRule(Buffer(bytes), scripts);
  }

  // ---------------------------------------------------------------------------
  // `waitPortReady`: the first of "port open" and the 2000 ms timer wins.

  /** The port opening, or the `READY_TIMEOUT` timer of 2000 ms firing. */
  datatype PortEvent = PortOpened | ReadyTimerFired

  const PortReadyTimeoutMessage := "port ready timeout"

  /** When the port opened before the call, the wait resolves at once; a silent port times out. */
  function WaitPortReady(alreadyOpen: bool, events: seq<PortEvent>): Result<()>
  {
    if alreadyOpen then Success(())
    else if events == [] || events[0] == ReadyTimerFired then Failure(PortReadyTimeoutMessage)
    else Success(())
  }

  /** The first event decides; a late open after the timeout changes nothing. */
  lemma ReadyFirstEventWins(alreadyOpen: bool, first: PortEvent, later: seq<PortEvent>)
    ensures WaitPortReady(alreadyOpen, [first] + later) == WaitPortReady(alreadyOpen, [first])
    ensures WaitPortReady(alreadyOpen, [first] + later).Failure? <==> !alreadyOpen && first == ReadyTimerFired
  {
  }
}
