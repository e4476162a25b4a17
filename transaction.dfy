/**
 * The command/response transaction of `Driver._waitDataReceive`. After a command
 * has been written, every line the parser delivers is stripped of CR and LF,
 * appended to the transaction's history and tested against the success and error
 * replies, until a line decides the outcome or the timeout timer fires. The first
 * outcome settles the transaction for good: the listener is removed and the timer
 * cleared (or spent).
 *
 * The parser's deliveries and the timer are an explicit sequence of events. The
 * specification is the fold `Run` of `Step` over those events; the class
 * `Transaction` is the stateful handler, proved to follow `Step` one event at a time.
 */
module Transaction {
  import opened Wrappers
  import opened JsText

  /** What can happen while a transaction listens: the parser emits a line, or the timer fires. */
  datatype Event = Line(data: string) | TimerFired

  /** The `done` flag: false while listening, then the outcome that ended the transaction. */
  datatype Status = Listening | Succeeded | Failed | TimedOut

  /** How the transaction's promise settles. */
  datatype Settlement = Resolved(history: seq<string>) | Rejected(message: string)

  const TimeoutMessage := "timeout"

  /** The rejection message when a line matches the error reply. */
  function DeviceErrorMessage(errorReply: string): string
  {
    "Received (" + errorReply + ")"
  }

  /** `successReply` is truthy: given, and not the empty string. */
  predicate SuccessRequired(successReply: Option<string>)
  {
    successReply.Some? && successReply.value != ""
  }

  /** The outcome one stripped line decides; Listening when it decides nothing. */
  function Classify(successReply: Option<string>, errorReply: string, line: string): Status
  {
    if SuccessRequired(successReply) && Contains(line, successReply.value) then Succeeded
    else if Contains(line, errorReply) then Failed
    else Listening
  }

  /** The handler's state: the lines received so far and the `done` flag. */
  datatype State = State(history: seq<string>, done: Status)

  const Initial := State([], Listening)

  /** One event. Once settled the listener is gone and the timer cleared, so nothing changes. */
  function Step(successReply: Option<string>, errorReply: string, s: State, e: Event): State
  {
    if !s.done.Listening? then s
    else
      match e
      case Line(data) =>
        var line := StripCrLf(data);
        State(s.history + [line], Classify(successReply, errorReply, line))
      case TimerFired => State(s.history, TimedOut)
  }

  /** The events delivered in order. */
  function Run(successReply: Option<string>, errorReply: string, s: State, events: seq<Event>): State
    decreases |events|
  {
    if events == [] then s else Run(successReply, errorReply, Step(successReply, errorReply, s, events[0]), events[1..])
  }

  /** How the promise has settled in a state, if it has. */
  function Settle(successReply: Option<string>, errorReply: string, s: State): Option<Settlement>
  {
    match s.done
    case Listening => None
    case Succeeded => Some(Resolved(s.history))
    case Failed => Some(Rejected(DeviceErrorMessage(errorReply)))
    case TimedOut => Some(if SuccessRequired(successReply) then Rejected(TimeoutMessage) else Resolved(s.history))
  }

  lemma {:induction false} RunAppend(successReply: Option<string>, errorReply: string, s: State, a: seq<Event>, b: seq<Event>)
    ensures Run(successReply, errorReply, s, a + b) == Run(successReply, errorReply, Run(successReply, errorReply, s, a), b)
    decreases |a|
  {
    if a != [] {
      assert (a + b)[0] == a[0];
      assert (a + b)[1..] == a[1..] + b;
      RunAppend(successReply, errorReply, Step(successReply, errorReply, s, a[0]), a[1..], b);
    } else {
      assert a + b == b;
    }
  }

  lemma RunSnoc(successReply: Option<string>, errorReply: string, s: State, events: seq<Event>, e: Event)
    ensures Run(successReply, errorReply, s, events + [e]) == Step(successReply, errorReply, Run(successReply, errorReply, s, events), e)
  {
    RunAppend(successReply, errorReply, s, events, [e]);
  }

  // ---------------------------------------------------------------------------
  // The handler as the source runs it: a `done` flag, a history array pushed per
  // line, a registered listener and an armed timer.

  class Transaction {
    const successReply: Option<string>
    const errorReply: string
    var history: seq<string>
    var done: Status
    var listening: bool
    var timerArmed: bool
    var settlement: Option<Settlement>

    /** The listener and the timer live exactly as long as the flag says Listening,
        and the promise has settled exactly as the state says. */
    ghost predicate Valid()
      reads this
    {
      && listening == done.Listening?
      && timerArmed == done.Listening?
      && settlement == Settle(successReply, errorReply, State(history, done))
    }

    function Snapshot(): State
      reads this
    {
      State(history, done)
    }

    /** A new transaction: empty history, listener registered, timer armed. */
    constructor (successReply: Option<string>, errorReply: string)
      ensures Valid()
      ensures this.successReply == successReply && this.errorReply == errorReply
      ensures Snapshot() == Initial && listening && timerArmed && settlement == None
    {
      this.successReply := successReply;
      this.errorReply := errorReply;
      history := [];
      done := Listening;
      listening := true;
      timerArmed := true;
      settlement := None;
    }

    /** The parser emits a line; a listener that has been removed does not see it. */
    method Receive(data: string)
      requires Valid()
      modifies this
      ensures Valid()
      ensures Snapshot() == Step(successReply, errorReply, old(Snapshot()), Line(data))
      ensures old(listening) ==> history == old(history) + [StripCrLf(data)]
      ensures !old(listening) ==> unchanged(this)
      ensures old(settlement).Some? ==> settlement == old(settlement)
    {
      if !listening {
        return;
      }
      var line := StripCrLf(data);
      history := history + [line];
      if done.Listening? {
        if SuccessRequired(successReply) && Contains(line, successReply.value) {
          done := Succeeded;
        } else if Contains(line, errorReply) {
          done := Failed;
        }
      }
      if !done.Listening? {
        timerArmed := false;
        listening := false;
        if done == Succeeded {
          settlement := Some(Resolved(history));
        } else {
          settlement := Some(Rejected(DeviceErrorMessage(errorReply)));
        }
      }
    }

    /** The timeout timer fires; a cleared or spent timer does not. */
    method TimerFires()
      requires Valid()
      modifies this
      ensures Valid()
      ensures Snapshot() == Step(successReply, errorReply, old(Snapshot()), TimerFired)
      ensures old(timerArmed) ==> history == old(history) && done == TimedOut && !listening
      ensures !old(timerArmed) ==> unchanged(this)
    {
      if !timerArmed {
        return;
      }
      listening := false;
      if SuccessRequired(successReply) {
        settlement := Some(Rejected(TimeoutMessage));
      } else {
        settlement := Some(Resolved(history));
      }
      done := TimedOut;
      timerArmed := false;
    }
  }

  /** One whole transaction: a fresh handler receives the events in order. */
  method Transact(successReply: Option<string>, errorReply: string, events: seq<Event>) returns (settlement: Option<Settlement>)
    ensures settlement == Settle(successReply, errorReply, Run(successReply, errorReply, Initial, events))
  {
    var t := new Transaction(successReply, errorReply);
    for i := 0 to |events|
      invariant t.Valid() && t.successReply == successReply && t.errorReply == errorReply
      invariant t.Snapshot() == Run(successReply, errorReply, Initial, events[..i])
    {
      RunSnoc(successReply, errorReply, Initial, events[..i], events[i]);
      assert events[..i + 1] == events[..i] + [events[i]];
      match events[i]
      case Line(data) => t.Receive(data);
      case TimerFired => t.TimerFires();
    }
    assert events[..|events|] == events;
    settlement := t.settlement;
  }

  // ---------------------------------------------------------------------------
  // What the fold means.

  /** The outcome one event decides on its own, if the transaction is still listening. */
  function Verdict(successReply: Option<string>, errorReply: string, e: Event): Status
  {
    match e
    case Line(data) => Classify(successReply, errorReply, StripCrLf(data))
    case TimerFired => TimedOut
  }

  predicate Decisive(successReply: Option<string>, errorReply: string, e: Event)
  {
    !Verdict(successReply, errorReply, e).Listening?
  }

  /** The stripped lines among the events, in arrival order. */
  function Lines(events: seq<Event>): (lines: seq<string>)
    ensures |lines| <= |events|
  {
    if events == [] then []
    else (if events[0].Line? then [StripCrLf(events[0].data)] else []) + Lines(events[1..])
  }

  /** The position of the first event that decides the outcome, |events| when none does. */
  function FirstDecisive(successReply: Option<string>, errorReply: string, events: seq<Event>): (k: nat)
    ensures k <= |events|
    ensures forall j :: 0 <= j < k ==> !Decisive(successReply, errorReply, events[j])
    ensures k < |events| ==> Decisive(successReply, errorReply, events[k])
  {
    if events == [] then 0
    else if Decisive(successReply, errorReply, events[0]) then 0
    else 1 + FirstDecisive(successReply, errorReply, events[1..])
  }

  /** Once settled, no later line or timer changes anything: the state is final. */
  lemma {:induction false} SettledIsFinal(successReply: Option<string>, errorReply: string, s: State, events: seq<Event>)
    requires !s.done.Listening?
    ensures Run(successReply, errorReply, s, events) == s
    decreases |events|
  {
    if events != [] {
      SettledIsFinal(successReply, errorReply, s, events[1..]);
    }
  }

  /**
   * The fold, described without it: up to the first decisive event every line is
   * stripped and appended in arrival order and the handler keeps listening; the
   * first decisive event fixes the outcome and nothing after it is recorded.
   */
  lemma RunFromListening(successReply: Option<string>, errorReply: string, h: seq<string>, events: seq<Event>)
    ensures var k := FirstDecisive(successReply, errorReply, events);
      Run(successReply, errorReply, State(h, Listening), events)
      == if k == |events| then State(h + Lines(events), Listening)
         else State(h + Lines(events[..k + 1]), Verdict(successReply, errorReply, events[k]))
  {
    var k := FirstDecisive(successReply, errorReply, events);
    if k == |events| {
      RunUndecided(successReply, errorReply, h, events);
    } else {
      RunDecided(successReply, errorReply, h, events, k);
    }
  }

  /** The first decisive event at `k` settles the run with the lines up to and including it. */
  lemma RunDecided(successReply: Option<string>, errorReply: string, h: seq<string>, events: seq<Event>, k: nat)
    requires k < |events| && Decisive(successReply, errorReply, events[k])
    requires forall j :: 0 <= j < k ==> !Decisive(successReply, errorReply, events[j])
    ensures Run(successReply, errorReply, State(h, Listening), events)
            == State(h + Lines(events[..k + 1]), Verdict(successReply, errorReply, events[k]))
  {
    var pre, e, post := events[..k], events[k], events[k + 1..];
    RunUndecided(successReply, errorReply, h, pre);
    var s := State(h + Lines(pre), Listening);
    assert events == pre + ([e] + post);
    RunAppend(successReply, errorReply, State(h, Listening), pre, [e] + post);
    var s1 := StepDecisive(successReply, errorReply, h + Lines(pre), e);
    RunCons(successReply, errorReply, s, e, post);
    SettledIsFinal(successReply, errorReply, s1, post);
    assert events[..k + 1] == pre + [e];
    LinesAppend(pre, [e]);
    assert h + Lines(events[..k + 1]) == h + Lines(pre) + Lines([e]);
  }

  lemma RunCons(successReply: Option<string>, errorReply: string, s: State, e: Event, events: seq<Event>)
    ensures Run(successReply, errorReply, s, [e] + events) == Run(successReply, errorReply, Step(successReply, errorReply, s, e), events)
  {
    assert ([e] + events)[0] == e && ([e] + events)[1..] == events;
  }

  /** A decisive event records its line, if it is one, and fixes the status. */
  lemma StepDecisive(successReply: Option<string>, errorReply: string, h: seq<string>, e: Event) returns (s1: State)
    requires Decisive(successReply, errorReply, e)
    ensures s1 == Step(successReply, errorReply, State(h, Listening), e)
    ensures s1 == State(h + Lines([e]), Verdict(successReply, errorReply, e)) && !s1.done.Listening?
  {
    s1 := Step(successReply, errorReply, State(h, Listening), e);
    assert Lines([e]) == (if e.Line? then [StripCrLf(e.data)] else []) + Lines([]);
    assert h + [] == h;
  }

  /** While no event decides, every event is a line and is appended to the history. */
  lemma {:induction false} RunUndecided(successReply: Option<string>, errorReply: string, h: seq<string>, events: seq<Event>)
    requires forall j :: 0 <= j < |events| ==> !Decisive(successReply, errorReply, events[j])
    ensures Run(successReply, errorReply, State(h, Listening), events) == State(h + Lines(events), Listening)
    decreases |events|
  {
    if events == [] {
      assert h + [] == h;
    } else {
      var e := events[0];
      assert !Decisive(successReply, errorReply, e);
      var h1 := h + [StripCrLf(e.data)];
      assert Step(successReply, errorReply, State(h, Listening), e) == State(h1, Listening);
      RunUndecided(successReply, errorReply, h1, events[1..]);
      assert Lines(events) == [StripCrLf(e.data)] + Lines(events[1..]);
      assert h1 + Lines(events[1..]) == h + Lines(events);
    }
  }

  /** The transaction as the caller sees it: the events, then the timer if it is still armed. */
  function Conclude(successReply: Option<string>, errorReply: string, events: seq<Event>): Settlement
  {
    var s := Run(successReply, errorReply, Initial, events + [TimerFired]);
    RunSnoc(successReply, errorReply, Initial, events, TimerFired);
    Settle(successReply, errorReply, s).value
  }

  /** A transaction run to its end: the device's lines, then the timer if nothing settled it before. */
  method Await(successReply: Option<string>, errorReply: string, events: seq<Event>) returns (settlement: Settlement)
    ensures settlement == Conclude(successReply, errorReply, events)
  {
    RunSnoc(successReply, errorReply, Initial, events, TimerFired);
    var s := Transact(successReply, errorReply, events + [TimerFired]);
    settlement := s.value;
  }

  lemma ConcludeFromFirst(successReply: Option<string>, errorReply: string, events: seq<Event>)
    ensures var k := FirstDecisive(successReply, errorReply, events);
      Conclude(successReply, errorReply, events)
      == if k == |events| then Settle(successReply, errorReply, State(Lines(events), TimedOut)).value
         else Settle(successReply, errorReply, State(Lines(events[..k + 1]), Verdict(successReply, errorReply, events[k]))).value
  {
    RunFromListening(successReply, errorReply, [], events);
    RunSnoc(successReply, errorReply, Initial, events, TimerFired);
    var k := FirstDecisive(successReply, errorReply, events);
    assert [] + Lines(events) == Lines(events);
    if k < |events| {
      assert [] + Lines(events[..k + 1]) == Lines(events[..k + 1]);
    }
  }

  /** Until the first decisive event all events are lines, each contributing one history entry. */
  lemma {:induction false} LinesBeforeFirst(successReply: Option<string>, errorReply: string, events: seq<Event>, k: nat)
    requires k <= |events|
    requires forall j :: 0 <= j < k ==> !Decisive(successReply, errorReply, events[j])
    ensures |Lines(events[..k])| == k
    ensures forall j :: 0 <= j < k ==> events[j].Line? && Lines(events[..k])[j] == StripCrLf(events[j].data)
    decreases k
  {
    if k > 0 {
      LinesBeforeFirst(successReply, errorReply, events[1..], k - 1);
      assert events[..k][0] == events[0];
      assert events[..k][1..] == events[1..][..k - 1];
      assert Lines(events[..k]) == [StripCrLf(events[0].data)] + Lines(events[1..][..k - 1]);
      forall j | 1 <= j < k
        ensures Lines(events[..k])[j] == StripCrLf(events[j].data)
      {
        assert events[1..][j - 1] == events[j];
      }
    }
  }

  /** The history up to and including event k, when k is a line. */
  lemma LinesThroughLine(events: seq<Event>, k: nat)
    requires k < |events| && events[k].Line?
    ensures Lines(events[..k + 1]) == Lines(events[..k]) + [StripCrLf(events[k].data)]
  {
    LinesAppend(events[..k], [events[k]]);
    assert events[..k + 1] == events[..k] + [events[k]];
    assert Lines([events[k]]) == [StripCrLf(events[k].data)] + Lines([]);
  }

  lemma {:induction false} LinesAppend(a: seq<Event>, b: seq<Event>)
    ensures Lines(a + b) == Lines(a) + Lines(b)
    decreases |a|
  {
    if a != [] {
      assert (a + b)[0] == a[0];
      assert (a + b)[1..] == a[1..] + b;
      LinesAppend(a[1..], b);
    } else {
      assert a + b == b;
    }
  }

  // ---------------------------------------------------------------------------
  // The outcome rules.

  /**
   * A line containing the required success reply resolves the transaction with the
   * whole history, that line last. Nothing is said about the error reply: a line
   * matching both succeeds.
   */
  lemma SuccessResolves(successReply: Option<string>, errorReply: string, events: seq<Event>, k: nat)
    requires SuccessRequired(successReply)
    requires k < |events| && events[k].Line? && Contains(StripCrLf(events[k].data), successReply.value)
    requires forall j :: 0 <= j < k ==> !Decisive(successReply, errorReply, events[j])
    ensures Conclude(successReply, errorReply, events) == Resolved(Lines(events[..k + 1]))
    ensures |Lines(events[..k + 1])| == k + 1
    ensures forall j :: 0 <= j <= k ==> events[j].Line? && Lines(events[..k + 1])[j] == StripCrLf(events[j].data)
  {
    assert Decisive(successReply, errorReply, events[k]);
    assert FirstDecisive(successReply, errorReply, events) == k;
    ConcludeFromFirst(successReply, errorReply, events);
    LinesBeforeFirst(successReply, errorReply, events, k);
    LinesThroughLine(events, k);
  }

  /** A line that does not succeed but contains the error reply rejects with `Received (<errorReply>)`. */
  lemma ErrorRejects(successReply: Option<string>, errorReply: string, events: seq<Event>, k: nat)
    requires k < |events| && events[k].Line?
    requires !(SuccessRequired(successReply) && Contains(StripCrLf(events[k].data), successReply.value))
    requires Contains(StripCrLf(events[k].data), errorReply)
    requires forall j :: 0 <= j < k ==> !Decisive(successReply, errorReply, events[j])
    ensures Conclude(successReply, errorReply, events) == Rejected(DeviceErrorMessage(errorReply))
  {
    assert Decisive(successReply, errorReply, events[k]);
    assert FirstDecisive(successReply, errorReply, events) == k;
    ConcludeFromFirst(successReply, errorReply, events);
  }

  /**
   * When the timer fires first (at position k, or after all events when k == |events|),
   * a required success reply makes it a `timeout` rejection; otherwise the transaction
   * resolves with exactly the k lines received, stripped, in arrival order.
   */
  lemma TimeoutRule(successReply: Option<string>, errorReply: string, events: seq<Event>, k: nat)
    requires k <= |events| && (k < |events| ==> events[k].TimerFired?)
    requires forall j :: 0 <= j < k ==> !Decisive(successReply, errorReply, events[j])
    ensures Conclude(successReply, errorReply, events)
            == if SuccessRequired(successReply) then Rejected(TimeoutMessage) else Resolved(Lines(events[..k]))
    ensures |Lines(events[..k])| == k
    ensures forall j :: 0 <= j < k ==> events[j].Line? && Lines(events[..k])[j] == StripCrLf(events[j].data)
  {
    assert FirstDecisive(successReply, errorReply, events) == k;
    ConcludeFromFirst(successReply, errorReply, events);
    LinesBeforeFirst(successReply, errorReply, events, k);
    if k < |events| {
      LinesThroughTimer(events, k);
    } else {
      assert events[..k] == events;
    }
  }

  /**
   * With a success reply required, the transaction resolves exactly when the first
   * decisive event is a success line; the history then starts with the first line
   * received. Otherwise it rejects with `timeout` or `Received (<errorReply>)`.
   */
  lemma RequiredOutcome(successReply: Option<string>, errorReply: string, events: seq<Event>)
    requires SuccessRequired(successReply)
    ensures var c, k := Conclude(successReply, errorReply, events), FirstDecisive(successReply, errorReply, events);
      && (c.Resolved? <==> k < |events| && Verdict(successReply, errorReply, events[k]) == Succeeded)
      && (c.Rejected? ==> c.message == TimeoutMessage || c.message == DeviceErrorMessage(errorReply))
  {
    ConcludeFromFirst(successReply, errorReply, events);
  }

  /** A timer event contributes no line. */
  lemma LinesThroughTimer(events: seq<Event>, k: nat)
    requires k < |events| && events[k].TimerFired?
    ensures Lines(events[..k + 1]) == Lines(events[..k])
  {
    LinesAppend(events[..k], [events[k]]);
    assert events[..k + 1] == events[..k] + [events[k]];
    assert Lines([events[k]]) == [] + Lines([]);
  }

  /** Without a success reply nothing succeeds early: only an error line ends the wait before the timer. */
  lemma {:induction false} NoSuccessWithoutPattern(successReply: Option<string>, errorReply: string, s: State, events: seq<Event>)
    requires !SuccessRequired(successReply) && !s.done.Succeeded?
    ensures !Run(successReply, errorReply, s, events).done.Succeeded?
    decreases |events|
  {
    if events != [] {
      NoSuccessWithoutPattern(successReply, errorReply, Step(successReply, errorReply, s, events[0]), events[1..]);
    }
  }

  /** A line before any timer event that contains the error reply. */
  predicate ErrorLineAt(errorReply: string, events: seq<Event>, j: int)
  {
    && 0 <= j < |events|
    && events[j].Line? && Contains(StripCrLf(events[j].data), errorReply)
    && forall i :: 0 <= i < j ==> events[i].Line?
  }

  /**
   * In fire-and-collect mode the transaction is rejected exactly when a line containing
   * the error reply arrives before the timer fires, and then with `Received (<errorReply>)`.
   */
  lemma CollectRejectsOnlyOnError(successReply: Option<string>, errorReply: string, events: seq<Event>)
    requires !SuccessRequired(successReply)
    ensures Conclude(successReply, errorReply, events).Rejected? <==> exists j :: ErrorLineAt(errorReply, events, j)
    ensures Conclude(successReply, errorReply, events).Rejected? ==>
            Conclude(successReply, errorReply, events).message == DeviceErrorMessage(errorReply)
  {
    ConcludeFromFirst(successReply, errorReply, events);
    var k := FirstDecisive(successReply, errorReply, events);
    if exists j :: ErrorLineAt(errorReply, events, j) {
      var j :| ErrorLineAt(errorReply, events, j);
      assert Decisive(successReply, errorReply, events[j]);
      assert k <= j && events[k].Line?;
    }
    if Conclude(successReply, errorReply, events).Rejected? {
      assert k < |events| && events[k].Line?;
      assert ErrorLineAt(errorReply, events, k);
    }
  }

  /** The history only grows, by at most one line per event. */
  lemma {:induction false} HistoryAppendOnly(successReply: Option<string>, errorReply: string, s: State, events: seq<Event>)
    ensures s.history <= Run(successReply, errorReply, s, events).history
    ensures |Run(successReply, errorReply, s, events).history| <= |s.history| + |events|
    decreases |events|
  {
    if events != [] {
      HistoryAppendOnly(successReply, errorReply, Step(successReply, errorReply, s, events[0]), events[1..]);
    }
  }

  /**
   * Exactly one settlement: the promise settles once some event has been decisive,
   * and whatever arrives afterwards leaves the settlement as it was.
   */
  lemma FirstOutcomeFinal(successReply: Option<string>, errorReply: string, events: seq<Event>, later: seq<Event>)
    ensures Settle(successReply, errorReply, Run(successReply, errorReply, Initial, events)).Some?
            <==> exists j :: 0 <= j < |events| && Decisive(successReply, errorReply, events[j])
    ensures Settle(successReply, errorReply, Run(successReply, errorReply, Initial, events)).Some? ==>
            Run(successReply, errorReply, Initial, events + later) == Run(successReply, errorReply, Initial, events)
  {
    RunFromListening(successReply, errorReply, [], events);
    var k := FirstDecisive(successReply, errorReply, events);
    RunAppend(successReply, errorReply, Initial, events, later);
    if k < |events| {
      SettledIsFinal(successReply, errorReply, Run(successReply, errorReply, Initial, events), later);
    }
  }
}
