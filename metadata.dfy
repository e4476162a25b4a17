/**
 * `getModuleMetadata`: one fire-and-collect query per catalog field, in the
 * catalog's declaration order, then the temperature, then the voltages, each
 * issued after the previous one settled. Each answer goes into the result map
 * under the field's name: the first line for the catalog fields and the
 * temperature, the whole history for the voltages.
 *
 * The source recurses on the index while mutating one shared `results` object;
 * `Walk` is that recursion as a function, and the method `GetModuleMetadata`
 * is the loop with an accumulator map that runs each query through a
 * `Transaction` object.
 */
module Metadata {
  import opened Wrappers
  import opened Transaction
  import opened Driver
  import Constants

  /** One step of the walk: where the answer goes, the query, and whether the whole history is kept. */
  datatype Field = Field(key: string, command: Command, wholeHistory: bool)

  /** Catalog fields, then temperature, then voltages. */
  function WalkLength(): nat
  {
    Constants.NumKeys() + 2
  }

  function PlanStep(index: nat): Field
    requires index < WalkLength()
  {
    if index == Constants.NumKeys() then Field("moduleTemperature", TemperatureCommand, false)
    else if index == Constants.NumKeys() + 1 then Field("moduleVoltages", VoltagesCommand, true)
    else Field(Constants.KeyAt(index), InformationCommand(Constants.CodeAt(index)), false)
  }

  /**
   * Each step stores what its getter resolves with: `getModuleInformation(code)` for a
   * catalog field, `getModuleTemperature()` and `getModuleVoltages()` for the two
   * readings; a getter's rejection is its query's rejection.
   */
  lemma GettersMatchPlan(index: nat, events: seq<Event>)
    requires index < WalkLength()
    ensures var f, a := PlanStep(index), Exchange(PlanStep(index).command, events);
      index < Constants.NumKeys() ==>
        GetModuleInformation(Constants.CodeAt(index), events)
        == if a.Resolved? then Success(FieldValue(f, a.history)) else Failure(a.message)
    ensures var f, a := PlanStep(index), Exchange(PlanStep(index).command, events);
      index == Constants.NumKeys() ==>
        GetModuleTemperature(events) == if a.Resolved? then Success(FieldValue(f, a.history)) else Failure(a.message)
    ensures var f, a, v := PlanStep(index), Exchange(PlanStep(index).command, events), GetModuleVoltages(events);
      index == Constants.NumKeys() + 1 ==>
        && (v.Success? <==> a.Resolved?)
        && (v.Success? ==> FieldValue(f, a.history) == LineList(v.value))
        && (v.Failure? ==> v.message == a.message)
  {
  }

  /** The whole walk, step by step. */
  function Plan(): (plan: seq<Field>)
    ensures |plan| == WalkLength()
    ensures forall i :: 0 <= i < |plan| ==> plan[i] == PlanStep(i)
  {
    seq(WalkLength(), i requires 0 <= i < WalkLength() => PlanStep(i))
  }

  function FieldValue(f: Field, history: seq<string>): Value
  {
    if f.wholeHistory then LineList(history) else FirstLine(history)
  }

  /** An undefined or negative index starts the walk at 0. */
  function StartIndex(index: Option<int>): nat
  {
    if index.None? || index.value < 0 then 0 else index.value
  }

  /** The walk through `plan` from `index` on, storing into `results`; it stops at the first rejection. */
  function Walk(plan: seq<Field>, results: map<string, Value>, index: nat, scripts: Script): Trace<map<string, Value>>
    decreases |plan| - index
  {
    if index >= |plan| then Trace([], Success(results))
    else
      var f := plan[index];
      match Exchange(f.command, Next(scripts))
      case Rejected(m) => Trace([f.command], Failure(m))
      case Resolved(h) => Then(f.command, Walk(plan, results[f.key := FieldValue(f, h)], index + 1, Rest(scripts)))
  }

  /** `getModuleMetadata(results, index)`; a missing `results` starts from an empty object. */
  function CollectMetadata(results: Option<map<string, Value>>, index: Option<int>, scripts: Script): Trace<map<string, Value>>
  {
    Walk(Plan(), results.GetOr(map[]), StartIndex(index), scripts)
  }

  /** The loop form: each query runs through a fresh transaction handler. */
  method GetModuleMetadata(results: Option<map<string, Value>>, index: Option<int>, scripts: Script)
    returns (sent: seq<Command>, r: Result<map<string, Value>>)
    ensures Trace(sent, r) == CollectMetadata(results, index, scripts)
  {
    sent, r := WalkPlan(Plan(), results.GetOr(map[]), StartIndex(index), scripts);
  }

  /** The walk as a loop: each query runs through a fresh transaction handler, and the first rejection stops it. */
  method WalkPlan(plan: seq<Field>, results: map<string, Value>, index: nat, scripts: Script)
    returns (sent: seq<Command>, r: Result<map<string, Value>>)
    ensures Trace(sent, r) == Walk(plan, results, index, scripts)
  {
    var acc := results;
    var i := index;
    var rest := scripts;
    sent := [];
    while i < |plan|
      invariant Walk(plan, results, index, scripts) == Prefixed(sent, Walk(plan, acc, i, rest))
      decreases |plan| - i
    {
      var f := plan[i];
      var answer := Await(f.command.successReply, f.command.errorReply, Next(rest));
      WalkStep(plan, acc, i, rest);
      if answer.Rejected? {
        PrefixedStop<map<string, Value>>(sent, f.command, answer.message);
        sent := sent + [f.command];
        r := Failure(answer.message);
        return;
      }
      PrefixedThen(sent, f.command, Walk(plan, acc[f.key := FieldValue(f, answer.history)], i + 1, Rest(rest)));
      sent := sent + [f.command];
      acc := acc[f.key := FieldValue(f, answer.history)];
      i := i + 1;
      rest := Rest(rest);
    }
    assert sent + [] == sent;
    r := Success(acc);
  }

  /** The trace `t` after the commands already sent. */
  function Prefixed<T>(sent: seq<Command>, t: Trace<T>): Trace<T>
  {
    Trace(sent + t.sent, t.result)
  }

  lemma PrefixedThen<T>(sent: seq<Command>, c: Command, t: Trace<T>)
    ensures Prefixed(sent, Then(c, t)) == Prefixed(sent + [c], t)
  {
    assert sent + ([c] + t.sent) == (sent + [c]) + t.sent;
  }

  lemma PrefixedStop<T>(sent: seq<Command>, c: Command, message: string)
    ensures Prefixed<T>(sent, Trace([c], Failure(message))) == Trace(sent + [c], Failure(message))
  {
  }

  /** One step of the walk: the answer to the step's query decides between stopping and going on. */
  lemma WalkStep(plan: seq<Field>, results: map<string, Value>, index: nat, scripts: Script)
    requires index < |plan|
    ensures var f := plan[index];
      var answer := Exchange(f.command, Next(scripts));
      Walk(plan, results, index, scripts)
      == if answer.Rejected? then Trace([f.command], Failure(answer.message))
         else Then(f.command, Walk(plan, results[f.key := FieldValue(f, answer.history)], index + 1, Rest(scripts)))
  {
  }

  // ---------------------------------------------------------------------------
  // What the walk does.

  /** The queries of `plan` from `index` on. */
  function Queries(plan: seq<Field>, index: nat): (qs: seq<Command>)
    ensures |qs| == if index < |plan| then |plan| - index else 0
    ensures forall j :: 0 <= j < |qs| ==> qs[j] == plan[index + j].command
    decreases |plan| - index
  {
    if index >= |plan| then [] else [plan[index].command] + Queries(plan, index + 1)
  }

  /** The script of the transaction issued `n` queries later. */
  function Skip(scripts: Script, n: nat): Script
  {
    if n == 0 then scripts else Skip(Rest(scripts), n - 1)
  }

  /** The keys the walk from `index` on stores under. */
  function KeysFrom(plan: seq<Field>, index: nat): set<string>
  {
    set i | index <= i < |plan| :: plan[i].key
  }

  lemma KeysFromStep(plan: seq<Field>, index: nat)
    requires index < |plan|
    ensures KeysFrom(plan, index) == {plan[index].key} + KeysFrom(plan, index + 1)
  {
    assert plan[index].key in KeysFrom(plan, index);
  }

  predicate DistinctKeys(plan: seq<Field>)
  {
    forall i, j :: 0 <= i < j < |plan| ==> plan[i].key != plan[j].key
  }

  /** Every step stores under its own key: catalog names are distinct and differ from the two extra fields. */
  lemma PlanKeysDistinct()
    ensures DistinctKeys(Plan())
  {
    Constants.CatalogWellFormed();
    forall i | 0 <= i < Constants.NumKeys()
      ensures Constants.KeyAt(i) != "moduleTemperature" && Constants.KeyAt(i) != "moduleVoltages"
    {
      assert Constants.KeyAt(i)[0] != 'm' || Constants.KeyAt(i)[1] != 'o';
    }
  }

  /** A query with no success reply and the error reply `ERROR`, as every step of the walk is. */
  predicate CollectOnly(plan: seq<Field>)
  {
    forall i :: 0 <= i < |plan| ==> plan[i].command.successReply == None && plan[i].command.errorReply == "ERROR"
  }

  /**
   * The walk issues the queries in plan order, stopping only after a rejected one;
   * with fire-and-collect queries the only rejection is the device's error reply.
   */
  lemma {:induction false} WalkOrder(plan: seq<Field>, results: map<string, Value>, index: nat, scripts: Script)
    requires CollectOnly(plan)
    ensures var t := Walk(plan, results, index, scripts);
      && t.sent <= Queries(plan, index)
      && (t.result.Success? ==> t.sent == Queries(plan, index))
      && (t.result.Failure? ==> |t.sent| >= 1 && t.result.message == "Received (ERROR)")
    decreases |plan| - index
  {
    if index < |plan| {
      var f := plan[index];
      CollectRejectsOnlyOnError(f.command.successReply, f.command.errorReply, Next(scripts));
      match Exchange(f.command, Next(scripts))
      case Rejected(m) =>
      case Resolved(h) =>
        WalkOrder(plan, results[f.key := FieldValue(f, h)], index + 1, Rest(scripts));
    }
  }

  /**
   * A walk that completes stores exactly the keys from `index` on and leaves every
   * other key of `results` as it was.
   */
  lemma {:induction false} WalkKeys(plan: seq<Field>, results: map<string, Value>, index: nat, scripts: Script)
    ensures var t := Walk(plan, results, index, scripts);
      t.result.Success? ==>
        && t.result.value.Keys == results.Keys + KeysFrom(plan, index)
        && (forall k :: k in results && k !in KeysFrom(plan, index) ==> t.result.value[k] == results[k])
    decreases |plan| - index
  {
    if index < |plan| {
      var f := plan[index];
      var answer := Exchange(f.command, Next(scripts));
      WalkStep(plan, results, index, scripts);
      KeysFromStep(plan, index);
      if answer.Resolved? {
        var results' := results[f.key := FieldValue(f, answer.history)];
        WalkKeys(plan, results', index + 1, Rest(scripts));
      }
    } else {
      assert KeysFrom(plan, index) == {};
    }
  }

  /** A walk that completes stores under each key from `index` on the answer to that key's own query. */
  lemma {:induction false} WalkAnswers(plan: seq<Field>, results: map<string, Value>, index: nat, scripts: Script)
    requires DistinctKeys(plan)
    ensures var t := Walk(plan, results, index, scripts);
      t.result.Success? ==>
        forall i :: index <= i < |plan| ==>
          var answer := Exchange(plan[i].command, Next(Skip(scripts, i - index)));
          && answer.Resolved? && plan[i].key in t.result.value
          && t.result.value[plan[i].key] == FieldValue(plan[i], answer.history)
    decreases |plan| - index
  {
    if index < |plan| {
      var f := plan[index];
      var answer := Exchange(f.command, Next(scripts));
      WalkStep(plan, results, index, scripts);
      if answer.Resolved? {
        var results' := results[f.key := FieldValue(f, answer.history)];
        WalkKeys(plan, results', index + 1, Rest(scripts));
        WalkAnswers(plan, results', index + 1, Rest(scripts));
        var t := Walk(plan, results, index, scripts);
        if t.result.Success? {
          var m := t.result.value;
          assert f.key !in KeysFrom(plan, index + 1);
          forall i | index <= i < |plan|
            ensures var answer := Exchange(plan[i].command, Next(Skip(scripts, i - index)));
              answer.Resolved? && plan[i].key in m && m[plan[i].key] == FieldValue(plan[i], answer.history)
          {
            if i > index {
              assert Skip(scripts, i - index) == Skip(Rest(scripts), i - (index + 1));
            }
          }
        }
      }
    }
  }

  /** A completed walk from the start issued every query of `plan` and stored every key of it. */
  lemma WalkComplete(plan: seq<Field>, scripts: Script)
    requires CollectOnly(plan) && DistinctKeys(plan)
    ensures var t := Walk(plan, map[], 0, scripts);
      t.result.Success? ==>
        && t.sent == Queries(plan, 0)
        && t.result.value.Keys == KeysFrom(plan, 0)
        && (forall i :: 0 <= i < |plan| ==>
              var answer := Exchange(plan[i].command, Next(Skip(scripts, i)));
              && plan[i].key in t.result.value && answer.Resolved?
              && t.result.value[plan[i].key] == FieldValue(plan[i], answer.history))
  {
    var empty: map<string, Value> := map[];
    WalkOrder(plan, empty, 0, scripts);
    WalkKeys(plan, empty, 0, scripts);
    WalkAnswers(plan, empty, 0, scripts);
    assert empty.Keys + KeysFrom(plan, 0) == KeysFrom(plan, 0);
  }

  /** The plan: each catalog field's `AT$I=<code>` in declaration order, then `AT$T?`, then `AT$V?`. */
  lemma PlanShape()
    ensures CollectOnly(Plan()) && DistinctKeys(Plan())
    ensures forall i :: 0 <= i < Constants.NumKeys() ==>
      Plan()[i] == Field(Constants.KeyAt(i), InformationCommand(Constants.CodeAt(i)), false)
    ensures Plan()[9].key == "deviceId"
    ensures Plan()[10] == Field("moduleTemperature", TemperatureCommand, false)
    ensures Plan()[11] == Field("moduleVoltages", VoltagesCommand, true)
  {
    PlanKeysDistinct();
    PlanCollectOnly();
    Constants.CatalogMapping();
  }

  /** Every step of the plan is a query that collects until the timer, failing only on `ERROR`. */
  lemma PlanCollectOnly()
    ensures CollectOnly(Plan())
  {
    var plan := Plan();
    forall i | 0 <= i < |plan|
      ensures plan[i].command.successReply == None && plan[i].command.errorReply == "ERROR"
    {
      assert plan[i] == PlanStep(i);
    }
  }

  /**
   * `getModuleMetadata()` that resolves has issued `AT$I=<code>` for every catalog
   * field in declaration order, then `AT$T?`, then `AT$V?`, and nothing else.
   */
  lemma MetadataQueries(scripts: Script)
    ensures var t := CollectMetadata(None, None, scripts);
      t.result.Success? ==>
        && |t.sent| == 12
        && (forall i :: 0 <= i < Constants.NumKeys() ==> t.sent[i] == InformationCommand(Constants.CodeAt(i)))
        && t.sent[10] == TemperatureCommand && t.sent[11] == VoltagesCommand
  {
    var plan := Plan();
    PlanShape();
    WalkComplete(plan, scripts);
    var t := CollectMetadata(None, None, scripts);
    if t.result.Success? {
      forall i | 0 <= i < Constants.NumKeys()
        ensures t.sent[i] == InformationCommand(Constants.CodeAt(i))
      {
        assert t.sent[i] == plan[i].command;
      }
      assert t.sent[10] == plan[10].command;
      assert t.sent[11] == plan[11].command;
    }
  }

  /**
   * `getModuleMetadata()` that resolves holds exactly the catalog fields (deviceId
   * included), `moduleTemperature` and `moduleVoltages`.
   */
  lemma MetadataKeys(scripts: Script)
    ensures var t := CollectMetadata(None, None, scripts);
      t.result.Success? ==>
        && t.result.value.Keys == KeysFrom(Plan(), 0)
        && (forall i :: 0 <= i < Constants.NumKeys() ==> Constants.KeyAt(i) in t.result.value)
        && "deviceId" in t.result.value && "moduleTemperature" in t.result.value && "moduleVoltages" in t.result.value
  {
    var plan := Plan();
    PlanShape();
    WalkComplete(plan, scripts);
  }

  /**
   * In `getModuleMetadata()` that resolves, `moduleVoltages` is the whole history of
   * the `AT$V?` query and `moduleTemperature` the first line of the `AT$T?` query.
   */
  lemma MetadataReadings(scripts: Script)
    ensures var t := CollectMetadata(None, None, scripts);
      t.result.Success? ==>
        && (var answer := Exchange(VoltagesCommand, Next(Skip(scripts, 11)));
            answer.Resolved? && "moduleVoltages" in t.result.value
            && t.result.value["moduleVoltages"] == LineList(answer.history))
        && (var answer := Exchange(TemperatureCommand, Next(Skip(scripts, 10)));
            answer.Resolved? && "moduleTemperature" in t.result.value
            && t.result.value["moduleTemperature"] == FirstLine(answer.history))
  {
    var plan := Plan();
    PlanShape();
    WalkComplete(plan, scripts);
  }

  /** In `getModuleMetadata()` that resolves, each catalog field is the first line of its own `AT$I=<code>` query. */
  lemma MetadataValues(scripts: Script)
    ensures var t := CollectMetadata(None, None, scripts);
      t.result.Success? ==>
        forall i :: 0 <= i < Constants.NumKeys() ==>
          var answer := Exchange(InformationCommand(Constants.CodeAt(i)), Next(Skip(scripts, i)));
          answer.Resolved? && Constants.KeyAt(i) in t.result.value
          && t.result.value[Constants.KeyAt(i)] == FirstLine(answer.history)
  {
    var plan := Plan();
    PlanShape();
    WalkComplete(plan, scripts);
  }

  /**
   * In `getModuleMetadata()` that resolves, `deviceId` is defined exactly when the
   * module answered its `AT$I=10` query with at least one line, and is that line.
   */
  lemma MetadataDeviceId(scripts: Script)
    ensures var t := CollectMetadata(None, None, scripts);
      t.result.Success? ==>
        var answer := Exchange(InformationCommand(10), Next(Skip(scripts, 9)));
        && answer.Resolved? && "deviceId" in t.result.value
        && (t.result.value["deviceId"] != Undefined <==> |answer.history| > 0)
        && (|answer.history| > 0 ==> t.result.value["deviceId"] == Text(answer.history[0]))
  {
    MetadataValues(scripts);
    Constants.CatalogMapping();
    var t := CollectMetadata(None, None, scripts);
    if t.result.Success? {
      var i := Constants.NumKeys() - 1;
      var answer := Exchange(InformationCommand(Constants.CodeAt(i)), Next(Skip(scripts, i)));
      assert t.result.value[Constants.KeyAt(i)] == FirstLine(answer.history);
    }
  }

  /**
   * In any case the walk goes in plan order and can only be rejected by the
   * device's error reply (`Received (ERROR)`), after the query that got it.
   */
  lemma MetadataOrder(results: Option<map<string, Value>>, index: Option<int>, scripts: Script)
    ensures var t := CollectMetadata(results, index, scripts);
      && t.sent <= Queries(Plan(), StartIndex(index))
      && (t.result.Failure? ==> |t.sent| >= 1 && t.result.message == "Received (ERROR)")
  {
    PlanShape();
    WalkOrder(Plan(), results.GetOr(map[]), StartIndex(index), scripts);
  }

  /** An undefined or negative index walks from the start; an index past the plan returns `results` untouched. */
  lemma MetadataStartRule(results: Option<map<string, Value>>, index: Option<int>, scripts: Script)
    ensures index.None? || index.value < 0 ==> CollectMetadata(results, index, scripts) == CollectMetadata(results, None, scripts)
    ensures index.Some? && index.value >= WalkLength() ==>
            CollectMetadata(results, index, scripts) == Trace([], Success(results.GetOr(map[])))
  {
  }
}
