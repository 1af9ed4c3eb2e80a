/**
 The replay engine (runtime/src/deterministic/replay.rs): it serves recorded tool results in
 order and notes every call that differs from the recording.
 */
module Replay {
  import opened Prelude
  import Json
  import opened Snapshot

  /** How JSON values are printed and parsed; parsed objects have distinct keys. */
  datatype JsonText = JsonText(render: Json.Value -> string, parse: string -> Option<Json.Value>) {
    /** Text that does not parse counts as null. */
    function ParseOrNull(s: string): Json.Value {
      match parse(s)
      case Some(v) => v
      case None => Json.Null
    }
  }

  datatype DivergenceError = DivergenceError(
    atSequence: nat, expectedTool: string, actualTool: string, expectedArgs: string, actualArgs: string)

  datatype ReplayResult = ReplayResult(
    callsReplayed: nat, divergences: seq<DivergenceError>, traceEventsMatched: nat, deterministic: bool)
  {
    predicate IsClean() {
      divergences == [] && deterministic
    }
  }

  datatype Call = Call(tool: string, args: Json.Value)

  type Outcome = Result<Json.Value, DivergenceError>

  function Decimal(n: nat): string {
    (if n < 10 then [] else Decimal(n / 10)) + [['0', '1', '2', '3', '4', '5', '6', '7', '8', '9'][n % 10]]
  }

  // ---------- The engine, call by call ----------

  /** The engine's mutable state; the sequence counter is 64 bits wide and wraps. */
  datatype Engine = Engine(recorded: seq<ToolCallRecord>, divergences: seq<DivergenceError>, sequence: nat)

  function Fresh(log: seq<ToolCallRecord>): Engine {
    Engine(log, [], 0)
  }

  predicate Matches(t: JsonText, record: ToolCallRecord, call: Call) {
    record.name == call.tool && Json.JsonEquivalent(t.ParseOrNull(record.argsJson), call.args)
  }

  function ExtraCall(t: JsonText, at: nat, call: Call): DivergenceError {
    DivergenceError(at, "<end of recording>", call.tool, "", t.render(call.args))
  }

  function Mismatch(t: JsonText, at: nat, record: ToolCallRecord, call: Call): DivergenceError {
    DivergenceError(at, record.name, call.tool, record.argsJson, t.render(call.args))
  }

  function StepEngine(t: JsonText, strict: bool, e: Engine, call: Call): (Engine, Outcome) {
    var next := (e.sequence + 1) % U64;
    if |e.recorded| == 0 then
      var div := ExtraCall(t, e.sequence, call);
      (Engine([], e.divergences + [div], next), Failure(div))
    else
      var record, rest := e.recorded[0], e.recorded[1..];
      var served := Success(t.ParseOrNull(record.resultJson));
      if Matches(t, record, call) then (Engine(rest, e.divergences, next), served)
      else
        var div := Mismatch(t, e.sequence, record, call);
        (Engine(rest, e.divergences + [div], next), if strict then Failure(div) else served)
  }

  /** The engine after a run of calls. */
  function RunEngine(t: JsonText, strict: bool, e: Engine, calls: seq<Call>): Engine {
    if |calls| == 0 then e
    else StepEngine(t, strict, RunEngine(t, strict, e, calls[..|calls| - 1]), calls[|calls| - 1]).0
  }

  /** What the calls of a run return, in order. */
  function RunOutcomes(t: JsonText, strict: bool, e: Engine, calls: seq<Call>): (os: seq<Outcome>)
    ensures |os| == |calls|
  {
    if |calls| == 0 then []
    else
      var n := |calls| - 1;
      RunOutcomes(t, strict, e, calls[..n])
        + [StepEngine(t, strict, RunEngine(t, strict, e, calls[..n]), calls[n]).1]
  }

  class ReplayEngine {
    const text: JsonText
    const strict: bool
    var recordedCalls: seq<ToolCallRecord>
    var divergences: seq<DivergenceError>
    var sequence: nat

    function State(): Engine
      reads this
    {
      Engine(recordedCalls, divergences, sequence)
    }

    /** An engine over a snapshot's tool log; without a tool stratum the log is empty. */
    constructor FromSnapshot(text: JsonText, snap: LayeredSnapshot, strict: bool)
      ensures this.text == text && this.strict == strict
      ensures State() == Fresh(if snap.tool.Some? then snap.tool.value.callLog else [])
    {
      this.text := text;
      this.strict := strict;
      recordedCalls := if snap.tool.Some? then snap.tool.value.callLog else [];
      divergences := [];
      sequence := 0;
    }

    method InterceptToolCall(toolName: string, args: Json.Value) returns (r: Outcome)
      modifies this
      ensures (State(), r) == StepEngine(text, strict, old(State()), Call(toolName, args))
    {
      var seqNo := sequence;
      sequence := (sequence + 1) % U64;
      var argsStr := text.render(args);
      if |recordedCalls| == 0 {
        var div := DivergenceError(seqNo, "<end of recording>", toolName, "", argsStr);
        divergences := divergences + [div];
        return Failure(div);
      }
      var record := recordedCalls[0];
      recordedCalls := recordedCalls[1..];
      var nameMatch := record.name == toolName;
      var argsMatch := Json.JsonEquivalent(text.ParseOrNull(record.argsJson), args);
      if !nameMatch || !argsMatch {
        var div := DivergenceError(seqNo, record.name, toolName, record.argsJson, argsStr);
        divergences := divergences + [div];
        if strict {
          return Failure(div);
        }
      }
      r := Success(text.ParseOrNull(record.resultJson));
    }

    function VerifyComplete(): (r: Option<DivergenceError>)
      reads this
      ensures r.None? <==> recordedCalls == []
      ensures r.Some? ==> r.value == DivergenceError(
        sequence, Decimal(|recordedCalls|) + " more calls expected", "<end of execution>", "", "")
    {
      if |recordedCalls| > 0 then
        Some(DivergenceError(sequence, Decimal(|recordedCalls|) + " more calls expected", "<end of execution>", "", ""))
      else None
    }

    function ReplayedResult(): (r: ReplayResult)
      reads this
      ensures r.IsClean() <==> divergences == []
      ensures r.divergences == divergences && r.callsReplayed == sequence == r.traceEventsMatched
    {
      ReplayResult(sequence, divergences, sequence, divergences == [])
    }
  }

  // ---------- Whole runs ----------

  /** Call number `i` differs from the recording, or there is no recorded call for it. */
  predicate Diverges(t: JsonText, log: seq<ToolCallRecord>, calls: seq<Call>, i: nat)
    requires i < |calls|
  {
    i >= |log| || !Matches(t, log[i], calls[i])
  }

  function DivergenceAt(t: JsonText, log: seq<ToolCallRecord>, calls: seq<Call>, i: nat): DivergenceError
    requires i < |calls|
  {
    if i >= |log| then ExtraCall(t, i % U64, calls[i]) else Mismatch(t, i % U64, log[i], calls[i])
  }

  /** The positions among the first `k` calls at which the run diverges, in order. */
  function DivergentPositions(t: JsonText, log: seq<ToolCallRecord>, calls: seq<Call>, k: nat): (ps: seq<nat>)
    requires k <= |calls|
    ensures forall a :: 0 <= a < |ps| ==> ps[a] < k
  {
    if k == 0 then []
    else
      DivergentPositions(t, log, calls, k - 1) + if Diverges(t, log, calls, k - 1) then [k - 1] else []
  }

  /** The positions below `k` with the property, in increasing order. */
  ghost predicate ListsPositions(t: JsonText, log: seq<ToolCallRecord>, calls: seq<Call>, k: nat, ps: seq<nat>)
    requires k <= |calls|
  {
    && (forall p: nat :: p in ps <==> p < k && Diverges(t, log, calls, p))
    && (forall a, b :: 0 <= a < b < |ps| ==> ps[a] < ps[b])
  }

  lemma ListOneMore(t: JsonText, log: seq<ToolCallRecord>, calls: seq<Call>, k: nat, ps: seq<nat>)
    requires k < |calls| && ListsPositions(t, log, calls, k, ps)
    ensures ListsPositions(t, log, calls, k + 1, ps + if Diverges(t, log, calls, k) then [k] else [])
  {
    if Diverges(t, log, calls, k) {
      var all := ps + [k];
      forall a, b | 0 <= a < b < |all| ensures all[a] < all[b] {
        assert all[a] in ps;
      }
    }
  }

  lemma {:induction false} PositionsAreExact(t: JsonText, log: seq<ToolCallRecord>, calls: seq<Call>, k: nat)
    requires k <= |calls|
    ensures ListsPositions(t, log, calls, k, DivergentPositions(t, log, calls, k))
  {
    if k > 0 {
      PositionsAreExact(t, log, calls, k - 1);
      ListOneMore(t, log, calls, k - 1, DivergentPositions(t, log, calls, k - 1));
    }
  }

  /** One divergence for each of the given positions, in that order. */
  function DivergencesAt(t: JsonText, log: seq<ToolCallRecord>, calls: seq<Call>, ps: seq<nat>): (ds: seq<DivergenceError>)
    requires forall a :: 0 <= a < |ps| ==> ps[a] < |calls|
    ensures |ds| == |ps|
  {
    seq(|ps|, a requires 0 <= a < |ps| => DivergenceAt(t, log, calls, ps[a]))
  }

  /** The engine's state after `k` calls: how much is left and what has been noted. */
  function ExpectedState(t: JsonText, log: seq<ToolCallRecord>, calls: seq<Call>, k: nat): Engine
    requires k <= |calls|
  {
    Engine(if k <= |log| then log[k..] else [],
           DivergencesAt(t, log, calls, DivergentPositions(t, log, calls, k)), k % U64)
  }

  /** One more call appends its divergence, if it has one. */
  lemma DivergencesGrow(t: JsonText, log: seq<ToolCallRecord>, calls: seq<Call>, k: nat)
    requires k < |calls|
    ensures DivergencesAt(t, log, calls, DivergentPositions(t, log, calls, k + 1))
         == DivergencesAt(t, log, calls, DivergentPositions(t, log, calls, k))
          + if Diverges(t, log, calls, k) then [DivergenceAt(t, log, calls, k)] else []
  {
  }

  lemma NextSequence(k: nat)
    ensures (k % U64 + 1) % U64 == (k + 1) % U64
  {
  }

  lemma ExpectedStep(t: JsonText, strict: bool, log: seq<ToolCallRecord>, calls: seq<Call>, k: nat)
    requires k < |calls|
    ensures StepEngine(t, strict, ExpectedState(t, log, calls, k), calls[k]).0 == ExpectedState(t, log, calls, k + 1)
  {
    DivergencesGrow(t, log, calls, k);
    NextSequence(k);
    if k < |log| {
      assert log[k..][0] == log[k] && log[k..][1..] == log[k + 1..];
    }
  }

  /**
   After `k` calls of a run on a fresh engine, strict or lax: the queue is the recording
   without its first `k` entries, and the divergence list has one entry for each divergent
   call so far, in call order.
   */
  lemma {:induction false} RunState(t: JsonText, strict: bool, log: seq<ToolCallRecord>, calls: seq<Call>, k: nat)
    requires k <= |calls|
    ensures RunEngine(t, strict, Fresh(log), calls[..k]) == ExpectedState(t, log, calls, k)
  {
    if k == 0 {
      assert ExpectedState(t, log, calls, 0) == Fresh(log);
    } else {
      RunState(t, strict, log, calls, k - 1);
      assert calls[..k][..k - 1] == calls[..k - 1];
      ExpectedStep(t, strict, log, calls, k - 1);
    }
  }

  /**
   What call `i` of a run returns: its own divergence, always if the recording is exhausted
   and in strict mode if the call differs; in every other case the `i`-th recorded result.
   */
  lemma {:induction false} RunReturns(t: JsonText, strict: bool, log: seq<ToolCallRecord>, calls: seq<Call>, i: nat)
    requires i < |calls|
    ensures RunOutcomes(t, strict, Fresh(log), calls)[i] ==
      if i >= |log| || (strict && Diverges(t, log, calls, i)) then Failure(DivergenceAt(t, log, calls, i))
      else Success(t.ParseOrNull(log[i].resultJson))
    decreases |calls|
  {
    var n := |calls| - 1;
    if i < n {
      RunReturns(t, strict, log, calls[..n], i);
    } else {
      RunState(t, strict, log, calls, n);
    }
  }

  /** The call of a record: same tool, and arguments that denote the same JSON value. */
  ghost predicate SameCall(t: JsonText, record: ToolCallRecord, call: Call) {
    && call.tool == record.name
    && Json.Denotation(call.args) == Json.Denotation(match t.parse(record.argsJson) case Some(v) => v case None => Json.Null)
  }

  /** What a divergence says: the record on the expected side, the call on the actual side, and its number. */
  lemma DivergenceSays(t: JsonText, log: seq<ToolCallRecord>, calls: seq<Call>, i: nat)
    requires i < |calls|
    ensures var d := DivergenceAt(t, log, calls, i);
      && d.actualTool == calls[i].tool && d.actualArgs == t.render(calls[i].args) && d.atSequence == i % U64
      && (i < |log| ==> d.expectedTool == log[i].name && d.expectedArgs == log[i].argsJson)
      && (i >= |log| ==> d.expectedTool == "<end of recording>" && d.expectedArgs == "")
  {
  }

  /**
   What call `i` of a run returns, in terms of the recording's text: the value its result parses
   as, null if it does not parse; or the divergence above.
   */
  lemma CallReturns(t: JsonText, strict: bool, log: seq<ToolCallRecord>, calls: seq<Call>, i: nat)
    requires i < |calls|
    ensures var o := RunOutcomes(t, strict, Fresh(log), calls)[i];
      && (o.Failure? <==> i >= |log| || (strict && !SameCall(t, log[i], calls[i])))
      && (o.Failure? ==> o.error == DivergenceAt(t, log, calls, i))
      && (o.Success? && t.parse(log[i].resultJson).Some? ==> o.value == t.parse(log[i].resultJson).value)
      && (o.Success? && t.parse(log[i].resultJson).None? ==> o.value == Json.Null)
  {
    RunReturns(t, strict, log, calls, i);
    if i < |log| {
      Json.EquivalentIffSameDenotation(t.ParseOrNull(log[i].argsJson), calls[i].args);
    }
  }

  /** Strict and lax mode note the same divergences. */
  lemma {:induction false} StrictnessOnlyAffectsReturns(t: JsonText, log: seq<ToolCallRecord>, calls: seq<Call>)
    ensures RunEngine(t, true, Fresh(log), calls) == RunEngine(t, false, Fresh(log), calls)
  {
    assert calls[..|calls|] == calls;
    RunState(t, true, log, calls, |calls|);
    RunState(t, false, log, calls, |calls|);
  }

  /** The calls are those of the recording: as many, and the same call at each position. */
  ghost predicate Reproduces(t: JsonText, log: seq<ToolCallRecord>, calls: seq<Call>) {
    |calls| == |log| && forall i: nat :: i < |calls| ==> SameCall(t, log[i], calls[i])
  }

  /**
   A run ends with a clean result and nothing left to expect exactly when its calls reproduce
   the recording position by position, arguments taken up to the order of object members.
   */
  lemma CleanIffReproduces(t: JsonText, strict: bool, log: seq<ToolCallRecord>, calls: seq<Call>)
    ensures var e := RunEngine(t, strict, Fresh(log), calls);
      e.divergences == [] && e.recorded == [] <==> Reproduces(t, log, calls)
  {
    var ps := DivergentPositions(t, log, calls, |calls|);
    assert calls[..|calls|] == calls;
    RunState(t, strict, log, calls, |calls|);
    PositionsAreExact(t, log, calls, |calls|);
    assert ps == [] <==> forall i: nat :: i < |calls| ==> !Diverges(t, log, calls, i) by {
      assert |ps| > 0 ==> ps[0] in ps;
    }
    MatchingIsReproducing(t, log, calls);
  }

  lemma MatchingIsReproducing(t: JsonText, log: seq<ToolCallRecord>, calls: seq<Call>)
    ensures Reproduces(t, log, calls) <==>
      |calls| == |log| && forall i: nat :: i < |calls| ==> !Diverges(t, log, calls, i)
  {
    forall i: nat | i < |calls| && i < |log|
      ensures !Diverges(t, log, calls, i) <==> SameCall(t, log[i], calls[i])
    {
      Json.EquivalentIffSameDenotation(t.ParseOrNull(log[i].argsJson), calls[i].args);
    }
  }

  /** Replaying a recording's own calls, as the command line's verify mode does, is clean. */
  lemma SelfReplayIsClean(t: JsonText, strict: bool, log: seq<ToolCallRecord>)
    ensures
      var calls := seq(|log|, i requires 0 <= i < |log| => Call(log[i].name, t.ParseOrNull(log[i].argsJson)));
      var e := RunEngine(t, strict, Fresh(log), calls);
      e.divergences == [] && e.recorded == []
  {
    CleanIffReproduces(t, strict, log,
      seq(|log|, i requires 0 <= i < |log| => Call(log[i].name, t.ParseOrNull(log[i].argsJson))));
  }
}
