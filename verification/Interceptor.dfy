/**
 The I/O interceptor (runtime/src/deterministic/interceptor.rs): it sends reads and network
 calls to the replay engine, time queries to the clock, holds back writes, and lets the rest
 through; once deactivated it lets everything through.
 */
module Interceptor {
  import opened Prelude
  import Json
  import opened Snapshot
  import opened Replay
  import opened Clock

  datatype IoClass = ReadIo | WriteIo | NetworkIo | PureIo | TimeQueryIo

  function ClassifyTool(name: string): IoClass {
    if name == "bua_read_file" then ReadIo
    else if name == "bua_write_file" || name == "bua_delete_file" || name == "bua_mkdir" then WriteIo
    else if name == "bua_http_get" || name == "bua_http_post" || name == "bua_fetch" then NetworkIo
    else if name == "bua_time_now" then TimeQueryIo
    else PureIo
  }

  /** Calls answered from the recording. */
  predicate IsReplayed(call: Call) {
    ClassifyTool(call.tool).ReadIo? || ClassifyTool(call.tool).NetworkIo?
  }

  predicate IsTimeQuery(call: Call) {
    ClassifyTool(call.tool).TimeQueryIo?
  }

  /** Clock readings are handed out in milliseconds, as exact reals here. */
  datatype InterceptResult =
    | Replayed(value: Json.Value)
    | WriteSuppressed
    | ClockInjected(ms: real)
    | Passthrough

  datatype InterceptError = WriteNotAllowed(tool: string) | Diverged(divergence: DivergenceError)

  type Answer = Result<InterceptResult, InterceptError>

  function Milliseconds(us: Word64): real {
    us as real / 1000.0
  }

  /** A replay outcome, and a clock reading, as the interceptor hands them on. */
  function FromReplay(o: Outcome): Answer {
    match o
    case Success(v) => Success(Replayed(v))
    case Failure(d) => Failure(Diverged(d))
  }

  function FromClock(us: Word64): Answer {
    Success(ClockInjected(Milliseconds(us)))
  }

  datatype Config = Config(text: JsonText, strict: bool, silentWrites: bool)

  datatype State = State(engine: Engine, clock: ClockState, active: bool)

  datatype Event = Intercept(call: Call, wallUs: Word64) | Deactivate

  function Step(cfg: Config, s: State, e: Event): (State, Answer) {
    match e
    case Deactivate => (s.(active := false), Success(Passthrough))
    case Intercept(call, wallUs) =>
      if !s.active then (s, Success(Passthrough))
      else
        match ClassifyTool(call.tool)
        case PureIo => (s, Success(Passthrough))
        case TimeQueryIo =>
          var (clock, us) := Read(s.clock, wallUs);
          (s.(clock := clock), FromClock(us))
        case WriteIo =>
          (s, if cfg.silentWrites then Success(WriteSuppressed) else Failure(WriteNotAllowed(call.tool)))
        case _ =>
          var (engine, o) := StepEngine(cfg.text, cfg.strict, s.engine, call);
          (s.(engine := engine), FromReplay(o))
  }

  class IoInterceptor {
    const replay: ReplayEngine
    const clock: DeterministicClock
    const silentWrites: bool
    var active: bool

    constructor (replay: ReplayEngine, clock: DeterministicClock, silentWrites: bool)
      ensures this.replay == replay && this.clock == clock && this.silentWrites == silentWrites && active
    {
      this.replay, this.clock, this.silentWrites := replay, clock, silentWrites;
      active := true;
    }

    function Cfg(): Config {
      Config(replay.text, replay.strict, silentWrites)
    }

    function View(): State
      reads this, replay, clock
    {
      State(replay.State(), clock.State(), active)
    }

    method InterceptCall(toolName: string, args: Json.Value, wallUs: Word64) returns (r: Answer)
      modifies replay, clock
      ensures (View(), r) == Step(Cfg(), old(View()), Intercept(Call(toolName, args), wallUs))
    {
      if !active {
        return Success(Passthrough);
      }
      match ClassifyTool(toolName) {
        case PureIo => r := Success(Passthrough);
        case TimeQueryIo =>
          var us := clock.NowUs(wallUs);
          r := Success(ClockInjected(us as real / 1000.0));
        case WriteIo =>
          if silentWrites {
            r := Success(WriteSuppressed);
          } else {
            r := Failure(WriteNotAllowed(toolName));
          }
        case _ =>
          var o := replay.InterceptToolCall(toolName, args);
          match o {
            case Success(v) => r := Success(Replayed(v));
            case Failure(div) => r := Failure(Diverged(div));
          }
      }
    }

    method DeactivateNow()
      modifies this
      ensures View() == Step(Cfg(), old(View()), Deactivate).0
    {
      active := false;
    }
  }

  // ---------- Whole runs ----------

  function Run(cfg: Config, s: State, events: seq<Event>): State {
    if |events| == 0 then s
    else Step(cfg, Run(cfg, s, events[..|events| - 1]), events[|events| - 1]).0
  }

  /** What event number `i` of a run is answered. */
  function AnswerAt(cfg: Config, s: State, events: seq<Event>, i: nat): Answer
    requires i < |events|
  {
    Step(cfg, Run(cfg, s, events[..i]), events[i]).1
  }

  /** No event so far deactivates the interceptor. */
  predicate StillActive(events: seq<Event>) {
    forall i :: 0 <= i < |events| ==> events[i] != Deactivate
  }

  /** The calls of a run that are answered from the recording: those before any deactivation. */
  function ReplayCalls(events: seq<Event>): seq<Call> {
    if |events| == 0 then []
    else
      var n := |events| - 1;
      ReplayCalls(events[..n]) +
        if StillActive(events) && IsReplayed(events[n].call) then [events[n].call] else []
  }

  /** The wall-clock times of the time queries of a run, before any deactivation. */
  function TimeQueries(events: seq<Event>): seq<Word64> {
    if |events| == 0 then []
    else
      var n := |events| - 1;
      TimeQueries(events[..n]) +
        if StillActive(events) && IsTimeQuery(events[n].call) then [events[n].wallUs] else []
  }

  /** A step on an active interceptor moves the engine, the clock, the flag, or nothing. */
  lemma StepByClass(cfg: Config, s: State, e: Event)
    requires s.active
    ensures e.Deactivate? ==> Step(cfg, s, e).0 == s.(active := false)
    ensures e.Intercept? ==> Step(cfg, s, e).0 == State(
      if IsReplayed(e.call) then StepEngine(cfg.text, cfg.strict, s.engine, e.call).0 else s.engine,
      if IsTimeQuery(e.call) then Read(s.clock, e.wallUs).0 else s.clock,
      true)
  {
  }

  lemma RunEngineSnoc(t: JsonText, strict: bool, e: Engine, calls: seq<Call>, call: Call)
    ensures RunEngine(t, strict, e, calls + [call]) == StepEngine(t, strict, RunEngine(t, strict, e, calls), call).0
  {
    assert (calls + [call])[..|calls|] == calls;
  }

  lemma RunClockSnoc(c: ClockState, walls: seq<Word64>, wallUs: Word64)
    ensures RunClock(c, walls + [wallUs]) == Read(RunClock(c, walls), wallUs).0
  {
    assert (walls + [wallUs])[..|walls|] == walls;
  }

  lemma StillActiveSnoc(events: seq<Event>)
    requires |events| > 0
    ensures StillActive(events) <==> StillActive(events[..|events| - 1]) && events[|events| - 1] != Deactivate
  {
  }

  /**
   Any mixed run, with a deactivation anywhere, leaves the replay engine as if it had seen the
   reads and network calls alone, and the clock as if it had seen the time queries alone, both
   up to the deactivation.
   */
  lemma {:induction false} RunRefinesParts(cfg: Config, s: State, events: seq<Event>)
    requires s.active
    ensures Run(cfg, s, events) ==
      State(RunEngine(cfg.text, cfg.strict, s.engine, ReplayCalls(events)),
            RunClock(s.clock, TimeQueries(events)),
            StillActive(events))
  {
    if |events| > 0 {
      var n := |events| - 1;
      var before, last := events[..n], events[n];
      RunRefinesParts(cfg, s, before);
      StillActiveSnoc(events);
      var calls, walls := ReplayCalls(before), TimeQueries(before);
      assert calls + [] == calls && walls + [] == walls;
      if StillActive(before) {
        StepByClass(cfg, Run(cfg, s, before), last);
        if last.Intercept? {
          RunEngineSnoc(cfg.text, cfg.strict, s.engine, calls, last.call);
          RunClockSnoc(s.clock, walls, last.wallUs);
        }
      }
    }
  }

  /**
   The answer to each event of a run. The replayed calls get, in order, what the engine alone
   would return for them; the time queries get the clock's successive readings.
   */
  lemma AnswersRefineParts(cfg: Config, s: State, events: seq<Event>, i: nat)
    requires s.active && i < |events|
    ensures AnswerAt(cfg, s, events, i) ==
      if !StillActive(events[..i + 1]) then Success(Passthrough)
      else
        var call := events[i].call;
        if IsReplayed(call) then
          FromReplay(StepEngine(cfg.text, cfg.strict,
            RunEngine(cfg.text, cfg.strict, s.engine, ReplayCalls(events[..i])), call).1)
        else if IsTimeQuery(call) then
          FromClock(Read(RunClock(s.clock, TimeQueries(events[..i])), events[i].wallUs).1)
        else if ClassifyTool(call.tool).WriteIo? then
          if cfg.silentWrites then Success(WriteSuppressed) else Failure(WriteNotAllowed(call.tool))
        else Success(Passthrough)
  {
    RunRefinesParts(cfg, s, events[..i]);
    assert StillActive(events[..i + 1]) <==> StillActive(events[..i]) && events[i] != Deactivate;
  }

  /** Live I/O happens only for tools classed as pure, or after deactivation: no write gets out. */
  lemma OnlyPureCallsPass(cfg: Config, s: State, events: seq<Event>, i: nat)
    requires s.active && i < |events|
    ensures AnswerAt(cfg, s, events, i) == Success(Passthrough) <==>
      !StillActive(events[..i + 1]) || ClassifyTool(events[i].call.tool).PureIo?
  {
    AnswersRefineParts(cfg, s, events, i);
    assert events[..i + 1][i] == events[i];
  }

  const REPLAYED_TOOLS: set<string> := {"bua_read_file", "bua_http_get", "bua_http_post", "bua_fetch"}
  const WRITE_TOOLS: set<string> := {"bua_write_file", "bua_delete_file", "bua_mkdir"}
  const TIME_TOOL: string := "bua_time_now"

  /** The tools the classifier knows; every other name is classed as pure. */
  const LISTED_TOOLS: set<string> := REPLAYED_TOOLS + WRITE_TOOLS + {TIME_TOOL}

  lemma PureIffUnlisted(name: string)
    ensures ClassifyTool(name).PureIo? <==> name !in LISTED_TOOLS
  {
  }

  /** Event `i` of a run is a call that goes through to live execution. */
  predicate PassesAt(cfg: Config, s: State, events: seq<Event>, i: nat)
    requires i < |events|
  {
    events[i].Intercept? && AnswerAt(cfg, s, events, i) == Success(Passthrough)
  }

  /**
   A run lets no call through exactly when every call comes before any deactivation and has
   one of the eight listed names: that is when a replay is sure to leave the world alone.
   */
  lemma NothingPassesIff(cfg: Config, s: State, events: seq<Event>)
    requires s.active
    ensures (forall i: nat :: i < |events| ==> !PassesAt(cfg, s, events, i)) <==>
      forall i: nat :: i < |events| && events[i].Intercept? ==>
        StillActive(events[..i]) && events[i].call.tool in LISTED_TOOLS
  {
    forall i: nat | i < |events| && events[i].Intercept?
      ensures PassesAt(cfg, s, events, i) <==> !StillActive(events[..i]) || events[i].call.tool !in LISTED_TOOLS
    {
      OnlyPureCallsPass(cfg, s, events, i);
      PureIffUnlisted(events[i].call.tool);
      assert events[..i + 1][..i] == events[..i];
      StillActiveSnoc(events[..i + 1]);
    }
  }

  /** The documentation says that replay never changes anything: this tool, if registered, runs live. */
  lemma UnlistedWriterPasses(cfg: Config, s: State, args: Json.Value, wallUs: Word64)
    requires s.active
    ensures PassesAt(cfg, s, [Intercept(Call("bua_append_file", args), wallUs)], 0)
  {
    var events := [Intercept(Call("bua_append_file", args), wallUs)];
    OnlyPureCallsPass(cfg, s, events, 0);
  }

  // ---------- The same by tool name ----------

  lemma ClassOfName(name: string)
    ensures ClassifyTool(name).ReadIo? || ClassifyTool(name).NetworkIo? <==> name in REPLAYED_TOOLS
    ensures ClassifyTool(name).WriteIo? <==> name in WRITE_TOOLS
    ensures ClassifyTool(name).TimeQueryIo? <==> name == TIME_TOOL
  {
  }

  predicate IsAnswerOfRecording(a: Answer) {
    match a
    case Success(r) => r.Replayed?
    case Failure(e) => e.Diverged?
  }

  predicate IsHeldBack(a: Answer) {
    match a
    case Success(r) => r.WriteSuppressed?
    case Failure(e) => e.WriteNotAllowed?
  }

  predicate IsClockTime(a: Answer) {
    a.Success? && a.value.ClockInjected?
  }

  /**
   Before any deactivation the name of a tool decides what becomes of a call: four names are
   answered from the recording, three are held back and change nothing, one gets the clock.
   */
  lemma AnswerIsDecidedByName(cfg: Config, s: State, events: seq<Event>, i: nat)
    requires s.active && i < |events| && StillActive(events[..i + 1]) && events[i].Intercept?
    ensures var a, name := AnswerAt(cfg, s, events, i), events[i].call.tool;
      && (IsAnswerOfRecording(a) <==> name in REPLAYED_TOOLS)
      && (IsHeldBack(a) <==> name in WRITE_TOOLS)
      && (name in WRITE_TOOLS ==>
            a == if cfg.silentWrites then Success(WriteSuppressed) else Failure(WriteNotAllowed(name)))
      && (IsClockTime(a) <==> name == TIME_TOOL)
      && (name !in REPLAYED_TOOLS && name != TIME_TOOL ==> Run(cfg, s, events[..i + 1]) == Run(cfg, s, events[..i]))
  {
    AnswersRefineParts(cfg, s, events, i);
    ClassOfName(events[i].call.tool);
    RunRefinesParts(cfg, s, events[..i]);
    assert events[..i + 1][..i] == events[..i];
    StillActiveSnoc(events[..i + 1]);
  }

  /** The calls to tools with some names, up to the first deactivation. */
  function CallsNamed(names: set<string>, events: seq<Event>): seq<Call> {
    if |events| == 0 || events[0].Deactivate? then []
    else (if events[0].call.tool in names then [events[0].call] else []) + CallsNamed(names, events[1..])
  }

  lemma StillActiveTail(events: seq<Event>)
    requires |events| > 0
    ensures StillActive(events) <==> events[0] != Deactivate && StillActive(events[1..])
  {
    assert forall i :: 0 < i < |events| ==> events[i] == events[1..][i - 1];
  }

  /** The call of an event, if it has one of the names. */
  function NamedCall(names: set<string>, e: Event): seq<Call> {
    if e.Intercept? && e.call.tool in names then [e.call] else []
  }

  lemma {:induction false} CallsNamedSnoc(names: set<string>, events: seq<Event>)
    requires |events| > 0
    ensures CallsNamed(names, events) == CallsNamed(names, events[..|events| - 1])
      + if StillActive(events) then NamedCall(names, events[|events| - 1]) else []
  {
    var n := |events| - 1;
    StillActiveTail(events);
    if n > 0 && events[0].Intercept? {
      CallsNamedSnoc(names, events[1..]);
      assert events[..n][1..] == events[1..][..n - 1];
    }
  }

  lemma {:induction false} ReplayCallsAreNamed(events: seq<Event>)
    ensures ReplayCalls(events) == CallsNamed(REPLAYED_TOOLS, events)
  {
    if |events| > 0 {
      var n := |events| - 1;
      ReplayCallsAreNamed(events[..n]);
      CallsNamedSnoc(REPLAYED_TOOLS, events);
      StillActiveSnoc(events);
      if events[n].Intercept? {
        ClassOfName(events[n].call.tool);
      }
    }
  }

  /**
   The recording is used up by the calls with the four replayed names, and by no others: after
   any run the engine is where those calls alone, in order, take it.
   */
  lemma RecordingIsConsumedByName(cfg: Config, log: seq<ToolCallRecord>, clock: ClockState, events: seq<Event>)
    ensures var calls := CallsNamed(REPLAYED_TOOLS, events);
      var engine := Run(cfg, State(Fresh(log), clock, true), events).engine;
      && engine.recorded == (if |calls| <= |log| then log[|calls|..] else [])
      && engine.divergences == DivergencesAt(cfg.text, log, calls, DivergentPositions(cfg.text, log, calls, |calls|))
  {
    var calls := CallsNamed(REPLAYED_TOOLS, events);
    RunRefinesParts(cfg, State(Fresh(log), clock, true), events);
    ReplayCallsAreNamed(events);
    assert calls[..|calls|] == calls;
    RunState(cfg.text, cfg.strict, log, calls, |calls|);
  }

  /**
   The k-th replayed call of a run on a fresh engine gets the k-th recorded result, or its own
   divergence, whatever came between.
   */
  lemma ReplayedCallGets(cfg: Config, log: seq<ToolCallRecord>, clock: ClockState, events: seq<Event>, i: nat)
    requires i < |events| && StillActive(events[..i + 1]) && events[i].Intercept?
    requires events[i].call.tool in REPLAYED_TOOLS
    ensures
      var k, calls := |CallsNamed(REPLAYED_TOOLS, events[..i])|, CallsNamed(REPLAYED_TOOLS, events[..i + 1]);
      && |calls| == k + 1 && calls[k] == events[i].call
      && AnswerAt(cfg, State(Fresh(log), clock, true), events, i) ==
        if k >= |log| || (cfg.strict && Diverges(cfg.text, log, calls, k)) then
          Failure(Diverged(DivergenceAt(cfg.text, log, calls, k)))
        else Success(Replayed(cfg.text.ParseOrNull(log[k].resultJson)))
  {
    var k, calls := |ReplayCalls(events[..i])|, ReplayCalls(events[..i + 1]);
    ReplayCallsAreNamed(events[..i]);
    ReplayCallsAreNamed(events[..i + 1]);
    ClassOfName(events[i].call.tool);
    assert events[..i + 1][..i] == events[..i];
    assert calls == ReplayCalls(events[..i]) + [events[i].call] && calls[..k] == ReplayCalls(events[..i]);
    AnswersRefineParts(cfg, State(Fresh(log), clock, true), events, i);
    RunReturns(cfg.text, cfg.strict, log, calls, k);
  }

  lemma {:induction false} TimeQueriesAreNamed(events: seq<Event>)
    ensures |TimeQueries(events)| == |CallsNamed({TIME_TOOL}, events)|
  {
    if |events| > 0 {
      var n := |events| - 1;
      TimeQueriesAreNamed(events[..n]);
      CallsNamedSnoc({TIME_TOOL}, events);
      StillActiveSnoc(events);
      if events[n].Intercept? {
        ClassOfName(events[n].call.tool);
      }
    }
  }

  /** The answer gives this clock reading, in milliseconds. */
  predicate TellsTime(a: Answer, us: Word64) {
    a.Success? && a.value.ClockInjected? && a.value.ms * 1000.0 == us as real
  }

  lemma FromClockTellsTime(us: Word64)
    ensures TellsTime(FromClock(us), us)
  {
  }

  lemma TimeQueryReads(cfg: Config, s: State, events: seq<Event>, i: nat)
    requires s.active && i < |events| && StillActive(events[..i + 1]) && events[i].Intercept?
    requires events[i].call.tool == TIME_TOOL
    ensures AnswerAt(cfg, s, events, i) == FromClock(Read(RunClock(s.clock, TimeQueries(events[..i])), events[i].wallUs).1)
  {
    ClassOfName(events[i].call.tool);
    AnswersRefineParts(cfg, s, events, i);
  }

  /** The k-th time query on a stepping clock reads the start plus k steps. */
  lemma TimeQueryGets(cfg: Config, engine: Engine, start: Word64, step: Word64, count: Word64, events: seq<Event>, i: nat)
    requires i < |events| && StillActive(events[..i + 1]) && events[i].Intercept?
    requires events[i].call.tool == TIME_TOOL
    ensures AnswerAt(cfg, State(engine, ClockState(Stepping(step), start, count), true), events, i)
         == FromClock(Plus(start, |CallsNamed({TIME_TOOL}, events[..i])| * step))
  {
    var clock := ClockState(Stepping(step), start, count);
    TimeQueriesAreNamed(events[..i]);
    SteppingReadsNext(start, step, count, TimeQueries(events[..i]), |CallsNamed({TIME_TOOL}, events[..i])|, events[i].wallUs);
    TimeQueryReads(cfg, State(engine, clock, true), events, i);
  }

  /** A whole intercepted run replays cleanly exactly when its reads and network calls reproduce the recording. */
  lemma CleanRunIff(cfg: Config, log: seq<ToolCallRecord>, clock: ClockState, events: seq<Event>)
    ensures var e := Run(cfg, State(Fresh(log), clock, true), events).engine;
      e.divergences == [] && e.recorded == [] <==> Reproduces(cfg.text, log, CallsNamed(REPLAYED_TOOLS, events))
  {
    RunRefinesParts(cfg, State(Fresh(log), clock, true), events);
    ReplayCallsAreNamed(events);
    CleanIffReproduces(cfg.text, cfg.strict, log, ReplayCalls(events));
  }
}
