/** The bench driver's erase gate (apps/bench/bench_driver.cpp): a plan check before anything runs,
    and a run-time state machine that every step of a batch or a script advances. */
module BenchGate {
  import opened Results

  datatype CommandId =
    | Ports | Connect | Read | Dump | CrcCheck | Send | SendRaw | Unlock | Erase | Download | UploadRoutine

  predicate Destructive(id: CommandId) {
    id.Send? || id.SendRaw? || id.Unlock? || id.Erase? || id.Download? || id.UploadRoutine?
  }

  datatype RawStep = Step(id: CommandId, providesEraseHelper: bool, providesWriteHelper: bool)

  /** A prepared step: only an upload of one of the built-in routines is a helper, of one kind. */
  type PreparedStep = s: RawStep |
      && (s.providesEraseHelper || s.providesWriteHelper ==> s.id.UploadRoutine?)
      && !(s.providesEraseHelper && s.providesWriteHelper)
    witness Step(Ports, false, false)

  datatype EraseState = NeedsHelper | NeedsUnlock | Ready

  function Advance(state: EraseState, step: PreparedStep, ok: bool): EraseState {
    if !ok then NeedsHelper
    else if step.providesEraseHelper then NeedsUnlock
    else if step.providesWriteHelper then state
    else if step.id.Unlock? then (if state.NeedsUnlock? then Ready else NeedsHelper)
    else if Destructive(step.id) then NeedsHelper
    else state
  }

  // ---- What a session did -----------------------------------------------------------------

  /** One reported step. `sent` is false when the gate refused it; `code` is its exit code, 0 for
      success. */
  datatype Event = Event(step: PreparedStep, sent: bool, code: nat) {
    predicate Succeeded() {
      code == 0
    }
  }

  const INVALID_CONFIG: nat := 2

  function StateAfter(log: seq<Event>): EraseState {
    if log == [] then NeedsHelper
    else Advance(StateAfter(log[..|log| - 1]), log[|log| - 1].step, log[|log| - 1].Succeeded())
  }

  /** Successful, and not destructive unless it uploads a write helper. */
  predicate Quiet(event: Event) {
    event.Succeeded() && (event.step.providesWriteHelper || !Destructive(event.step.id))
  }

  predicate UploadsEraseHelper(event: Event) {
    event.Succeeded() && event.step.providesEraseHelper
  }

  predicate Unlocks(event: Event) {
    event.Succeeded() && event.step.id.Unlock?
  }

  /** An erase helper was uploaded at `h`, and only quiet steps followed. */
  predicate LoadedAt(log: seq<Event>, h: nat) {
    && h < |log| && UploadsEraseHelper(log[h])
    && forall k :: h < k < |log| ==> Quiet(log[k])
  }

  /** An erase helper was uploaded at `h`, the ECU unlocked at `u`, and only quiet steps came
      between them and since. */
  predicate ArmedAt(log: seq<Event>, h: nat, u: nat) {
    && h < u < |log| && UploadsEraseHelper(log[h]) && Unlocks(log[u])
    && forall k :: h < k < |log| && k != u ==> Quiet(log[k])
  }

  ghost predicate Loaded(log: seq<Event>) {
    exists h: nat :: LoadedAt(log, h)
  }

  ghost predicate Armed(log: seq<Event>) {
    exists h: nat, u: nat :: ArmedAt(log, h, u)
  }

  /** The gate's state says exactly what the session has done. */
  lemma {:induction false} StateMeaning(log: seq<Event>)
    ensures StateAfter(log).NeedsUnlock? <==> Loaded(log)
    ensures StateAfter(log).Ready? <==> Armed(log)
  {
    if log != [] {
      var n := |log| - 1;
      var before, event := log[..n], log[n];
      StateMeaning(before);
      LoadedStep(before, event);
      ArmedStep(before, event);
      assert before + [event] == log;
    }
  }

  lemma LoadedStep(before: seq<Event>, event: Event)
    ensures Loaded(before + [event]) <==> UploadsEraseHelper(event) || (Quiet(event) && Loaded(before))
  {
    var log := before + [event];
    assert forall k :: 0 <= k < |before| ==> log[k] == before[k];
    if Loaded(log) {
      var h: nat :| LoadedAt(log, h);
      if h < |before| {
        assert Quiet(log[|before|]);
        assert LoadedAt(before, h);
      }
    }
    if UploadsEraseHelper(event) {
      assert LoadedAt(log, |before|);
    } else if Quiet(event) && Loaded(before) {
      var h: nat :| LoadedAt(before, h);
      assert LoadedAt(log, h);
    }
  }

  lemma ArmedStep(before: seq<Event>, event: Event)
    ensures Armed(before + [event]) <==> (Unlocks(event) && Loaded(before)) || (Quiet(event) && Armed(before))
  {
    var log := before + [event];
    assert forall k :: 0 <= k < |before| ==> log[k] == before[k];
    if Armed(log) {
      var h: nat, u: nat :| ArmedAt(log, h, u);
      if u == |before| {
        assert LoadedAt(before, h);
      } else {
        assert Quiet(log[|before|]);
        assert ArmedAt(before, h, u);
      }
    }
    if Unlocks(event) && Loaded(before) {
      var h: nat :| LoadedAt(before, h);
      assert ArmedAt(log, h, |before|);
    } else if Quiet(event) && Armed(before) {
      var h: nat, u: nat :| ArmedAt(before, h, u);
      assert ArmedAt(log, h, u);
    }
  }

  // ---- Safety -----------------------------------------------------------------------------

  /** Every erase that was sent found the gate ready; every one refused did not, and failed. */
  predicate Gated(log: seq<Event>) {
    forall i :: 0 <= i < |log| && log[i].step.id.Erase? ==>
      && (log[i].sent <==> StateAfter(log[..i]).Ready?)
      && (!log[i].sent ==> log[i].code == INVALID_CONFIG)
  }

  /** An erase is sent only after a built-in helper upload and then an unlock, both successful,
      with only successful non-destructive or write-helper steps since. */
  lemma SentOnlyWhenArmed(log: seq<Event>, i: nat)
    requires Gated(log) && i < |log| && log[i].step.id.Erase? && log[i].sent
    ensures Armed(log[..i])
  {
    StateMeaning(log[..i]);
  }

  /** Armed, told command by command: the helper upload, the unlock, and nothing else since the upload
      but successful listings, connects, reads, dumps, CRC checks and write-helper uploads. */
  lemma ArmedByCommand(log: seq<Event>)
    ensures Armed(log) <==>
            exists h: nat, u: nat ::
              && h < u < |log|
              && log[h].step.id.UploadRoutine? && log[h].step.providesEraseHelper && log[h].code == 0
              && log[u].step.id.Unlock? && log[u].code == 0
              && forall k :: h < k < |log| && k != u ==>
                   && log[k].code == 0
                   && (log[k].step.id in {Ports, Connect, Read, Dump, CrcCheck}
                       || (log[k].step.id.UploadRoutine? && log[k].step.providesWriteHelper))
  {
    forall k | 0 <= k < |log|
      ensures Quiet(log[k]) <==>
              && log[k].code == 0
              && (log[k].step.id in {Ports, Connect, Read, Dump, CrcCheck}
                  || (log[k].step.id.UploadRoutine? && log[k].step.providesWriteHelper))
    {
    }
    if Armed(log) {
      var h: nat, u: nat :| ArmedAt(log, h, u);
      assert h < u < |log|;
    }
    forall h: nat, u: nat
      | && h < u < |log|
        && log[h].step.id.UploadRoutine? && log[h].step.providesEraseHelper && log[h].code == 0
        && log[u].step.id.Unlock? && log[u].code == 0
        && forall k :: h < k < |log| && k != u ==>
             && log[k].code == 0
             && (log[k].step.id in {Ports, Connect, Read, Dump, CrcCheck}
                 || (log[k].step.id.UploadRoutine? && log[k].step.providesWriteHelper))
      ensures Armed(log)
    {
      assert ArmedAt(log, h, u);
    }
  }

  /** One arming allows one erase: between two erases sent there is a fresh upload and unlock. */
  lemma ArmedAfresh(log: seq<Event>, i: nat, j: nat) returns (h: nat, u: nat)
    requires Gated(log) && i < j < |log|
    requires log[i].step.id.Erase? && log[j].step.id.Erase? && log[i].sent && log[j].sent
    ensures i < h < u < j && UploadsEraseHelper(log[h]) && Unlocks(log[u])
  {
    SentOnlyWhenArmed(log, j);
    var before := log[..j];
    h, u :| ArmedAt(before, h, u);
    assert forall k :: 0 <= k < j ==> before[k] == log[k];
  }

  // ---- Plans ------------------------------------------------------------------------------

  /** The state a plan reaches if every step succeeds; `ports` is not a session step. */
  function PlanState(steps: seq<PreparedStep>): EraseState {
    if steps == [] then NeedsHelper
    else
      var before, last := PlanState(steps[..|steps| - 1]), steps[|steps| - 1];
      if last.id.Ports? then before else Advance(before, last, true)
  }

  predicate SawSessionStep(steps: seq<PreparedStep>) {
    exists k :: 0 <= k < |steps| && !steps[k].id.Ports?
  }

  predicate StepAcceptable(steps: seq<PreparedStep>, i: nat)
    requires i < |steps|
  {
    && (steps[i].id.Connect? ==> !SawSessionStep(steps[..i]))
    && (steps[i].id.Erase? ==> PlanState(steps[..i]).Ready?)
  }

  /** `connect` comes first among the session steps, and every erase is armed by its plan. */
  predicate PlanAcceptable(steps: seq<PreparedStep>) {
    forall i :: 0 <= i < |steps| ==> StepAcceptable(steps, i)
  }

  /** The plan check accepts exactly the acceptable plans, and names the first bad step. */
  method ValidateSessionPlan(steps: seq<PreparedStep>) returns (failure: Option<nat>)
    ensures failure.None? <==> PlanAcceptable(steps)
    ensures failure.Some? ==> && failure.value < |steps| && !StepAcceptable(steps, failure.value)
                              && forall i :: 0 <= i < failure.value ==> StepAcceptable(steps, i)
  {
    var sawSessionStep, sequence := false, NeedsHelper;
    for i := 0 to |steps|
      invariant sawSessionStep == SawSessionStep(steps[..i])
      invariant sequence == PlanState(steps[..i])
      invariant forall k :: 0 <= k < i ==> StepAcceptable(steps, k)
    {
      assert steps[..i + 1][..i] == steps[..i];
      PlanGrows(steps, i);
      var step := steps[i];
      if step.id.Ports? {
        continue;
      }
      if step.id.Connect? && sawSessionStep {
        assert !StepAcceptable(steps, i);
        return Some(i);
      }
      sawSessionStep := true;
      if step.id.Erase? && sequence != Ready {
        assert !StepAcceptable(steps, i);
        return Some(i);
      }
      sequence := Advance(sequence, step, true);
    }
    failure := None;
  }

  lemma PlanGrows(steps: seq<PreparedStep>, i: nat)
    requires i < |steps|
    ensures SawSessionStep(steps[..i + 1]) <==> SawSessionStep(steps[..i]) || !steps[i].id.Ports?
  {
    var longer := steps[..i + 1];
    if SawSessionStep(steps[..i]) {
      var k :| 0 <= k < i && !steps[..i][k].id.Ports?;
      assert !longer[k].id.Ports?;
    }
    if !steps[i].id.Ports? {
      assert !longer[i].id.Ports?;
    }
  }

  // ---- Running ----------------------------------------------------------------------------

  /** How the ECU answers a step that is sent, given everything reported so far: any answer. */
  type Device = (seq<Event>, PreparedStep) -> nat

  /** What a step is reported as: refused by the gate, or sent and answered. */
  function Reported(device: Device, state: EraseState, log: seq<Event>, step: PreparedStep): Event {
    if step.id.Erase? && !state.Ready? then Event(step, false, INVALID_CONFIG)
    else Event(step, true, device(log, step))
  }

  function Steps(log: seq<Event>): (steps: seq<PreparedStep>)
    ensures |steps| == |log|
    ensures forall i :: 0 <= i < |log| ==> steps[i] == log[i].step
  {
    if log == [] then [] else Steps(log[..|log| - 1]) + [log[|log| - 1].step]
  }

  /** The first failure's code among the events from `from` on; 0 when there is none. */
  function FirstCode(log: seq<Event>, from: nat): nat
    requires from <= |log|
    decreases |log| - from
  {
    if from == |log| then 0 else if log[from].code != 0 then log[from].code else FirstCode(log, from + 1)
  }

  lemma {:induction false} FirstCodeSnoc(log: seq<Event>, event: Event, from: nat)
    requires from <= |log|
    ensures FirstCode(log + [event], from) == if FirstCode(log, from) != 0 then FirstCode(log, from) else event.code
    decreases |log| - from
  {
    if from < |log| {
      FirstCodeSnoc(log, event, from + 1);
    }
  }

  /** The session every line of a run shares, with all it has reported. */
  class Session {
    var sequence: EraseState
    var log: seq<Event>

    ghost predicate Valid()
      reads this
    {
      sequence == StateAfter(log) && Gated(log)
    }

    constructor ()
      ensures Valid() && log == []
    {
      sequence := NeedsHelper;
      log := [];
    }

    method RunStep(device: Device, step: PreparedStep) returns (code: nat)
      requires Valid()
      modifies this
      ensures Valid()
      ensures log == old(log) + [Reported(device, old(sequence), old(log), step)]
      ensures code == Reported(device, old(sequence), old(log), step).code
      ensures log == old(log) + [if step.id.Erase? && !old(sequence).Ready? then Event(step, false, 2)
                                 else Event(step, true, device(old(log), step))]
    {
      var event: Event;
      if step.id.Erase? && sequence != Ready {
        event := Event(step, false, INVALID_CONFIG);
      } else {
        event := Event(step, true, device(log, step));
      }
      GatedSnoc(log, event);
      sequence := Advance(sequence, step, event.Succeeded());
      log := log + [event];
      code := event.code;
    }

    /** Runs steps in order, stopping at the first failure unless told to keep going. The code is
        the first failure's. */
    method RunSteps(device: Device, steps: seq<PreparedStep>, keepGoing: bool) returns (code: nat)
      requires Valid()
      modifies this
      ensures Valid()
      ensures |old(log)| <= |log| <= |old(log)| + |steps|
      ensures Steps(log) == Steps(old(log)) + steps[..|log| - |old(log)|]
      ensures log[..|old(log)|] == old(log)
      ensures code == FirstCode(log, |old(log)|)
      ensures code == 0 || keepGoing ==> |log| == |old(log)| + |steps|
    {
      hide StateAfter, Gated, FirstCode;
      ghost var before := log;
      code := 0;
      assert FirstCode(log, |log|) == 0 by {
        NoCode(log);
      }
      var i := 0;
      while i < |steps|
        invariant 0 <= i <= |steps| && Valid()
        invariant |log| == |before| + i && log[..|before|] == before
        invariant Steps(log) == Steps(before) + steps[..i]
        invariant code == FirstCode(log, |before|)
      {
        ghost var soFar := log;
        var stepCode := RunStep(device, steps[i]);
        FirstCodeSnoc(soFar, log[|soFar|], |before|);
        StepsSnoc(before, soFar, log[|soFar|], steps, i);
        i := i + 1;
        if stepCode != 0 {
          if code == 0 {
            code := stepCode;
          }
          if !keepGoing {
            break;
          }
        }
      }
    }
  }

  lemma NoCode(log: seq<Event>)
    ensures FirstCode(log, |log|) == 0
  {
  }

  lemma StepsSnoc(before: seq<Event>, log: seq<Event>, event: Event, steps: seq<PreparedStep>, i: nat)
    requires i < |steps| && event.step == steps[i] && |before| <= |log| && log[..|before|] == before
    requires Steps(log) == Steps(before) + steps[..i]
    ensures Steps(log + [event]) == Steps(before) + steps[..i + 1]
    ensures (log + [event])[..|before|] == before
  {
    hide Steps;
    assert steps[..i + 1] == steps[..i] + [steps[i]];
    assert Steps(log + [event]) == Steps(log) + [event.step];
  }

  lemma GatedSnoc(log: seq<Event>, event: Event)
    requires Gated(log)
    requires event.step.id.Erase? ==>
               && (event.sent <==> StateAfter(log).Ready?) && (!event.sent ==> event.code == INVALID_CONFIG)
    ensures Gated(log + [event])
    ensures StateAfter(log + [event]) == Advance(StateAfter(log), event.step, event.Succeeded())
  {
    var longer := log + [event];
    assert longer[..|log|] == log;
    forall i | 0 <= i < |longer| && longer[i].step.id.Erase?
      ensures longer[i].sent <==> StateAfter(longer[..i]).Ready?
      ensures !longer[i].sent ==> longer[i].code == INVALID_CONFIG
    {
      if i < |log| {
        assert longer[..i] == log[..i];
      }
    }
  }

  // ---- Scripts ----------------------------------------------------------------------------

  /** Lines a script's parser lets through: `ports` stands alone on its line. */
  predicate ParsedLine(line: seq<PreparedStep>) {
    line != [] && line[0].id.Ports? ==> |line| == 1
  }

  predicate PortsLine(line: seq<PreparedStep>) {
    line != [] && line[0].id.Ports?
  }

  function Joined(lines: seq<seq<PreparedStep>>): seq<PreparedStep> {
    if lines == [] then [] else Joined(lines[..|lines| - 1]) + lines[|lines| - 1]
  }

  /** The steps a script runs in its session, in order. */
  function SessionSteps(lines: seq<seq<PreparedStep>>): seq<PreparedStep> {
    if lines == [] then []
    else
      var before, last := SessionSteps(lines[..|lines| - 1]), lines[|lines| - 1];
      if PortsLine(last) then before else before + last
  }

  /** What running gives besides the session: whether it opens, and each ports line's code. */
  datatype Environment = Environment(device: Device, setupCode: nat, portsCode: nat -> nat)

  /** The log runs `steps` in order from the first, as far as it goes. */
  predicate RunsPrefix(log: seq<Event>, steps: seq<PreparedStep>) {
    |log| <= |steps| && Steps(log) == steps[..|log|]
  }

  /** How many session steps the lines before line `i` have. */
  function LineStart(lines: seq<seq<PreparedStep>>, i: nat): nat
    requires i <= |lines|
  {
    |SessionSteps(lines[..i])|
  }

  /** A line's code: what its ports listing gave, or its first failed step's. */
  function LineCode(environment: Environment, lines: seq<seq<PreparedStep>>, log: seq<Event>, i: nat): nat
    requires i < |lines|
  {
    if PortsLine(lines[i]) then environment.portsCode(i)
    else
      var from := LineStart(lines, i);
      var to := if LineStart(lines, i + 1) < |log| then LineStart(lines, i + 1) else |log|;
      if from <= to then FirstCode(log[..to], from) else 0
  }

  /** The code of the first line to fail among the first `n`; 0 when none does. */
  function FirstLineCode(environment: Environment, lines: seq<seq<PreparedStep>>, log: seq<Event>, n: nat): nat
    requires n <= |lines|
  {
    if n == 0 then 0
    else
      var before := FirstLineCode(environment, lines, log, n - 1);
      if before != 0 then before else LineCode(environment, lines, log, n - 1)
  }

  /** The run reaches a line that needs the session, and the session does not open. */
  ghost predicate SetupFails(environment: Environment, lines: seq<seq<PreparedStep>>, keepGoing: bool) {
    environment.setupCode != 0 && exists n :: FirstSessionLine(environment, lines, keepGoing, n)
  }

  ghost predicate FirstSessionLine(environment: Environment, lines: seq<seq<PreparedStep>>, keepGoing: bool, n: int) {
    && 0 <= n < |lines| && !PortsLine(lines[n])
    && forall j :: 0 <= j < n ==> PortsLine(lines[j]) && (keepGoing || environment.portsCode(j) == 0)
  }

  /** The code a script returns. */
  ghost function ScriptCode(environment: Environment, lines: seq<seq<PreparedStep>>, log: seq<Event>, keepGoing: bool): nat {
    if SetupFails(environment, lines, keepGoing) then environment.setupCode
    else FirstLineCode(environment, lines, log, |lines|)
  }

  /** Runs a script's lines in one session. Whatever fails, the session's log is gated and runs
      the plan's session steps in order without skipping one; it runs them all when the session
      opens and nothing fails or the run keeps going. A session that does not open ends the run with
      its own code, even after a line that failed; otherwise the code is the first failed line's. */
  method RunScriptLines(environment: Environment, lines: seq<seq<PreparedStep>>, keepGoing: bool)
    returns (session: Session, code: nat)
    ensures fresh(session) && session.Valid()
    ensures RunsPrefix(session.log, SessionSteps(lines))
    ensures code == 0 ==> FirstCode(session.log, 0) == 0
    ensures code == 0 || (keepGoing && environment.setupCode == 0) ==> |session.log| == |SessionSteps(lines)|
    ensures SetupFails(environment, lines, keepGoing) ==> session.log == []
    ensures code == ScriptCode(environment, lines, session.log, keepGoing)
  {
    hide StateAfter, Gated, FirstCode, Steps, FirstLineCode, LineCode, SessionSteps;
    session := new Session();
    code := 0;
    var isOpen := false;
    NoCode(session.log);
    NoLines(environment, lines, session.log);
    var i := 0;
    while i < |lines|
      invariant 0 <= i <= |lines| && fresh(session) && session.Valid()
      invariant Steps(session.log) == SessionSteps(lines[..i])
      invariant code == 0 ==> FirstCode(session.log, 0) == 0
      invariant code == FirstLineCode(environment, lines, session.log, i)
      invariant if isOpen then environment.setupCode == 0
                else session.log == [] && forall j :: 0 <= j < i ==> PortsLine(lines[j])
      invariant keepGoing || code == 0
    {
      var line, lineCode := lines[i], 0;
      NextLine(lines, i);
      SessionGrows(lines, i);
      SessionGrows(lines, i + 1);
      if PortsLine(line) {
        lineCode := environment.portsCode(i);
      } else {
        if !isOpen {
          if environment.setupCode != 0 {
            ZeroCodes(environment, lines, session.log, i);
            assert FirstSessionLine(environment, lines, keepGoing, i);
            return session, environment.setupCode;
          }
          isOpen := true;
        }
        ghost var before := session.log;
        lineCode := session.RunSteps(environment.device, line, keepGoing);
        FirstCodeSplit(before, session.log, 0);
        assert line[..|line|] == line;
        LinesDone(environment, lines, before, session.log, i);
      }
      LineReported(environment, lines, session.log, i, lineCode);
      i := i + 1;
      if code == 0 {
        code := lineCode;
      }
      if code != 0 && !keepGoing {
        CodeSticks(environment, lines, session.log, i, |lines|);
        return session, code;
      }
    }
    assert lines[..|lines|] == lines;
  }

  // ---- The first failure's code -----------------------------------------------------------

  /** The code of the first ports line to fail among the first `n` lines; 0 when none does. */
  function FirstPortsCode(environment: Environment, n: nat): nat {
    if n == 0 then 0
    else
      var before := FirstPortsCode(environment, n - 1);
      if before != 0 then before else environment.portsCode(n - 1)
  }

  /** The first line at or after `i` that needs the session; the line count when there is none. */
  function SessionLineFrom(lines: seq<seq<PreparedStep>>, i: nat): (n: nat)
    requires i <= |lines|
    ensures i <= n <= |lines| && (n < |lines| ==> !PortsLine(lines[n]))
    ensures forall j :: i <= j < n ==> PortsLine(lines[j])
    decreases |lines| - i
  {
    if i == |lines| || !PortsLine(lines[i]) then i else SessionLineFrom(lines, i + 1)
  }

  /** The first failure of a run, in the order things happen: ports lines up to the first session
      line, then the session's opening, then the lines. */
  ghost function FirstFailure(environment: Environment, lines: seq<seq<PreparedStep>>, log: seq<Event>, keepGoing: bool)
    : nat
  {
    if !SetupFails(environment, lines, keepGoing) then FirstLineCode(environment, lines, log, |lines|)
    else
      var ports := FirstPortsCode(environment, SessionLineFrom(lines, 0));
      if ports != 0 then ports else environment.setupCode
  }

  /** A script returns the first failure's code exactly when its session opens or is not reached, or
      no ports line failed before it, or the first that did failed with the session's own code. */
  lemma FirstFailureReturned(environment: Environment, lines: seq<seq<PreparedStep>>, log: seq<Event>, keepGoing: bool)
    ensures var ports := FirstPortsCode(environment, SessionLineFrom(lines, 0));
            ScriptCode(environment, lines, log, keepGoing) == FirstFailure(environment, lines, log, keepGoing) <==>
            !SetupFails(environment, lines, keepGoing) || ports == 0 || ports == environment.setupCode
    ensures SetupFails(environment, lines, keepGoing) <==>
            && environment.setupCode != 0 && SessionLineFrom(lines, 0) < |lines|
            && (keepGoing || FirstPortsCode(environment, SessionLineFrom(lines, 0)) == 0)
    ensures !SetupFails(environment, lines, keepGoing) && SessionLineFrom(lines, 0) == |lines| ==>
              FirstFailure(environment, lines, log, keepGoing) == FirstPortsCode(environment, |lines|)
  {
    var n := SessionLineFrom(lines, 0);
    PortsCodes(environment, lines, log, n);
    if SetupFails(environment, lines, keepGoing) {
      var k :| FirstSessionLine(environment, lines, keepGoing, k);
      assert k == n;
    }
    if environment.setupCode != 0 && n < |lines| && (keepGoing || FirstPortsCode(environment, n) == 0) {
      assert FirstSessionLine(environment, lines, keepGoing, n);
    }
  }

  /** While only ports lines have run, the line codes are theirs; they are all 0 when the first is. */
  lemma {:induction false} PortsCodes(environment: Environment, lines: seq<seq<PreparedStep>>, log: seq<Event>, n: nat)
    requires n <= |lines| && forall j :: 0 <= j < n ==> PortsLine(lines[j])
    ensures FirstLineCode(environment, lines, log, n) == FirstPortsCode(environment, n)
    ensures FirstPortsCode(environment, n) == 0 <==> forall j :: 0 <= j < n ==> environment.portsCode(j) == 0
  {
    if n > 0 {
      PortsCodes(environment, lines, log, n - 1);
    }
  }

  const PORTS_STEP: PreparedStep := Step(Ports, false, false)
  const READ_STEP: PreparedStep := Step(Read, false, false)

  /** A ports line that fails with 3 and then a session that does not open with 4: the script keeps
      going and returns 4. */
  lemma SetupHidesFailure(device: Device, log: seq<Event>)
    ensures var environment := Environment(device, 4, (_: nat) => 3);
            var lines := [[PORTS_STEP], [READ_STEP]];
            && PlanAcceptable(Joined(lines))
            && ScriptCode(environment, lines, log, true) == 4 && FirstFailure(environment, lines, log, true) == 3
  {
    var environment := Environment(device, 4, (_: nat) => 3);
    var lines := [[PORTS_STEP], [READ_STEP]];
    assert SessionLineFrom(lines, 0) == SessionLineFrom(lines, 1) == 1;
    FirstFailureReturned(environment, lines, log, true);
    assert FirstPortsCode(environment, 1) == 3;
    assert lines[..1] == [[PORTS_STEP]];
    assert Joined([[PORTS_STEP]]) == [PORTS_STEP];
    assert Joined(lines) == [PORTS_STEP, READ_STEP];
  }

  lemma NoLines(environment: Environment, lines: seq<seq<PreparedStep>>, log: seq<Event>)
    ensures FirstLineCode(environment, lines, log, 0) == 0
    ensures SessionSteps(lines[..0]) == []
  {
  }

  lemma NextLine(lines: seq<seq<PreparedStep>>, i: nat)
    requires i < |lines|
    ensures SessionSteps(lines[..i + 1]) == if PortsLine(lines[i]) then SessionSteps(lines[..i])
                                            else SessionSteps(lines[..i]) + lines[i]
  {
    assert lines[..i + 1][..i] == lines[..i];
  }

  /** A line's code, once the log has reached its end or stopped inside it. */
  lemma LineReported(environment: Environment, lines: seq<seq<PreparedStep>>, log: seq<Event>, i: nat, code: nat)
    requires i < |lines|
    requires if PortsLine(lines[i]) then code == environment.portsCode(i)
             else LineStart(lines, i) <= |log| <= LineStart(lines, i + 1) && code == FirstCode(log, LineStart(lines, i))
    ensures FirstLineCode(environment, lines, log, i + 1)
            == if FirstLineCode(environment, lines, log, i) != 0 then FirstLineCode(environment, lines, log, i) else code
  {
    hide FirstCode;
    assert log[..|log|] == log;
  }

  /** Running further lines keeps the codes of those that are done. */
  lemma {:induction false} LinesDone(environment: Environment, lines: seq<seq<PreparedStep>>, log: seq<Event>,
                                     log': seq<Event>, n: nat)
    requires n <= |lines| && LineStart(lines, n) <= |log| <= |log'| && log'[..|log|] == log
    ensures FirstLineCode(environment, lines, log, n) == FirstLineCode(environment, lines, log', n)
    decreases n
  {
    hide FirstCode;
    if n > 0 {
      NextLine(lines, n - 1);
      LinesDone(environment, lines, log, log', n - 1);
      var to := LineStart(lines, n);
      assert log'[..to] == log[..to] by {
        assert log'[..|log|][..to] == log'[..to];
      }
    }
  }

  lemma {:induction false} CodeSticks(environment: Environment, lines: seq<seq<PreparedStep>>, log: seq<Event>, n: nat,
                                      m: nat)
    requires n <= m <= |lines| && FirstLineCode(environment, lines, log, n) != 0
    ensures FirstLineCode(environment, lines, log, m) == FirstLineCode(environment, lines, log, n)
    decreases m
  {
    if n < m {
      CodeSticks(environment, lines, log, n, m - 1);
    }
  }

  lemma {:induction false} ZeroCodes(environment: Environment, lines: seq<seq<PreparedStep>>, log: seq<Event>, n: nat)
    requires n <= |lines|
    ensures FirstLineCode(environment, lines, log, n) == 0 ==>
              forall j :: 0 <= j < n ==> LineCode(environment, lines, log, j) == 0
    ensures FirstLineCode(environment, lines, log, n) == 0 ==>
              forall j :: 0 <= j < n && PortsLine(lines[j]) ==> environment.portsCode(j) == 0
  {
    if n > 0 {
      ZeroCodes(environment, lines, log, n - 1);
    }
  }

  lemma {:induction false} SessionGrows(lines: seq<seq<PreparedStep>>, i: nat)
    requires i <= |lines|
    ensures |SessionSteps(lines[..i])| <= |SessionSteps(lines)|
    ensures SessionSteps(lines)[..|SessionSteps(lines[..i])|] == SessionSteps(lines[..i])
  {
    if i == |lines| {
      assert lines[..i] == lines;
    } else {
      var front := lines[..|lines| - 1];
      assert front[..i] == lines[..i];
      SessionGrows(front, i);
    }
  }

  lemma {:induction false} FirstCodeSplit(before: seq<Event>, log: seq<Event>, from: nat)
    requires from <= |before| <= |log| && log[..|before|] == before
    ensures FirstCode(log, from)
            == if FirstCode(before, from) != 0 then FirstCode(before, from) else FirstCode(log, |before|)
    decreases |before| - from
  {
    if from < |before| {
      assert log[from] == log[..|before|][from];
      FirstCodeSplit(before, log, from + 1);
    }
  }

  // ---- The plan check is enough when nothing fails ----------------------------------------

  predicate ErasesArmed(steps: seq<PreparedStep>) {
    forall i :: 0 <= i < |steps| && steps[i].id.Erase? ==> PlanState(steps[..i]).Ready?
  }

  /** Two plans in the same state stay so over the same further steps. */
  lemma {:induction false} PlanStateAppend(a: seq<PreparedStep>, b: seq<PreparedStep>, steps: seq<PreparedStep>)
    requires PlanState(a) == PlanState(b)
    ensures PlanState(a + steps) == PlanState(b + steps)
  {
    if steps == [] {
      assert a + steps == a && b + steps == b;
    } else {
      var n := |steps| - 1;
      PlanStateAppend(a, b, steps[..n]);
      assert (a + steps)[..|a| + n] == a + steps[..n] && (b + steps)[..|b| + n] == b + steps[..n];
    }
  }

  /** Leaving out the ports lines changes neither the plan's state nor what arms its erases. */
  lemma {:induction false} SessionPlan(lines: seq<seq<PreparedStep>>)
    requires forall i :: 0 <= i < |lines| ==> ParsedLine(lines[i])
    requires ErasesArmed(Joined(lines))
    ensures PlanState(SessionSteps(lines)) == PlanState(Joined(lines))
    ensures ErasesArmed(SessionSteps(lines))
  {
    if lines != [] {
      var front, line := lines[..|lines| - 1], lines[|lines| - 1];
      var joined, session := Joined(front), SessionSteps(front);
      PrefixArmed(joined, line);
      SessionPlan(front);
      if PortsLine(line) {
        assert (joined + line)[..|joined|] == joined;
      } else {
        hide PlanState;
        PlanStateAppend(joined, session, line);
        LineArmed(joined, session, line);
      }
    }
  }

  /** A line's erases are armed after either of two plans in the same state. */
  lemma LineArmed(a: seq<PreparedStep>, b: seq<PreparedStep>, line: seq<PreparedStep>)
    requires PlanState(a) == PlanState(b) && ErasesArmed(a + line) && ErasesArmed(b)
    ensures ErasesArmed(b + line)
  {
    hide PlanState;
    forall i | 0 <= i < |b + line| && (b + line)[i].id.Erase?
      ensures PlanState((b + line)[..i]).Ready?
    {
      if i < |b| {
        assert (b + line)[..i] == b[..i];
      } else {
        var k := i - |b|;
        assert (a + line)[|a| + k].id.Erase?;
        assert (a + line)[..|a| + k] == a + line[..k];
        assert (b + line)[..i] == b + line[..k];
        PlanStateAppend(a, b, line[..k]);
      }
    }
  }

  lemma PrefixArmed(steps: seq<PreparedStep>, more: seq<PreparedStep>)
    requires ErasesArmed(steps + more)
    ensures ErasesArmed(steps)
  {
    forall i | 0 <= i < |steps| && steps[i].id.Erase?
      ensures PlanState(steps[..i]).Ready?
    {
      assert (steps + more)[i].id.Erase? && (steps + more)[..i] == steps[..i];
    }
  }

  /** A log of successes is in the state its plan predicts. */
  lemma {:induction false} SuccessesFollowPlan(log: seq<Event>)
    requires forall k :: 0 <= k < |log| ==> log[k].Succeeded()
    ensures StateAfter(log) == PlanState(Steps(log))
  {
    if log != [] {
      var n := |log| - 1;
      SuccessesFollowPlan(log[..n]);
      assert Steps(log)[..n] == Steps(log[..n]);
    }
  }

  /** A session in which every step of a plan was sent and succeeded. */
  function Successes(steps: seq<PreparedStep>): (log: seq<Event>)
    ensures |log| == |steps|
    ensures forall i :: 0 <= i < |steps| ==> log[i] == Event(steps[i], true, 0)
  {
    seq(|steps|, i requires 0 <= i < |steps| => Event(steps[i], true, 0))
  }

  lemma PlanStateOfSuccesses(steps: seq<PreparedStep>)
    ensures PlanState(steps).Ready? <==> Armed(Successes(steps))
  {
    hide StateAfter, PlanState, Armed;
    var log := Successes(steps);
    SuccessesFollowPlan(log);
    assert Steps(log) == steps;
    StateMeaning(log);
  }

  /** The plan arms an erase after its first `i` steps, command by command. */
  lemma PlanArmedByCommand(steps: seq<PreparedStep>, i: nat)
    requires i <= |steps|
    ensures PlanState(steps[..i]).Ready? <==>
            exists h: nat, u: nat ::
              && h < u < i
              && steps[h].id.UploadRoutine? && steps[h].providesEraseHelper && steps[u].id.Unlock?
              && forall k :: h < k < i && k != u ==>
                   || steps[k].id in {Ports, Connect, Read, Dump, CrcCheck}
                   || (steps[k].id.UploadRoutine? && steps[k].providesWriteHelper)
  {
    hide PlanState, Armed, StateAfter;
    var log := Successes(steps[..i]);
    PlanStateOfSuccesses(steps[..i]);
    ArmedByCommand(log);
    assert forall k :: 0 <= k < i ==> log[k].step == steps[k] && log[k].code == 0;
  }

  /** What the plan check asks of a step, command by command: a connect may only follow listings, and an
      erase needs a helper upload and then an unlock, with nothing else since the upload but listings,
      connects, reads, dumps, CRC checks and write-helper uploads. */
  lemma StepByCommand(steps: seq<PreparedStep>, i: nat)
    requires i < |steps|
    ensures StepAcceptable(steps, i) <==>
            && (steps[i].id.Connect? ==> forall k :: 0 <= k < i ==> steps[k].id.Ports?)
            && (steps[i].id.Erase? ==>
                  exists h: nat, u: nat ::
                    && h < u < i
                    && steps[h].id.UploadRoutine? && steps[h].providesEraseHelper && steps[u].id.Unlock?
                    && forall k :: h < k < i && k != u ==>
                         || steps[k].id in {Ports, Connect, Read, Dump, CrcCheck}
                         || (steps[k].id.UploadRoutine? && steps[k].providesWriteHelper))
  {
    hide PlanState;
    PlanArmedByCommand(steps, i);
    var before := steps[..i];
    assert forall k :: 0 <= k < i ==> before[k] == steps[k];
  }

  lemma AcceptableArmed(steps: seq<PreparedStep>)
    requires PlanAcceptable(steps)
    ensures ErasesArmed(steps)
  {
    hide PlanState, SawSessionStep;
    forall i | 0 <= i < |steps| && steps[i].id.Erase?
      ensures PlanState(steps[..i]).Ready?
    {
      assert StepAcceptable(steps, i);
    }
  }

  lemma ArmedIfNoFailure(log: seq<Event>, steps: seq<PreparedStep>, i: nat)
    requires RunsPrefix(log, steps) && ErasesArmed(steps)
    requires i < |log| && log[i].step.id.Erase?
    requires forall j :: 0 <= j < i ==> log[j].Succeeded()
    ensures StateAfter(log[..i]).Ready?
  {
    hide StateAfter, PlanState, Steps;
    SuccessesFollowPlan(log[..i]);
    assert Steps(log[..i]) == Steps(log)[..i] == steps[..i];
    assert steps[i] == steps[..|log|][i] == log[i].step;
  }

  /** In a run of an accepted plan, the gate refuses an erase only after a failed step. */
  lemma RefusedOnlyAfterFailure(lines: seq<seq<PreparedStep>>, log: seq<Event>, i: nat)
    requires forall k :: 0 <= k < |lines| ==> ParsedLine(lines[k])
    requires PlanAcceptable(Joined(lines)) && Gated(log) && RunsPrefix(log, SessionSteps(lines))
    requires i < |log| && log[i].step.id.Erase? && !log[i].sent
    ensures exists j :: 0 <= j < i && !log[j].Succeeded()
  {
    hide StateAfter, PlanState, Steps, RunsPrefix, Joined, SessionSteps;
    AcceptableArmed(Joined(lines));
    SessionPlan(lines);
    if forall j :: 0 <= j < i ==> log[j].Succeeded() {
      ArmedIfNoFailure(log, SessionSteps(lines), i);
    }
  }

  /** A script: nothing runs unless the whole plan is acceptable. Every erase sent was armed in
      this session, and none is refused unless an earlier step failed. */
  method RunScript(environment: Environment, lines: seq<seq<PreparedStep>>, keepGoing: bool)
    returns (log: seq<Event>, code: nat)
    requires forall k :: 0 <= k < |lines| && lines[k] != [] && lines[k][0].id.Ports? ==> |lines[k]| == 1
    ensures !PlanAcceptable(Joined(lines)) ==> log == [] && code == 2
    ensures PlanAcceptable(Joined(lines)) ==>
              && (SetupFails(environment, lines, keepGoing) ==> log == [])
              && code == ScriptCode(environment, lines, log, keepGoing)
    ensures RunsPrefix(log, SessionSteps(lines))
    ensures forall i :: 0 <= i < |log| && log[i].step.id.Erase? && log[i].sent ==> Armed(log[..i])
    ensures forall i :: 0 <= i < |log| && log[i].step.id.Erase? && !log[i].sent ==>
              exists j :: 0 <= j < i && !log[j].Succeeded()
  {
    hide StateAfter, PlanState, Joined, SessionSteps, Armed, ScriptCode, SetupFails;
    var failure := ValidateSessionPlan(Joined(lines));
    if failure.Some? {
      return [], INVALID_CONFIG;
    }
    var session;
    session, code := RunScriptLines(environment, lines, keepGoing);
    log := session.log;
    forall i | 0 <= i < |log| && log[i].step.id.Erase? && log[i].sent
      ensures Armed(log[..i])
    {
      SentOnlyWhenArmed(log, i);
    }
    forall i | 0 <= i < |log| && log[i].step.id.Erase? && !log[i].sent
      ensures exists j :: 0 <= j < i && !log[j].Succeeded()
    {
      RefusedOnlyAfterFailure(lines, log, i);
    }
  }

  /** A batch: one line of steps in a session of its own, under the same promises. */
  method RunBatch(environment: Environment, steps: seq<PreparedStep>, keepGoing: bool)
    returns (log: seq<Event>, code: nat)
    ensures !PlanAcceptable(steps) ==> log == [] && code == 2
    ensures RunsPrefix(log, steps)
    ensures PlanAcceptable(steps) ==>
              code == if environment.setupCode != 0 then environment.setupCode else FirstCode(log, 0)
    ensures code == 0 || (keepGoing && environment.setupCode == 0 && PlanAcceptable(steps)) ==> |log| == |steps|
    ensures forall i :: 0 <= i < |log| && log[i].step.id.Erase? && log[i].sent ==> Armed(log[..i])
    ensures forall i :: 0 <= i < |log| && log[i].step.id.Erase? && !log[i].sent ==>
              exists j :: 0 <= j < i && !log[j].Succeeded()
  {
    hide StateAfter, PlanState, Armed;
    var failure := ValidateSessionPlan(steps);
    if failure.Some? {
      return [], INVALID_CONFIG;
    }
    if environment.setupCode != 0 {
      return [], environment.setupCode;
    }
    var session := new Session();
    code := session.RunSteps(environment.device, steps, keepGoing);
    log := session.log;
    AcceptableArmed(steps);
    forall i | 0 <= i < |log| && log[i].step.id.Erase? && log[i].sent
      ensures Armed(log[..i])
    {
      SentOnlyWhenArmed(log, i);
    }
    forall i | 0 <= i < |log| && log[i].step.id.Erase? && !log[i].sent
      ensures exists j :: 0 <= j < i && !log[j].Succeeded()
    {
      if forall j :: 0 <= j < i ==> log[j].Succeeded() {
        ArmedIfNoFailure(log, steps, i);
      }
    }
  }
}
