/** The mailbox between the two processors: `invokeArm11Function` on one side, the polling loop of the
    ARM11 `main` on the other, as a state machine over their single memory accesses. */
module Mailbox {
  import opened Bytes

  datatype Op = InitScreens | SetupFramebuffers | ClearScreens | SwapFramebuffers | UpdateBrightness
              | DeinitScreens | ZerofillRegisters | PrepareForFirmlaunch

  /** The shared word: ARM11_READY, an operation, or a value that is neither. */
  datatype Mail = Ready | Request(op: Op) | Unknown

  /** Words of the parameter block an operation takes. */
  function WordsOf(op: Op): nat {
    match op
    case InitScreens => 7
    case SetupFramebuffers => 6
    case ClearScreens => 3
    case SwapFramebuffers => 1
    case UpdateBrightness => 1
    case _ => 0
  }

  const PARAMETER_WORDS := 7

  /** One invocation: the parameters its caller stores, and the operation. */
  datatype Call = Call(op: Op, args: seq<u32>)

  predicate WellFormed(calls: seq<Call>) {
    forall i :: 0 <= i < |calls| ==> |calls[i].args| == WordsOf(calls[i].op)
  }

  /** Where ARM9 stands in its current invocation: storing parameter `j`, waiting for ARM11, about to
      store the operation, or waiting for the answer. */
  datatype Arm9 = Writing(j: nat) | FirstWait | Storing | SecondWait

  /** Where ARM11 stands: before its first store, polling, reading parameters, about to answer, about to
      answer for the last time, or gone. */
  datatype Arm11 = Boot | Poll | Fetch(op: Op, got: seq<u32>) | Ack | Leave | Gone

  /** The shared memory, both program counters, and what has been invoked, executed and returned. */
  datatype State = State(box: Mail, params: seq<u32>, arm9: Arm9, arm11: Arm11,
                         invoked: seq<Call>, executed: seq<Call>, returned: nat)

  ghost predicate Init(s: State) {
    && |s.params| == PARAMETER_WORDS && s.arm9 == Writing(0) && s.arm11 == Boot
    && s.invoked == [] && s.executed == [] && s.returned == 0
  }

  /** A step of ARM9 on the `returned`-th call. */
  ghost predicate Arm9Step(calls: seq<Call>, s: State, s': State) {
    s.returned < |calls| &&
    var c := calls[s.returned];
    match s.arm9
    case Writing(j) =>
      if j < |c.args| then
        j < |s.params| && s' == s.(params := s.params[j := c.args[j]], arm9 := Writing(j + 1))
      else s' == s.(arm9 := FirstWait)
    case FirstWait => s.box == Ready && s' == s.(arm9 := Storing)
    case Storing => s' == s.(box := Request(c.op), invoked := s.invoked + [c], arm9 := SecondWait)
    case SecondWait => s.box == Ready && s' == s.(returned := s.returned + 1, arm9 := Writing(0))
  }

  /** A step of ARM11. Polling a ready mailbox changes nothing; an unknown value is only answered. */
  ghost predicate Arm11Step(s: State, s': State) {
    match s.arm11
    case Boot => s' == s.(box := Ready, arm11 := Poll)
    case Poll =>
      (match s.box
       case Ready => false
       case Request(op) => s' == s.(arm11 := Fetch(op, []))
       case Unknown => s' == s.(arm11 := Ack))
    case Fetch(op, got) =>
      if |got| < WordsOf(op) then
        |got| < |s.params| && s' == s.(arm11 := Fetch(op, got + [s.params[|got|]]))
      else
        s' == s.(executed := s.executed + [Call(op, got)], arm11 := if op == PrepareForFirmlaunch then Leave else Ack)
    case Ack => s' == s.(box := Ready, arm11 := Poll)
    case Leave => s' == s.(box := Ready, arm11 := Gone)
    case Gone => false
  }

  ghost predicate Step(calls: seq<Call>, s: State, s': State) {
    Arm9Step(calls, s, s') || Arm11Step(s, s')
  }

  ghost predicate StepAt(calls: seq<Call>, run: seq<State>, i: nat)
    requires i + 1 < |run|
  {
    Step(calls, run[i], run[i + 1])
  }

  /** A run of the two processors in any interleaving (idle polling left out). */
  ghost predicate Run(calls: seq<Call>, run: seq<State>) {
    |run| > 0 && Init(run[0]) && forall i :: 0 <= i < |run| - 1 ==> StepAt(calls, run, i)
  }

  /** What is promised: operations run in the order they were invoked, each once and with the parameters
      of its own invocation, and no invocation has returned before its operation ran. */
  ghost predicate Safe(calls: seq<Call>, s: State) {
    && s.executed <= s.invoked <= calls
    && |s.invoked| <= |s.executed| + 1
    && s.returned <= |s.executed|
  }

  /** The invariant behind it: who may touch the mailbox and the parameters at each moment. */
  ghost predicate Inv(calls: seq<Call>, s: State) {
    && |s.params| == PARAMETER_WORDS && s.returned <= |calls|
    && var k, waiting := s.returned, s.arm9 == SecondWait;
    && (k == |calls| ==> s.arm9 == Writing(0))
    && s.invoked == calls[..if waiting then k + 1 else k]
    && (k < |calls| ==> ParamsStored(calls[k], s))
    && FinalIsLast(s)
    && (match s.arm11
        case Boot => s.box != Ready && k == 0 && (s.arm9.Writing? || s.arm9 == FirstWait) && s.executed == []
        case Poll =>
          if s.box == Ready then s.executed == s.invoked
          else waiting && s.box == Request(calls[k].op) && s.executed == calls[..k]
        case Fetch(op, got) =>
          && waiting && s.box == Request(op) && op == calls[k].op && s.executed == calls[..k]
          && got <= calls[k].args
        case Ack => waiting && s.box != Ready && s.executed == s.invoked
        case Leave => waiting && s.box != Ready && s.executed == s.invoked
        case Gone =>
          if s.box == Ready then s.executed == s.invoked
          else waiting && s.box == Request(calls[k].op) && s.executed == calls[..k])
  }

  /** PrepareForFirmlaunch was executed exactly when ARM11 is about to leave or gone, and as the last
      operation. */
  ghost predicate FinalIsLast(s: State) {
    && (s.arm11.Leave? || s.arm11.Gone? ==> s.executed != [] && s.executed[|s.executed| - 1].op == PrepareForFirmlaunch)
    && (forall j :: 0 <= j < |s.executed| && s.executed[j].op == PrepareForFirmlaunch ==>
          j == |s.executed| - 1 && (s.arm11.Leave? || s.arm11.Gone?))
  }

  /** How much of the current call's parameters is in place. */
  ghost predicate ParamsStored(c: Call, s: State)
    requires |s.params| == PARAMETER_WORDS
  {
    && |c.args| <= PARAMETER_WORDS
    && (if s.arm9.Writing? then s.arm9.j <= |c.args| && s.params[..s.arm9.j] == c.args[..s.arm9.j]
        else s.params[..|c.args|] == c.args)
  }

  lemma InitInv(calls: seq<Call>, s: State)
    requires WellFormed(calls) && Init(s) && s.box != Ready
    ensures Inv(calls, s)
  {
  }

  lemma Arm9Keeps(calls: seq<Call>, s: State, s': State)
    requires WellFormed(calls) && Inv(calls, s) && Arm9Step(calls, s, s')
    ensures Inv(calls, s')
  {
    var c := calls[s.returned];
    if s.arm9.Writing? && s.arm9.j < |c.args| {
      assert s'.params[..s'.arm9.j] == c.args[..s'.arm9.j];
    }
    assert c.args[..|c.args|] == c.args;
  }

  lemma Arm11Keeps(calls: seq<Call>, s: State, s': State)
    requires WellFormed(calls) && Inv(calls, s) && Arm11Step(s, s')
    ensures Inv(calls, s')
  {
    if s.arm11.Fetch? {
      var c := calls[s.returned];
      if |s.arm11.got| < WordsOf(s.arm11.op) {
        assert s.params[|s.arm11.got|] == s.params[..|c.args|][|s.arm11.got|];
      } else {
        assert s.arm11.got == c.args;
        assert Call(s.arm11.op, s.arm11.got) == c;
      }
    }
  }

  lemma InvIsSafe(calls: seq<Call>, s: State)
    requires Inv(calls, s)
    ensures Safe(calls, s)
  {
  }

  /** Every state of every run that starts with anything but ARM11_READY in the mailbox is safe. */
  lemma {:induction false} RunsAreSafe(calls: seq<Call>, run: seq<State>)
    requires WellFormed(calls) && Run(calls, run) && run[0].box != Ready
    ensures forall i :: 0 <= i < |run| ==> Safe(calls, run[i])
  {
    hide Inv, Arm9Step, Arm11Step, Safe;
    InitInv(calls, run[0]);
    InvIsSafe(calls, run[0]);
    var k := 0;
    while k < |run| - 1
      invariant k < |run|
      invariant Inv(calls, run[k])
      invariant forall i :: 0 <= i <= k ==> Safe(calls, run[i])
    {
      assert StepAt(calls, run, k);
      if Arm9Step(calls, run[k], run[k + 1]) {
        Arm9Keeps(calls, run[k], run[k + 1]);
      } else {
        Arm11Keeps(calls, run[k], run[k + 1]);
      }
      k := k + 1;
      InvIsSafe(calls, run[k]);
    }
  }

  ghost predicate AllSafe(calls: seq<Call>, run: seq<State>) {
    forall i :: 0 <= i < |run| ==> Safe(calls, run[i])
  }

  /** A run in which the answer of the starting ARM11 overwrites the first request: the call returns and
      its operation never ran. */
  function LostRequest(): seq<State> {
    var c := Call(DeinitScreens, []);
    var s0 := State(Ready, [0, 0, 0, 0, 0, 0, 0], Writing(0), Boot, [], [], 0);
    var s1 := s0.(arm9 := FirstWait);
    var s2 := s1.(arm9 := Storing);
    var s3 := s2.(box := Request(DeinitScreens), invoked := [c], arm9 := SecondWait);
    var s4 := s3.(box := Ready, arm11 := Poll);
    var s5 := s4.(returned := 1, arm9 := Writing(0));
    [s0, s1, s2, s3, s4, s5]
  }

  predicate StartsWith(run: seq<State>, b: Mail) {
    |run| > 0 && run[0].box == b
  }

  lemma LostRequestIsRun(calls: seq<Call>, run: seq<State>)
    requires calls == [Call(DeinitScreens, [])] && run == LostRequest()
    ensures Run(calls, run) && !AllSafe(calls, run)
  {
    LostRequestSteps(calls, run);
    assert !Safe(calls, run[5]);
    hide Arm9Step, Arm11Step, Safe;
    forall i | 0 <= i < |run| - 1
      ensures StepAt(calls, run, i)
    {
    }
  }

  lemma LostRequestSteps(calls: seq<Call>, run: seq<State>)
    requires calls == [Call(DeinitScreens, [])] && run == LostRequest()
    ensures Arm9Step(calls, run[0], run[1]) && Arm9Step(calls, run[1], run[2]) && Arm9Step(calls, run[2], run[3])
    ensures Arm11Step(run[3], run[4]) && Arm9Step(calls, run[4], run[5])
  {
    assert [] + calls == calls;
  }

  /** The start value is what matters: all runs are safe exactly when it is not ARM11_READY. */
  lemma SafeIff(b: Mail)
    ensures b != Ready <==>
      forall calls: seq<Call>, run: seq<State> :: WellFormed(calls) && Run(calls, run) && StartsWith(run, b) ==>
        AllSafe(calls, run)
  {
    hide Run, AllSafe;
    if b != Ready {
      forall calls: seq<Call>, run: seq<State> | WellFormed(calls) && Run(calls, run) && StartsWith(run, b)
        ensures AllSafe(calls, run)
      {
        AllRunsSafe(calls, run);
      }
    } else {
      LostRequestIsRun([Call(DeinitScreens, [])], LostRequest());
    }
  }

  lemma AllRunsSafe(calls: seq<Call>, run: seq<State>)
    requires WellFormed(calls) && Run(calls, run) && run[0].box != Ready
    ensures AllSafe(calls, run)
  {
    RunsAreSafe(calls, run);
  }

  /** Steps a call takes on both sides together. */
  function Cost(c: Call): nat {
    2 * |c.args| + 7
  }

  function CostFrom(calls: seq<Call>, k: nat): nat
    requires k <= |calls|
    decreases |calls| - k
  {
    if k == |calls| then 0 else Cost(calls[k]) + CostFrom(calls, k + 1)
  }

  /** Steps already taken on the current call. */
  function Taken(c: Call, s: State): nat {
    match s.arm9
    case Writing(j) => j
    case FirstWait => |c.args| + 1
    case Storing => |c.args| + 2
    case SecondWait =>
      |c.args| + 3 +
      (if s.box == Ready then |c.args| + 3
       else match s.arm11
            case Fetch(_, got) => 1 + |got|
            case Ack => |c.args| + 2
            case Leave => |c.args| + 2
            case _ => 0)
  }

  /** Steps left until all calls have returned. */
  ghost function Remaining(calls: seq<Call>, s: State): (n: int)
    requires s.returned <= |calls|
  {
    CostFrom(calls, s.returned) - (if s.returned < |calls| then Taken(calls[s.returned], s) else 0)
      + (if s.arm11 == Boot then 1 else 0)
  }

  /** Every step, by whichever processor, brings the end one step nearer: apart from idle polling no run
      is longer than its calls need. */
  lemma StepsAreBounded(calls: seq<Call>, s: State, s': State)
    requires WellFormed(calls) && Inv(calls, s) && Step(calls, s, s')
    ensures Inv(calls, s')
    ensures 0 <= Remaining(calls, s') == Remaining(calls, s) - 1
  {
    if Arm9Step(calls, s, s') {
      Arm9Keeps(calls, s, s');
      assert Remaining(calls, s') == Remaining(calls, s) - 1;
    } else {
      Arm11Keeps(calls, s, s');
      assert Remaining(calls, s') == Remaining(calls, s) - 1;
    }
    RemainingNat(calls, s');
  }

  lemma RemainingNat(calls: seq<Call>, s: State)
    requires WellFormed(calls) && Inv(calls, s)
    ensures Remaining(calls, s) >= 0
  {
  }

  /** ARM11 has left after PrepareForFirmlaunch and a later call waits for it. */
  ghost predicate Abandoned(s: State) {
    s.arm11 == Gone && s.arm9 == SecondWait && s.box != Ready
  }

  ghost predicate CanStep(calls: seq<Call>, s: State) {
    exists s' :: Step(calls, s, s')
  }

  /** No step is possible although some call has not returned. */
  ghost predicate Stuck(calls: seq<Call>, s: State) {
    s.returned < |calls| && !CanStep(calls, s)
  }

  /** The processors wait for each other forever only in one way: ARM11 has left, and the call after the
      final one waits for it. */
  lemma StuckIsAbandoned(calls: seq<Call>, s: State)
    requires WellFormed(calls) && Inv(calls, s) && s.returned < |calls|
    ensures Stuck(calls, s) <==> Abandoned(s)
    ensures Abandoned(s) ==> s.returned > 0 && calls[s.returned - 1].op == PrepareForFirmlaunch
  {
    if !Abandoned(s) {
      var s' := NextState(calls, s);
      assert Step(calls, s, s');
    }
  }

  /** A step that is possible. */
  lemma NextState(calls: seq<Call>, s: State) returns (s': State)
    requires WellFormed(calls) && Inv(calls, s)
    requires s.returned < |calls| && !Abandoned(s)
    ensures Step(calls, s, s')
  {
    var c := calls[s.returned];
    if s.arm9.Writing? {
      s' := if s.arm9.j < |c.args| then s.(params := s.params[s.arm9.j := c.args[s.arm9.j]],
                                           arm9 := Writing(s.arm9.j + 1))
            else s.(arm9 := FirstWait);
    } else if s.arm9 == Storing {
      s' := s.(box := Request(c.op), invoked := s.invoked + [c], arm9 := SecondWait);
    } else if s.box == Ready {
      s' := if s.arm9 == FirstWait then s.(arm9 := Storing) else s.(returned := s.returned + 1, arm9 := Writing(0));
    } else {
      match s.arm11
      case Boot => s' := s.(box := Ready, arm11 := Poll);
      case Poll => s' := s.(arm11 := Fetch(c.op, []));
      case Fetch(op, got) =>
        s' := if |got| < WordsOf(op) then s.(arm11 := Fetch(op, got + [s.params[|got|]]))
              else s.(executed := s.executed + [Call(op, got)],
                      arm11 := if op == PrepareForFirmlaunch then Leave else Ack);
      case Ack => s' := s.(box := Ready, arm11 := Poll);
      case Leave => s' := s.(box := Ready, arm11 := Gone);
    }
  }

  /** PrepareForFirmlaunch, after which ARM11 does not come back, is invoked last or not at all. */
  predicate FinalOnlyLast(calls: seq<Call>) {
    forall i :: 0 <= i < |calls| - 1 ==> calls[i].op != PrepareForFirmlaunch
  }

  ghost predicate GetsStuck(calls: seq<Call>, run: seq<State>) {
    exists i :: 0 <= i < |run| && Stuck(calls, run[i])
  }

  lemma {:induction false} RunKeepsInv(calls: seq<Call>, run: seq<State>, k: nat)
    requires WellFormed(calls) && Run(calls, run) && run[0].box != Ready && k < |run|
    ensures Inv(calls, run[k])
  {
    hide Inv, Arm9Step, Arm11Step;
    InitInv(calls, run[0]);
    if k > 0 {
      RunKeepsInv(calls, run, k - 1);
      assert StepAt(calls, run, k - 1);
      StepsAreBounded(calls, run[k - 1], run[k]);
    }
  }

  lemma StartState(b: Mail) returns (s: State)
    ensures Init(s) && s.box == b
  {
    s := State(b, [0, 0, 0, 0, 0, 0, 0], Writing(0), Boot, [], [], 0);
  }

  lemma LongerRun(calls: seq<Call>, run: seq<State>, s': State)
    requires Run(calls, run) && Step(calls, run[|run| - 1], s')
    ensures Run(calls, run + [s'])
  {
    hide Init, Step;
    var longer := run + [s'];
    forall i | 0 <= i < |longer| - 1
      ensures StepAt(calls, longer, i)
    {
      if i < |run| - 1 { assert StepAt(calls, run, i); }
    }
  }

  /** If another call follows PrepareForFirmlaunch, there is a run in which it waits for ever. */
  lemma StuckRun(calls: seq<Call>, b: Mail) returns (run: seq<State>)
    requires WellFormed(calls) && b != Ready && !FinalOnlyLast(calls)
    ensures Run(calls, run) && StartsWith(run, b) && GetsStuck(calls, run)
  {
    hide Inv, Arm9Step, Arm11Step;
    var s := StartState(b);
    InitInv(calls, s);
    RemainingNat(calls, s);
    run := [s];
    while CanStep(calls, s)
      invariant Run(calls, run) && StartsWith(run, b) && run[|run| - 1] == s && Inv(calls, s)
      invariant s.returned <= |calls| && Remaining(calls, s) >= 0
      decreases Remaining(calls, s)
    {
      var s' :| Step(calls, s, s');
      StepsAreBounded(calls, s, s');
      LongerRun(calls, run, s');
      InvReturned(calls, s');
      run, s := run + [s'], s';
    }
    NotAllReturn(calls, s);
    assert Stuck(calls, run[|run| - 1]);
  }

  lemma InvReturned(calls: seq<Call>, s: State)
    requires Inv(calls, s)
    ensures s.returned <= |calls|
  {
  }

  /** A call behind the final one never returns. */
  lemma NotAllReturn(calls: seq<Call>, s: State)
    requires WellFormed(calls) && Inv(calls, s) && !FinalOnlyLast(calls)
    ensures s.returned < |calls|
  {
    InvIsSafe(calls, s);
    assert forall i :: 0 <= i < |s.executed| - 1 ==> s.executed[i].op != PrepareForFirmlaunch;
  }

  /** What the callers must obey: no run gets stuck before every call returned exactly when
      PrepareForFirmlaunch is invoked last or not at all. */
  lemma NeverStuckIff(calls: seq<Call>, b: Mail)
    requires WellFormed(calls) && b != Ready
    ensures FinalOnlyLast(calls) <==>
      forall run: seq<State> :: Run(calls, run) && StartsWith(run, b) ==> !GetsStuck(calls, run)
  {
    hide Inv, Run, Step, Stuck;
    if FinalOnlyLast(calls) {
      forall run: seq<State> | Run(calls, run) && StartsWith(run, b)
        ensures !GetsStuck(calls, run)
      {
        forall i | 0 <= i < |run|
          ensures !Stuck(calls, run[i])
        {
          RunKeepsInv(calls, run, i);
          NotStuck(calls, run[i]);
        }
      }
    } else {
      var run := StuckRun(calls, b);
    }
  }

  lemma NotStuck(calls: seq<Call>, s: State)
    requires WellFormed(calls) && Inv(calls, s) && FinalOnlyLast(calls)
    ensures !Stuck(calls, s)
  {
    if s.returned < |calls| {
      StuckIsAbandoned(calls, s);
    }
  }
}
