/** The two-thread protocol of the window (src/sega/gui/gui.cpp:130-285): the emulation thread
    hands over a frame at every vertical blank and waits, the main thread renders it and lets
    go; and run conditions are replaced while an old one may still be running.

    Every step is one atomic action: a critical section under one of the two mutexes, an
    atomic load, store or exchange, or one instruction of the emulated processor.  A wait on a
    condition variable tests its predicate and goes to sleep in one step; a sleeping thread
    moves again only when it is notified, when a limited wait times out, or spuriously.
 */
module Gui {
  import opened Words

  datatype EmulationPc =
    | LoopTop | Snapshot | CheckCondition | ResetTime | TestCondition | Execute
    | ClearOnError | Finish | SignalFrame | NotifyMain | Parked | Sleeping | Exited

  datatype MainPc =
    | PollEvents | WaitFrame | Dozing | UpdateVideo | Render | Release | StopRunning | StopRelease | Join | Left

  /** Guarded by the frame mutex, and the shutdown flag. */
  datatype Frame = Frame(running: bool, vblankReady: bool, renderDone: bool)

  /** The run condition and its generation, guarded by the condition mutex.  A condition is
      named by the number of the change that set it; `changes` is history. */
  datatype Current = Current(condition: Option<nat>, generation: LongLong, resetPending: bool, changes: nat)

  /** What the emulation thread took of it. */
  datatype Taken = Taken(condition: Option<nat>, generation: LongLong, changes: nat)

  /** The shared variables and the threads' positions and locals; `executed` is history. */
  datatype State = State(
    frame: Frame, current: Current, taken: Taken,
    emulation: EmulationPc, main: MainPc, gotFrame: bool, executed: nat)

  predicate Initial(s: State) {
    s == State(Frame(true, false, false), Current(None, 0, false, 0), Taken(None, 0, 0), LoopTop, PollEvents, false, 0)
  }

  /** Every change of the condition counts the generation up, in 64 bits. */
  function Changed(current: Current, condition: Option<nat>): Current {
    current.(condition := condition, generation := (current.generation + 1) % LONGLONG_MODULUS,
             changes := current.changes + 1)
  }

  // ---------------------------------------------------------------- the emulation thread

  /** What the environment decides: whether the condition holds, how an instruction ends, and
      wake-ups without a notification. */
  datatype Choice = Holds | DoesNotHold | Executed | Failed | Vblank | Spurious

  /** Clear the condition, unless it was replaced since it was taken. */
  function ClearIfUnchanged(current: Current, taken: Taken): Current {
    if current.generation == taken.generation then Changed(current, None) else current
  }

  function EmulationStep(s: State, c: Choice): Option<State> {
    match s.emulation
    case LoopTop => Some(s.(emulation := if s.frame.running then Snapshot else Exited))
    case Snapshot =>
      Some(s.(emulation := CheckCondition,
              taken := Taken(s.current.condition, s.current.generation, s.current.changes)))
    case CheckCondition => Some(s.(emulation := if s.taken.condition.None? then LoopTop else ResetTime))
    case ResetTime => Some(s.(emulation := TestCondition, current := s.current.(resetPending := false)))
    case TestCondition => Some(s.(emulation := if c == Holds then Finish else Execute))
    case Execute =>
      Some(s.(emulation := if c == Failed then ClearOnError else if c == Vblank then SignalFrame else TestCondition,
              executed := s.executed + 1))
    case ClearOnError => Some(s.(emulation := Finish, current := ClearIfUnchanged(s.current, s.taken)))
    case Finish => Some(s.(emulation := LoopTop, current := ClearIfUnchanged(s.current, s.taken)))
    case SignalFrame => Some(s.(emulation := NotifyMain, frame := s.frame.(vblankReady := true, renderDone := false)))
    case NotifyMain => Some(s.(emulation := Parked, main := if s.main == Dozing then WaitFrame else s.main))
    case Parked => Some(s.(emulation := if s.frame.renderDone || !s.frame.running then LoopTop else Sleeping))
    case Sleeping => if c == Spurious then Some(s.(emulation := Parked)) else None
    case Exited => None
  }

  // ---------------------------------------------------------------- the main thread

  datatype MainChoice = Continue | Close | SetCondition(resetTime: bool) | ClearCondition | Spuriously

  /** Take the frame if there is one. */
  function Taking(s: State, otherwise: MainPc): State {
    if s.frame.vblankReady then
      s.(main := UpdateVideo, frame := s.frame.(vblankReady := false), gotFrame := true)
    else s.(main := otherwise, gotFrame := false)
  }

  /** Release the frame and notify the emulation thread. */
  function Released(s: State, next: MainPc): State {
    s.(main := next, frame := s.frame.(renderDone := true), gotFrame := false,
       emulation := if s.emulation == Sleeping then Parked else s.emulation)
  }

  function MainStep(s: State, c: MainChoice): Option<State> {
    match s.main
    case PollEvents => Some(s.(main := if c == Close then StopRunning else WaitFrame))
    case WaitFrame => Some(Taking(s, Dozing))
    // a wait that times out still reports the frame if there is one
    case Dozing => Some(if c == Spuriously then s.(main := WaitFrame) else Taking(s, Render))
    case UpdateVideo => Some(s.(main := Render))
    case Render =>
      // the user interface may change the condition any number of times
      if c.SetCondition? then
        Some(s.(current := Changed(s.current, Some(s.current.changes + 1))
                           .(resetPending := s.current.resetPending || c.resetTime)))
      else if c == ClearCondition then Some(s.(current := Changed(s.current, None)))
      else Some(s.(main := if s.gotFrame then Release else PollEvents))
    case Release => Some(Released(s, PollEvents))
    case StopRunning => Some(s.(main := StopRelease, frame := s.frame.(running := false)))
    case StopRelease => Some(Released(s, Join))
    case Join => if s.emulation == Exited then Some(s.(main := Left)) else None
    case Left => None
  }

  ghost predicate Step(s: State, s': State) {
    || (exists c :: EmulationStep(s, c) == Some(s'))
    || (exists c :: MainStep(s, c) == Some(s'))
  }

  /** Any interleaving of the two threads. */
  ghost predicate IsRun(run: seq<State>) {
    && |run| > 0 && Initial(run[0])
    && forall i {:trigger run[i]} :: 0 <= i < |run| - 1 ==> Step(run[i], run[i + 1])
  }

  // ---------------------------------------------------------------- what every step keeps

  /** The main thread has taken a frame and not let it go. */
  predicate Holding(s: State) {
    s.gotFrame && (s.main == UpdateVideo || s.main == Render || s.main == Release)
  }

  predicate AtFrame(s: State) {
    s.emulation == NotifyMain || s.emulation == Parked || s.emulation == Sleeping
  }

  predicate InLoop(s: State) {
    s.main != StopRelease && s.main != Join && s.main != Left
  }

  /** Positions at which the emulation thread works with a snapshot. */
  predicate HasSnapshot(s: State) {
    s.emulation != LoopTop && s.emulation != Snapshot && s.emulation != Exited
  }

  predicate FrameInv(s: State) {
    && (InLoop(s) <==> s.frame.running)
    && ((s.main == UpdateVideo || s.main == Release) ==> s.gotFrame)
    && (s.gotFrame ==> Holding(s))
    // a frame offered or held keeps the emulation thread where it is
    && (Holding(s) ==> AtFrame(s) && !s.frame.renderDone && !s.frame.vblankReady)
    && (s.frame.running && s.frame.vblankReady ==> AtFrame(s) && !s.frame.renderDone)
    // a parked thread is accounted for
    && (AtFrame(s) ==> s.frame.vblankReady || Holding(s) || s.frame.renderDone || !s.frame.running)
    // no wake-up is lost: a sleeping thread's notification is still to come
    && (s.emulation == Sleeping ==> !s.frame.renderDone && (s.frame.running || s.main == StopRelease))
  }

  predicate ConditionInv(s: State) {
    // generations number the changes
    && s.current.generation == s.current.changes % LONGLONG_MODULUS
    && s.taken.generation == s.taken.changes % LONGLONG_MODULUS
    && s.taken.changes <= s.current.changes
    && (HasSnapshot(s) && s.taken.changes == s.current.changes ==> s.current.condition == s.taken.condition)
  }

  predicate Inv(s: State) {
    FrameInv(s) && ConditionInv(s)
  }

  lemma NextGeneration(changes: nat)
    ensures (changes + 1) % LONGLONG_MODULUS == (changes % LONGLONG_MODULUS + 1) % LONGLONG_MODULUS
  {
  }

  lemma EmulationKeepsFrame(s: State, c: Choice, s': State)
    requires FrameInv(s) && EmulationStep(s, c) == Some(s')
    ensures FrameInv(s')
    ensures Holding(s) ==> s'.executed == s.executed
  {
  }

  lemma MainKeepsFrame(s: State, c: MainChoice, s': State)
    requires FrameInv(s) && MainStep(s, c) == Some(s')
    ensures FrameInv(s')
    ensures s'.executed == s.executed
  {
  }

  lemma ChangedCondition(current: Current, condition: Option<nat>)
    requires current.generation == current.changes % LONGLONG_MODULUS
    ensures var c := Changed(current, condition);
            && c.generation == c.changes % LONGLONG_MODULUS
            && c.changes == current.changes + 1
  {
    NextGeneration(current.changes);
  }

  lemma EmulationKeepsCondition(s: State, c: Choice, s': State)
    requires ConditionInv(s) && EmulationStep(s, c) == Some(s')
    ensures ConditionInv(s')
  {
    ChangedCondition(s.current, None);
    hide Changed;
  }

  lemma MainKeepsCondition(s: State, c: MainChoice, s': State)
    requires ConditionInv(s) && MainStep(s, c) == Some(s')
    ensures ConditionInv(s')
  {
    ChangedCondition(s.current, None);
    ChangedCondition(s.current, Some(s.current.changes + 1));
    hide Changed;
  }

  lemma StepKeeps(s: State, s': State)
    requires Inv(s) && Step(s, s')
    ensures Inv(s')
    ensures Holding(s) ==> s'.executed == s.executed
  {
    hide EmulationStep, MainStep, FrameInv, ConditionInv, Holding;
    if c :| EmulationStep(s, c) == Some(s') {
      EmulationKeepsFrame(s, c, s');
      EmulationKeepsCondition(s, c, s');
    } else {
      var c :| MainStep(s, c) == Some(s');
      MainKeepsFrame(s, c, s');
      MainKeepsCondition(s, c, s');
    }
  }

  lemma StepOfRun(run: seq<State>, i: nat)
    requires IsRun(run) && i < |run| - 1
    ensures Step(run[i], run[i + 1])
  {
    hide Step, Initial;
  }

  lemma {:induction false} RunKeeps(run: seq<State>, i: nat)
    requires IsRun(run) && i < |run|
    ensures Inv(run[i])
  {
    hide Step, Inv;
    if i == 0 {
      InitialKeeps(run[0]);
    } else {
      RunKeeps(run, i - 1);
      StepOfRun(run, i - 1);
      StepKeeps(run[i - 1], run[i]);
    }
  }

  lemma InitialKeeps(s: State)
    requires Initial(s)
    ensures Inv(s)
  {
  }

  // ---------------------------------------------------------------- the frame

  /** Over any interleaving: from the moment the main thread takes a frame until it lets it
      go, the emulation thread executes no instruction. */
  lemma {:induction false} NoExecutionWhileHeld(run: seq<State>, i: nat, j: nat)
    requires IsRun(run) && i <= j < |run|
    requires forall k :: i <= k < j ==> Holding(run[k])
    ensures run[j].executed == run[i].executed
    decreases j - i
  {
    hide Step, Inv, Holding, IsRun;
    if i < j {
      NoExecutionWhileHeld(run, i, j - 1);
      RunKeeps(run, j - 1);
      StepOfRun(run, j - 1);
      StepKeeps(run[j - 1], run[j]);
    }
  }

  /** A waiting emulation thread always has its frame pending, held by the main thread or
      released, or the program is shutting down. */
  lemma ParkedIsAccountedFor(run: seq<State>, i: nat)
    requires IsRun(run) && i < |run| && (run[i].emulation == Parked || run[i].emulation == Sleeping)
    ensures run[i].frame.vblankReady || Holding(run[i]) || run[i].frame.renderDone || !run[i].frame.running
    ensures Holding(run[i]) ==> !run[i].frame.renderDone && run[i].frame.running
  {
    RunKeeps(run, i);
  }

  /** No wake-up is lost: while the emulation thread sleeps, its frame is still to be taken or
      to be released, or the release of the shutdown is still to come. */
  lemma NoLostWakeUp(run: seq<State>, i: nat)
    requires IsRun(run) && i < |run| && run[i].emulation == Sleeping
    ensures !run[i].frame.renderDone
    ensures run[i].frame.vblankReady || Holding(run[i]) || run[i].main == StopRelease
  {
    RunKeeps(run, i);
  }

  /** A step that needs no luck. */
  ghost predicate DeliberateStep(s: State, s': State) {
    || (exists c :: c != Spurious && EmulationStep(s, c) == Some(s'))
    || (exists c :: c != Spuriously && MainStep(s, c) == Some(s'))
  }

  /** Until the main thread has left, some thread can take a step, without a spurious wake-up:
      in particular the thread that is joined does not sleep. */
  lemma NeverStuck(run: seq<State>, i: nat)
    requires IsRun(run) && i < |run| && run[i].main != Left
    ensures exists s' :: DeliberateStep(run[i], s')
  {
    RunKeeps(run, i);
    var s := run[i];
    if s.main == Join {
      if s.emulation == Exited {
        assert DeliberateStep(s, MainStep(s, Continue).value);
      } else {
        assert DeliberateStep(s, EmulationStep(s, Executed).value);
      }
    } else {
      assert DeliberateStep(s, MainStep(s, Continue).value);
    }
  }

  // ---------------------------------------------------------------- how long it sleeps

  /** How many moves of the main thread a sleeping emulation thread has to wait for at most. */
  function Distance(s: State): nat {
    match s.main
    case StopRelease => 1
    case Release => 1
    case StopRunning => 2
    case UpdateVideo => 3
    case WaitFrame => 4
    case Dozing => 5
    case PollEvents => 6
    case Render => if s.gotFrame then 2 else 7
    case _ => 0
  }

  /** While the emulation thread sleeps every step of the main thread brings it nearer to the
      wake-up, save for changes of the condition, which do not move it. */
  lemma NearerToWakeUp(s: State, s': State)
    requires Inv(s) && Step(s, s') && s.emulation == Sleeping && s'.emulation == Sleeping
    ensures if s'.main == s.main then Distance(s') == Distance(s) else Distance(s') < Distance(s)
  {
    if c :| EmulationStep(s, c) == Some(s') {
    } else {
      var c :| MainStep(s, c) == Some(s');
    }
  }

  /** Moves of the main thread in a part of a run. */
  function Moves(run: seq<State>, i: nat, j: nat): nat
    requires i <= j < |run|
    decreases j - i
  {
    if i == j then 0 else Moves(run, i, j - 1) + B2I(run[j - 1].main != run[j].main)
  }

  /** However the threads interleave, the emulation thread does not sleep through eight moves of
      the main thread. */
  lemma {:induction false} WokenInTime(run: seq<State>, i: nat, j: nat)
    requires IsRun(run) && i <= j < |run|
    requires forall k :: i <= k <= j ==> run[k].emulation == Sleeping
    ensures Distance(run[j]) + Moves(run, i, j) <= Distance(run[i]) <= 7
    decreases j - i
  {
    hide Step, Inv, IsRun, Distance;
    DistanceBound(run[i]);
    if i < j {
      WokenInTime(run, i, j - 1);
      RunKeeps(run, j - 1);
      StepOfRun(run, j - 1);
      NearerToWakeUp(run[j - 1], run[j]);
    }
  }

  lemma DistanceBound(s: State)
    ensures Distance(s) <= 7
  {
  }

  // ---------------------------------------------------------------- the condition

  /** The step takes the run condition away from the emulation side. */
  predicate Clears(s: State) {
    (s.emulation == ClearOnError || s.emulation == Finish) && s.current.generation == s.taken.generation
  }

  /** When the emulation thread clears the condition because the one it ran is over, that is
      the condition it ran, unless the generation has wrapped around all of its 2^64 values
      since: a condition set later is never cleared by the completion of an older one. */
  lemma CompletionClearsItsOwn(run: seq<State>, i: nat)
    requires IsRun(run) && i < |run| && Clears(run[i])
    ensures run[i].current.condition == run[i].taken.condition
            || run[i].current.changes - run[i].taken.changes >= LONGLONG_MODULUS
  {
    RunKeeps(run, i);
    SameResidue(run[i].current.changes, run[i].taken.changes);
  }

  lemma SameResidue(a: nat, b: nat)
    requires a >= b && a % LONGLONG_MODULUS == b % LONGLONG_MODULUS
    ensures a == b || a - b >= LONGLONG_MODULUS
  {
    var p, q := a / LONGLONG_MODULUS, b / LONGLONG_MODULUS;
    assert a - b == LONGLONG_MODULUS * (p - q);
  }

  /** Conversely a condition that was set after the snapshot survives every step of the
      emulation thread, as long as the generation has not wrapped around. */
  lemma LaterConditionSurvives(run: seq<State>, i: nat)
    requires IsRun(run) && i + 1 < |run| && HasSnapshot(run[i])
    requires run[i].taken.changes < run[i].current.changes < run[i].taken.changes + LONGLONG_MODULUS
    requires exists c :: EmulationStep(run[i], c) == Some(run[i + 1])
    ensures run[i + 1].current.condition == run[i].current.condition
  {
    RunKeeps(run, i);
    if run[i].current.generation == run[i].taken.generation {
      SameResidue(run[i].current.changes, run[i].taken.changes);
    }
  }
}
