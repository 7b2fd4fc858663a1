/** What the two threads of the window do for each other (src/sega/gui/gui.cpp:130-239): a
    condition is run until it holds, a vertical blank hands over its frame, and the frame is
    shown before another instruction is executed. */
module GuiFrames {
  import opened Words
  import opened Gui

  // ---------------------------------------------------------------- one thread alone

  /** The emulation thread takes these steps, and the main thread none. */
  function Alone(s: State, choices: seq<Choice>): Option<State>
    decreases |choices|
  {
    if choices == [] then Some(s)
    else match EmulationStep(s, choices[0])
      case None => None
      case Some(next) => Alone(next, choices[1..])
  }

  lemma {:induction false} AloneTwice(s: State, one: seq<Choice>, other: seq<Choice>)
    ensures Alone(s, one + other)
            == match Alone(s, one) case None => None case Some(next) => Alone(next, other)
    decreases |one|
  {
    hide EmulationStep;
    if one == [] {
      assert one + other == other;
    } else {
      assert (one + other)[0] == one[0] && (one + other)[1..] == one[1..] + other;
      if EmulationStep(s, one[0]).Some? {
        AloneTwice(EmulationStep(s, one[0]).value, one[1..], other);
      }
    }
  }

  lemma AloneOnce(s: State, c: Choice)
    ensures Alone(s, [c]) == EmulationStep(s, c)
  {
    hide EmulationStep;
    if EmulationStep(s, c).Some? {
      assert Alone(EmulationStep(s, c).value, [c][1..]) == EmulationStep(s, c);
    }
  }

  lemma AloneOnceMore(s: State, choices: seq<Choice>, c: Choice)
    ensures Alone(s, choices + [c])
            == match Alone(s, choices) case None => None case Some(next) => EmulationStep(next, c)
  {
    hide Alone, EmulationStep;
    AloneTwice(s, choices, [c]);
    if Alone(s, choices).Some? {
      AloneOnce(Alone(s, choices).value, c);
    }
  }

  /** n instructions, each after a test of the condition that failed. */
  function Instructions(n: nat): seq<Choice> {
    if n == 0 then [] else Instructions(n - 1) + [DoesNotHold] + [Executed]
  }

  lemma {:induction false} ExecutesOneByOne(s: State, n: nat)
    requires s.emulation == TestCondition
    ensures Alone(s, Instructions(n)) == Some(s.(executed := s.executed + n))
  {
    if n > 0 {
      ExecutesOneByOne(s, n - 1);
      hide Alone, Instructions;
      AloneOnceMore(s, Instructions(n - 1), DoesNotHold);
      AloneOnceMore(s, Instructions(n - 1) + [DoesNotHold], Executed);
      InstructionsUnfold(n);
    }
  }

  lemma InstructionsUnfold(n: nat)
    requires n > 0
    ensures Instructions(n) == Instructions(n - 1) + [DoesNotHold] + [Executed]
  {
  }

  /** What the emulation thread has taken up. */
  function TakenUp(current: Current): Taken {
    Taken(current.condition, current.generation, current.changes)
  }

  /** From the top of its loop it takes up a condition with its generation, and answers a
      request to reset the time. */
  lemma TakesUp(s: State, a: Choice, b: Choice, c: Choice, d: Choice)
    requires s.emulation == LoopTop && s.frame.running && s.current.condition.Some?
    ensures Alone(s, [a] + [b] + [c] + [d])
            == Some(s.(emulation := TestCondition, taken := TakenUp(s.current),
                       current := s.current.(resetPending := false)))
  {
    AloneOnce(s, a);
    AloneOnceMore(s, [a], b);
    AloneOnceMore(s, [a] + [b], c);
    AloneOnceMore(s, [a] + [b] + [c], d);
    hide Alone;
  }

  /** Without a condition it comes back to the top and has executed nothing. */
  lemma Idles(s: State, a: Choice, b: Choice, c: Choice)
    requires s.emulation == LoopTop && s.frame.running && s.current.condition.None?
    ensures Alone(s, [a] + [b] + [c]) == Some(s.(taken := TakenUp(s.current)))
  {
    AloneOnce(s, a);
    AloneOnceMore(s, [a], b);
    AloneOnceMore(s, [a] + [b], c);
    hide Alone;
  }

  /** The condition that was taken up has not been replaced. */
  predicate StillCurrent(s: State) {
    s.current.generation == s.taken.generation
  }

  function Cleared(current: Current): Current {
    Changed(current, None)
  }

  /** A condition that holds is cleared if it is still the current one. */
  lemma Completes(s: State, a: Choice)
    requires s.emulation == TestCondition
    ensures Alone(s, [Holds] + [a])
            == Some(s.(emulation := LoopTop, current := if StillCurrent(s) then Cleared(s.current) else s.current))
  {
    AloneOnce(s, Holds);
    AloneOnceMore(s, [Holds], a);
    hide Alone, Changed;
  }

  lemma ClearingCounts(current: Current)
    ensures Cleared(current).generation != current.generation
  {
  }

  /** An instruction that fails ends the condition like one that holds, and only once. */
  lemma Fails(s: State, a: Choice, b: Choice)
    requires s.emulation == TestCondition
    ensures Alone(s, [DoesNotHold] + [Failed] + [a] + [b])
            == Some(s.(emulation := LoopTop, executed := s.executed + 1,
                       current := if StillCurrent(s) then Cleared(s.current) else s.current))
  {
    hide Alone, Changed;
    AloneOnce(s, DoesNotHold);
    AloneOnceMore(s, [DoesNotHold], Failed);
    AloneOnceMore(s, [DoesNotHold] + [Failed], a);
    AloneOnceMore(s, [DoesNotHold] + [Failed] + [a], b);
    ClearingCounts(s.current);
  }

  /** An instruction that ends in a vertical blank offers its frame, wakes a dozing main thread
      and sleeps; the condition goes on afterwards. */
  lemma HandsOver(s: State, a: Choice, b: Choice, c: Choice)
    requires s.emulation == TestCondition && s.frame.running
    ensures Alone(s, [DoesNotHold] + [Vblank] + [a] + [b] + [c])
            == Some(s.(emulation := Sleeping, executed := s.executed + 1, frame := Frame(true, true, false),
                       main := if s.main == Dozing then WaitFrame else s.main))
  {
    AloneOnce(s, DoesNotHold);
    AloneOnceMore(s, [DoesNotHold], Vblank);
    AloneOnceMore(s, [DoesNotHold] + [Vblank], a);
    AloneOnceMore(s, [DoesNotHold] + [Vblank] + [a], b);
    AloneOnceMore(s, [DoesNotHold] + [Vblank] + [a] + [b], c);
    hide Alone;
  }

  /** A condition that holds for the first time after n instructions is run for exactly n
      instructions, and then nothing is left to run. */
  lemma RunsUntilItHolds(s: State, n: nat, a: Choice, b: Choice, c: Choice, d: Choice, e: Choice)
    requires s.emulation == LoopTop && s.frame.running && s.current.condition.Some?
    ensures Alone(s, ([a] + [b] + [c] + [d]) + Instructions(n) + ([Holds] + [e]))
            == Some(s.(emulation := LoopTop, executed := s.executed + n, taken := TakenUp(s.current),
                       current := Cleared(s.current).(resetPending := false)))
  {
    var start := [a] + [b] + [c] + [d];
    TakesUp(s, a, b, c, d);
    var taken := s.(emulation := TestCondition, taken := TakenUp(s.current),
                    current := s.current.(resetPending := false));
    ExecutesOneByOne(taken, n);
    Completes(taken.(executed := s.executed + n), e);
    hide Alone, Instructions, Changed;
    AloneTwice(s, start, Instructions(n));
    AloneTwice(s, start + Instructions(n), [Holds] + [e]);
    ClearedReset(s.current);
  }

  lemma ClearedReset(current: Current)
    ensures Cleared(current.(resetPending := false)) == Cleared(current).(resetPending := false)
  {
  }

  // ---------------------------------------------------------------- the main thread alone

  function MainAlone(s: State, choices: seq<MainChoice>): Option<State>
    decreases |choices|
  {
    if choices == [] then Some(s)
    else match MainStep(s, choices[0])
      case None => None
      case Some(next) => MainAlone(next, choices[1..])
  }

  lemma MainAloneNext(s: State, c: MainChoice, choices: seq<MainChoice>)
    ensures MainAlone(s, [c] + choices)
            == match MainStep(s, c) case None => None case Some(next) => MainAlone(next, choices)
  {
    hide MainStep;
    assert ([c] + choices)[1..] == choices;
  }

  /** The first step, and the others after it. */
  ghost predicate Goes(s: State, c: MainChoice, next: State) {
    MainStep(s, c) == Some(next)
  }

  /** A frame on offer is taken, drawn and let go, and the emulation thread woken if it
      sleeps. */
  lemma ShowsFrame(s: State)
    requires s.main == PollEvents && s.frame.vblankReady
    ensures MainAlone(s, [Continue] + ([Continue] + ([Continue] + ([Continue] + ([Continue] + [])))))
            == Some(s.(frame := s.frame.(vblankReady := false, renderDone := true), gotFrame := false,
                       emulation := if s.emulation == Sleeping then Parked else s.emulation))
  {
    var waiting := s.(main := WaitFrame);
    var taken := s.(main := UpdateVideo, gotFrame := true, frame := s.frame.(vblankReady := false));
    var drawn := taken.(main := Render);
    var letting := taken.(main := Release);
    assert Goes(s, Continue, waiting) && Goes(waiting, Continue, taken) && Goes(taken, Continue, drawn);
    assert Goes(drawn, Continue, letting);
    hide MainAlone;
    MainAloneNext(letting, Continue, []);
    MainAloneNext(drawn, Continue, [Continue] + []);
    MainAloneNext(taken, Continue, [Continue] + ([Continue] + []));
    MainAloneNext(waiting, Continue, [Continue] + ([Continue] + ([Continue] + [])));
    MainAloneNext(s, Continue, [Continue] + ([Continue] + ([Continue] + ([Continue] + []))));
    NothingMore(MainStep(letting, Continue).value);
  }

  lemma NothingMore(s: State)
    ensures MainAlone(s, []) == Some(s)
  {
  }

  /** Without a frame it dozes until the wait is over, and shows the old picture. */
  lemma ShowsNothingNew(s: State)
    requires s.main == PollEvents && !s.frame.vblankReady
    ensures MainAlone(s, [Continue] + ([Continue] + ([Continue] + ([Continue] + []))))
            == Some(s.(gotFrame := false))
  {
    var waiting := s.(main := WaitFrame);
    var dozing := s.(main := Dozing, gotFrame := false);
    var drawing := s.(main := Render, gotFrame := false);
    assert Goes(s, Continue, waiting) && Goes(waiting, Continue, dozing) && Goes(dozing, Continue, drawing);
    hide MainAlone;
    MainAloneNext(drawing, Continue, []);
    MainAloneNext(dozing, Continue, [Continue] + []);
    MainAloneNext(waiting, Continue, [Continue] + ([Continue] + []));
    MainAloneNext(s, Continue, [Continue] + ([Continue] + ([Continue] + [])));
    NothingMore(MainStep(drawing, Continue).value);
  }

  /** Closing the window ends both threads: the emulation thread, woken if it sleeps, leaves its
      loop, and then the main thread is through. */
  lemma Closes(s: State, a: Choice, b: Choice)
    requires s.main == PollEvents && (s.emulation == Sleeping || s.emulation == Parked)
    ensures var asked := MainAlone(s, [Close] + ([Continue] + ([Continue] + [])));
            && asked.Some? && asked.value.main == Join && !asked.value.frame.running
            && var left := Alone(asked.value, [a] + [b]);
               left.Some? && left.value.emulation == Exited && left.value.executed == s.executed
               && MainStep(left.value, Continue) == Some(left.value.(main := Left))
  {
    var stopping := s.(main := StopRunning);
    var releasing := s.(main := StopRelease, frame := s.frame.(running := false));
    assert Goes(s, Close, stopping) && Goes(stopping, Continue, releasing);
    var asked := MainStep(releasing, Continue).value;
    MainAloneNext(releasing, Continue, []);
    MainAloneNext(stopping, Continue, [Continue] + []);
    MainAloneNext(s, Close, [Continue] + ([Continue] + []));
    NothingMore(asked);
    AloneOnce(asked, a);
    AloneOnceMore(asked, [a], b);
    hide MainAlone, Alone;
  }

  // ---------------------------------------------------------------- over any interleaving

  ghost predicate EmulationMoves(s: State, next: State) {
    exists c :: EmulationStep(s, c) == Some(next)
  }

  ghost predicate MainMoves(s: State, next: State) {
    exists c :: MainStep(s, c) == Some(next)
  }

  lemma SomeoneMoves(run: seq<State>, i: nat)
    requires IsRun(run) && i < |run| - 1
    ensures EmulationMoves(run[i], run[i + 1]) || MainMoves(run[i], run[i + 1])
  {
    StepOfRun(run, i);
    hide EmulationStep, MainStep, IsRun;
  }

  /** The main thread executes nothing, and leaves the emulation thread where it is unless it
      wakes it. */
  lemma MainLeavesEmulation(s: State, next: State)
    requires MainMoves(s, next)
    ensures next.executed == s.executed
    ensures s.emulation != Sleeping ==> next.emulation == s.emulation
  {
  }

  /** While only the main thread moves, an emulation thread that is awake stays where it is. */
  lemma {:induction false} StaysAwake(run: seq<State>, i: nat, j: nat)
    requires IsRun(run) && i <= j < |run| && run[i].emulation != Sleeping
    requires forall k :: i <= k < j ==> !EmulationMoves(run[k], run[k + 1])
    ensures run[j].emulation == run[i].emulation && run[j].executed == run[i].executed
    decreases j - i
  {
    hide EmulationMoves, MainMoves, IsRun;
    if i < j {
      StaysAwake(run, i, j - 1);
      SomeoneMoves(run, j - 1);
      assert !EmulationMoves(run[j - 1], run[j - 1 + 1]);
      MainLeavesEmulation(run[j - 1], run[j]);
    }
  }

  /** Over any interleaving: after an instruction that ends in a vertical blank, the next move
      of the emulation thread offers the frame, the one after it wakes a dozing main thread and
      parks, and no instruction is executed in between. */
  lemma VblankHandsOver(run: seq<State>, i: nat, j: nat, k: nat)
    requires IsRun(run) && i < j < k < |run| - 1
    requires run[i].emulation == Execute && EmulationStep(run[i], Vblank) == Some(run[i + 1])
    requires forall n :: i < n < k && n != j ==> !EmulationMoves(run[n], run[n + 1])
    requires EmulationMoves(run[j], run[j + 1]) && EmulationMoves(run[k], run[k + 1])
    ensures run[i + 1].executed == run[i].executed + 1
    ensures run[j + 1].emulation == NotifyMain && run[j + 1].frame.vblankReady && !run[j + 1].frame.renderDone
    ensures run[k + 1].emulation == Parked && (run[k].main == Dozing ==> run[k + 1].main == WaitFrame)
    ensures run[k + 1].executed == run[i + 1].executed
  {
    hide EmulationStep, EmulationMoves, IsRun;
    Signals(run[i], run[i + 1]);
    StaysAwake(run, i + 1, j);
    OffersFrame(run[j], run[j + 1]);
    StaysAwake(run, j + 1, k);
    Parks(run[k], run[k + 1]);
  }

  lemma Signals(s: State, next: State)
    requires s.emulation == Execute && EmulationStep(s, Vblank) == Some(next)
    ensures next == s.(emulation := SignalFrame, executed := s.executed + 1)
  {
  }

  lemma OffersFrame(s: State, next: State)
    requires s.emulation == SignalFrame && EmulationMoves(s, next)
    ensures next == s.(emulation := NotifyMain, frame := Frame(s.frame.running, true, false))
  {
  }

  lemma Parks(s: State, next: State)
    requires s.emulation == NotifyMain && EmulationMoves(s, next)
    ensures next == s.(emulation := Parked, main := if s.main == Dozing then WaitFrame else s.main)
  {
  }

  /** The main thread lets a frame go. */
  predicate LetsGo(s: State, next: State) {
    s.main == Release && next.main != Release
  }

  /** The emulation thread is bound by the frame it offers, or on its way out. */
  predicate Bound(s: State) {
    || s.emulation == SignalFrame
    || (AtFrame(s) && (!s.frame.renderDone || !s.frame.running))
    || ((s.emulation == LoopTop || s.emulation == Exited) && !s.frame.running)
  }

  lemma EmulationStaysBound(s: State, next: State)
    requires EmulationMoves(s, next) && Bound(s)
    ensures Bound(next) && next.executed == s.executed
  {
  }

  lemma MainLeavesBound(s: State, next: State)
    requires FrameInv(s) && MainMoves(s, next) && Bound(s) && !LetsGo(s, next)
    ensures Bound(next) && next.executed == s.executed
  {
  }

  /** Over any interleaving: once a vertical blank is signalled, no instruction is executed
      before the main thread lets a frame go, whatever else happens. */
  lemma {:induction false} NoExecutionBeforeRelease(run: seq<State>, i: nat, j: nat)
    requires IsRun(run) && i <= j < |run| && run[i].emulation == SignalFrame
    requires forall k :: i <= k < j ==> !LetsGo(run[k], run[k + 1])
    ensures run[j].executed == run[i].executed && Bound(run[j])
    decreases j - i
  {
    hide EmulationMoves, MainMoves, IsRun, Bound, LetsGo, FrameInv, ConditionInv;
    if i == j {
      SignalIsBound(run[i]);
    } else {
      NoExecutionBeforeRelease(run, i, j - 1);
      RunKeeps(run, j - 1);
      SomeoneMoves(run, j - 1);
      assert !LetsGo(run[j - 1], run[j - 1 + 1]);
      if EmulationMoves(run[j - 1], run[j]) {
        EmulationStaysBound(run[j - 1], run[j]);
      } else {
        MainLeavesBound(run[j - 1], run[j]);
      }
    }
  }

  lemma SignalIsBound(s: State)
    requires s.emulation == SignalFrame
    ensures Bound(s)
  {
  }

  // ---------------------------------------------------------------- it does happen

  /** The threads together can get from one state to the other. */
  ghost predicate Reaches(s: State, t: State) {
    exists run :: From(run, s) && run[|run| - 1] == t
  }

  ghost predicate From(run: seq<State>, s: State) {
    |run| > 0 && run[0] == s && forall i {:trigger run[i]} :: 0 <= i < |run| - 1 ==> Step(run[i], run[i + 1])
  }

  lemma Stays(s: State)
    ensures Reaches(s, s)
  {
    hide Step;
    assert From([s], s) && [s][|[s]| - 1] == s;
  }

  lemma GoesOn(s: State, t: State, u: State)
    requires Reaches(s, t) && Step(t, u)
    ensures Reaches(s, u)
  {
    hide Step;
    var run :| From(run, s) && run[|run| - 1] == t;
    var more := run + [u];
    forall i | 0 <= i < |more| - 1
      ensures Step(more[i], more[i + 1])
    {
      if i < |run| - 1 {
        assert Step(run[i], run[i + 1]);
      }
    }
    assert From(more, s) && more[|more| - 1] == u;
  }

  lemma {:induction false} AloneReaches(s: State, t: State, choices: seq<Choice>)
    requires Reaches(s, t) && Alone(t, choices).Some?
    ensures Reaches(s, Alone(t, choices).value)
    decreases |choices|
  {
    hide Reaches, EmulationStep;
    if choices != [] {
      var next := EmulationStep(t, choices[0]).value;
      assert Step(t, next);
      GoesOn(s, t, next);
      AloneReaches(s, next, choices[1..]);
    }
  }

  lemma {:induction false} MainAloneReaches(s: State, t: State, choices: seq<MainChoice>)
    requires Reaches(s, t) && MainAlone(t, choices).Some?
    ensures Reaches(s, MainAlone(t, choices).value)
    decreases |choices|
  {
    hide Reaches, MainStep;
    if choices != [] {
      var next := MainStep(t, choices[0]).value;
      assert Step(t, next);
      GoesOn(s, t, next);
      MainAloneReaches(s, next, choices[1..]);
    }
  }

  /** The user starts a condition. */
  lemma Starts(s: State) returns (t: State)
    requires s.main == PollEvents && !s.frame.vblankReady
    ensures Reaches(s, t)
    ensures t == s.(gotFrame := false, current := Changed(s.current, Some(s.current.changes + 1))
                                                  .(resetPending := true))
  {
    hide Reaches, Changed;
    var waiting := s.(main := WaitFrame);
    var dozing := s.(main := Dozing, gotFrame := false);
    var drawing := s.(main := Render, gotFrame := false);
    t := s.(gotFrame := false, current := Changed(s.current, Some(s.current.changes + 1)).(resetPending := true));
    assert Goes(s, Continue, waiting) && Goes(waiting, Continue, dozing) && Goes(dozing, Continue, drawing);
    assert Goes(drawing, SetCondition(true), t.(main := Render)) && Goes(t.(main := Render), Continue, t);
    Stays(s);
    GoesAlong(s, s, Continue, waiting);
    GoesAlong(s, waiting, Continue, dozing);
    GoesAlong(s, dozing, Continue, drawing);
    GoesAlong(s, drawing, SetCondition(true), t.(main := Render));
    GoesAlong(s, t.(main := Render), Continue, t);
  }

  lemma GoesAlong(s: State, t: State, c: MainChoice, next: State)
    requires Reaches(s, t) && Goes(t, c, next)
    ensures Reaches(s, next)
  {
    hide Reaches, MainStep;
    assert Step(t, next);
    GoesOn(s, t, next);
  }

  /** A run in which all of it happens: from the start, a condition is started and run, a vertical
      blank hands over its frame, the main thread really holds it while the emulation thread
      sleeps, lets it go, and the next instruction is executed afterwards. */
  lemma FramesAreShown() returns (start: State, held: State, resumed: State)
    ensures Initial(start) && Reaches(start, held) && Reaches(held, resumed)
    ensures Holding(held) && held.emulation == Sleeping && held.executed == 1
    ensures !Holding(resumed) && resumed.executed == 2
  {
    hide Reaches, Alone, MainAlone, Changed;
    start := State(Frame(true, false, false), Current(None, 0, false, 0), Taken(None, 0, 0), LoopTop, PollEvents,
                   false, 0);
    var started := Starts(start);
    SetIsSome(start.current);
    TakesUp(started, Holds, Holds, Holds, Holds);
    AloneReaches(start, started, [Holds] + [Holds] + [Holds] + [Holds]);
    var running := Alone(started, [Holds] + [Holds] + [Holds] + [Holds]).value;
    HandsOver(running, Holds, Holds, Holds);
    AloneReaches(start, running, [DoesNotHold] + [Vblank] + [Holds] + [Holds] + [Holds]);
    var asleep := Alone(running, [DoesNotHold] + [Vblank] + [Holds] + [Holds] + [Holds]).value;
    var waiting := asleep.(main := WaitFrame);
    held := asleep.(main := UpdateVideo, gotFrame := true, frame := Frame(true, false, false));
    GoesAlong(start, asleep, Continue, waiting);
    GoesAlong(start, waiting, Continue, held);
    resumed := Resumes(held);
  }

  lemma SetIsSome(current: Current)
    ensures Changed(current, Some(current.changes + 1)).condition.Some?
  {
  }

  lemma Resumes(held: State) returns (resumed: State)
    requires held.main == UpdateVideo && held.gotFrame && held.emulation == Sleeping && held.frame.running
    requires held.current.condition.Some?
    ensures Reaches(held, resumed) && !Holding(resumed) && resumed.executed == held.executed + 1
  {
    hide Reaches, Alone, MainAlone, Changed;
    var drawn := held.(main := Render);
    var letting := held.(main := Release);
    var free := held.(main := PollEvents, gotFrame := false, emulation := Parked,
                      frame := held.frame.(renderDone := true));
    Stays(held);
    GoesAlong(held, held, Continue, drawn);
    GoesAlong(held, drawn, Continue, letting);
    GoesAlong(held, letting, Continue, free);
    AloneOnce(free, Holds);
    AloneReaches(held, free, [Holds]);
    var top := free.(emulation := LoopTop);
    TakesUp(top, Holds, Holds, Holds, Holds);
    AloneReaches(held, top, [Holds] + [Holds] + [Holds] + [Holds]);
    var running := Alone(top, [Holds] + [Holds] + [Holds] + [Holds]).value;
    ExecutesOneByOne(running, 1);
    AloneReaches(held, running, Instructions(1));
    resumed := running.(executed := running.executed + 1);
  }
}
