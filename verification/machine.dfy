/** The machine the recompiled code stands for: a program counter, a stack of return addresses
    that calls and returns match, and a free choice wherever a register or a flag decides.

    Its runs never leave the code the analyser found, except where there is none. */
module Machine {
  import opened Words
  import opened Decode
  import opened CodeGraph

  datatype State = State(pc: Long, stack: seq<Long>)

  /** One instruction.  A jump or call through a register goes to some known function; a branch
      to address zero, which the analyser takes for unknown, is not followed. */
  ghost predicate Step(p: Program, entries: set<Long>, m: State, next: State) {
    Good(p, m.pc)
    && var inst := InstAt(p.rom, m.pc).value;
       match inst.flow
       case Plain => next == State(inst.pcAfter, m.stack)
       case Return => m.stack != [] && next == State(m.stack[|m.stack| - 1], m.stack[..|m.stack| - 1])
       case Branch(target) => next == State(target, m.stack) || next == State(inst.pcAfter, m.stack)
       case Jump(target) => target != 0 && next == State(target, m.stack)
       case JumpIndirect => next.pc in entries && next.stack == m.stack
       case JumpUnknown => next.pc in entries && next.stack == m.stack
       case Call(target) => next == State(target, m.stack + [inst.pcAfter])
       case CallIndirect => next.pc in entries && next.stack == m.stack + [inst.pcAfter]
       case CallUnknown => next.pc in entries && next.stack == m.stack + [inst.pcAfter]
  }

  /** An interrupt between two instructions. */
  predicate Interrupt(p: Program, m: State, next: State) {
    Vector(p, next.pc) && next.stack == m.stack + [m.pc]
  }

  ghost predicate IsRun(p: Program, entries: set<Long>, run: seq<State>) {
    forall i :: 0 <= i < |run| - 1 ==> Step(p, entries, run[i], run[i + 1]) || Interrupt(p, run[i], run[i + 1])
  }

  /** Covered by a block, or outside the ROM, odd, or not an instruction. */
  ghost predicate Fine(p: Program, functions: map<Long, Function>, a: Long) {
    Good(p, a) ==> Covered(functions, a)
  }

  ghost predicate FineState(p: Program, functions: map<Long, Function>, m: State) {
    Fine(p, functions, m.pc) && forall i :: 0 <= i < |m.stack| ==> Fine(p, functions, m.stack[i])
  }

  lemma FineLeads(p: Program, functions: map<Long, Function>, a: Long, t: Long)
    requires Loadable(p) && Complete(p, functions) && Fine(p, functions, a) && Good(p, a) && Leads(p, a, t)
    ensures Fine(p, functions, t)
  {
    hide Good, Leads, Complete, Covered;
    if Good(p, t) {
      CoveredStep(p, functions, a, t);
    }
  }

  lemma FineEntry(p: Program, functions: map<Long, Function>, e: Long)
    requires Complete(p, functions) && e in functions
    ensures Fine(p, functions, e)
  {
    hide Good, Traced, Covered, Seed;
    if Good(p, e) {
      EntryIsCovered(p, functions, e);
    }
  }

  lemma FineVector(p: Program, functions: map<Long, Function>, v: Long)
    requires Complete(p, functions) && Vector(p, v)
    ensures Fine(p, functions, v)
  {
    hide Traced, Covered, Vector, TableTarget;
    if Good(p, v) {
      assert Seed(p, v);
      EntryIsCovered(p, functions, v);
    }
  }

  lemma StepStaysFine(p: Program, functions: map<Long, Function>, m: State, next: State)
    requires Loadable(p) && Complete(p, functions) && FineState(p, functions, m)
    requires Step(p, functions.Keys, m, next)
    ensures FineState(p, functions, next)
  {
    hide Fine, Complete, InstAt, SwitchTarget;
    var inst := InstAt(p.rom, m.pc).value;
    if Leads(p, m.pc, inst.pcAfter) {
      FineLeads(p, functions, m.pc, inst.pcAfter);
    }
    if Leads(p, m.pc, next.pc) {
      FineLeads(p, functions, m.pc, next.pc);
    }
    if next.pc in functions {
      FineEntry(p, functions, next.pc);
    }
  }

  lemma InterruptStaysFine(p: Program, functions: map<Long, Function>, m: State, next: State)
    requires Complete(p, functions) && FineState(p, functions, m) && Interrupt(p, m, next)
    ensures FineState(p, functions, next)
  {
    hide Fine, Complete, Vector;
    FineVector(p, functions, next.pc);
  }

  /** Every program counter a run from a known function visits, and every return address on
      its stack, is covered by some block or holds no instruction at all. */
  lemma {:induction false} RunIsCovered(p: Program, functions: map<Long, Function>, run: seq<State>, i: nat)
    requires Loadable(p) && Complete(p, functions) && IsRun(p, functions.Keys, run)
    requires i < |run| && run[0].pc in functions && run[0].stack == []
    ensures FineState(p, functions, run[i])
  {
    hide Step, Interrupt, Fine, Complete;
    if i == 0 {
      FineEntry(p, functions, run[0].pc);
    } else {
      RunIsCovered(p, functions, run, i - 1);
      assert Step(p, functions.Keys, run[i - 1], run[i - 1 + 1]) || Interrupt(p, run[i - 1], run[i - 1 + 1]);
      if Step(p, functions.Keys, run[i - 1], run[i]) {
        StepStaysFine(p, functions, run[i - 1], run[i]);
      } else {
        InterruptStaysFine(p, functions, run[i - 1], run[i]);
      }
    }
  }

  // ---------------------------------------------------------------- traces

  /** From m the machine can execute exactly these instructions, one after the other. */
  ghost predicate Follows(p: Program, entries: set<Long>, m: State, trace: seq<Long>)
    decreases |trace|
  {
    trace == []
    || (trace[0] == m.pc && Good(p, m.pc)
        && (|trace| == 1 || exists next :: Step(p, entries, m, next) && Follows(p, entries, next, trace[1..])))
  }

  lemma {:induction false} FollowsPrefix(p: Program, entries: set<Long>, m: State, trace: seq<Long>, n: nat)
    requires Follows(p, entries, m, trace) && n <= |trace|
    ensures Follows(p, entries, m, trace[..n])
    decreases n
  {
    hide Step, Good;
    if n > 1 {
      var next :| Step(p, entries, m, next) && Follows(p, entries, next, trace[1..]);
      FollowsPrefix(p, entries, next, trace[1..], n - 1);
      assert trace[1..][..n - 1] == trace[..n][1..];
    }
  }
}
