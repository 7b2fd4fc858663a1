/** The recompiler from end to end: analyse the ROM, emit the functions that were found. */
module Recompiler {
  import opened Words
  import opened CodeGraph
  import opened Lifter
  import opened Machine
  import opened Lifted
  import Analyzer

  /** Started at any function, the emitted program can execute exactly the sequences of
      instructions that the machine can. */
  ghost predicate SameMeaning(p: Program, functions: map<Long, Function>, prog: Texts) {
    forall e, trace :: e in functions ==>
      (Follows(p, functions.Keys, State(e, []), trace) <==> Executes(functions, prog, e, trace))
  }

  ghost predicate Executes(functions: map<Long, Function>, prog: Texts, e: Long, trace: seq<Long>) {
    e in prog
    && exists choices ::
         Resolved(functions, choices) && trace <= Trace(prog, Thread(Frame(e, prog[e]), []), choices)
  }

  method Recompile(p: Program) returns (functions: map<Long, Function>, prog: Texts)
    requires Loadable(p)
    ensures Complete(p, functions) && IsProgram(p, functions, prog)
    ensures forall a :: Covered(functions, a) <==> Reach(p, a) && Good(p, a)
    ensures WellLaid(p, functions) ==> SameMeaning(p, functions, prog)
  {
    hide Reach, Good, Complete, IsText, Covered, WellLaid, Follows, Trace;
    var analyzer := new Analyzer.Analyzer(p);
    functions := analyzer.Run(false);
    prog := EmitProgram(p, functions);
    if WellLaid(p, functions) {
      forall e, trace | e in functions
        ensures Follows(p, functions.Keys, State(e, []), trace) <==> Executes(functions, prog, e, trace)
      {
        TextIsTheMachine(p, functions, prog, e, trace);
      }
    }
  }
}
