/** The assembler and the executor together, against the source semantics. */
module WholeSystem {
  import opened Prelude
  import opened Int64
  import opened Opcodes
  import opened Machine
  import opened Source
  import opened Compiler
  import opened CompilerProof
  import opened Simulation
  import opened Preservation
  import opened OptimiserTheorem
  import opened Pipeline
  import opened Assembling
  import opened Executing

  /** What a finished run leaves in the context, in terms of the source call; `below` is what lay under the arguments. */
  predicate Answers(r: CallResult, success: bool, st: Stack, below: Stack, exc: bool, x: Value)
  {
    || r.CallUndefined?
    || (success && !exc && st.Push? && st.top.Operand? && st.below == below && r == Result(st.top.v))
    || (success && exc && st == below && r == Exception(x))
    || (!success && r.CallAborts?)
  }

  /** Slots are in range and no pass of the optimiser is unsound, for every function. */
  predicate Assemblable(src: Source)
  {
    forall f :: 0 <= f < |src| ==>
      SlotsBelow(CompileBody(src[f].body), src[f].sig.slots) &&
      SoundThroughout(CompileBody(src[f].body), src[f].sig.argc, src[f].sig.slots)
  }

  predicate HasWords(fn: SrcFunc)
  {
    SlotsBelow(CompileBody(fn.body), fn.sig.slots) && AssembledWords(fn.body, fn.sig).Some?
  }

  /** Assemble every function; none if one of them gets no words. */
  method AssembleAll(src: Source) returns (q: Option<Program>)
    requires Assemblable(src)
    ensures q.Some? <==> forall f :: 0 <= f < |src| ==> HasWords(src[f])
    ensures q.Some? ==> Built(src, q.value)
  {
    hide SoundThroughout, SlotsBelow, CompileBody, AssembledWords;
    var done: Program := [];
    for f := 0 to |src|
      invariant |done| == f && forall k :: 0 <= k < f ==> HasWords(src[k]) && FuncBuilt(src[k], done[k])
    {
      var assembler := new Assembler();
      var ok, words := assembler.Assemble(src[f].body, src[f].sig);
      assert ok <==> HasWords(src[f]);
      if !ok {
        return None;
      }
      done := done + [Func(src[f].sig, Words(words[..]))];
    }
    q := Some(done);
  }

  lemma BuiltWords(src: Source, q: Program)
    requires Built(src, q)
    ensures AllWords(q) && |q| == |src| && forall f :: 0 <= f < |src| ==> q[f].sig == src[f].sig
  {
    hide SoundThroughout, SlotsBelow, CompileBody, AssembledWords;
    forall f: nat | f < |q| ensures q[f].code.Words? && q[f].sig == src[f].sig {
      assert FuncBuilt(src[f], q[f]);
    }
  }

  lemma FinishedAnswers(src: Source, q: Program, f: nat, vs: List<Value>, below: Stack, n: nat, success: bool,
                        st: Stack, exc: bool, x: Value)
    requires Built(src, q) && Callable(q, f, Length(vs))
    requires Explains(q, Enter(q, f, vs, Bottom, below), n, Bottom, below, Finished(success), st, exc, x)
    ensures exists fuel: nat :: !CallFunction(src, f, vs, fuel).CallTimesOut? &&
                                Answers(CallFunction(src, f, vs, fuel), success, st, below, exc, x)
  {
    hide StepN, Enter, CallFunction, Built;
    var t := StepN(q, Enter(q, f, vs, Bottom, below), n);
    assert Ends(q, Enter(q, f, vs, Bottom, below), t);
    AssembledCorrect(src, q, f, vs, below, t);
    var fuel: nat :| var r := CallFunction(src, f, vs, fuel);
                     !r.CallTimesOut? && (r.CallUndefined? || t == Final(r, below));
    assert Answers(CallFunction(src, f, vs, fuel), success, st, below, exc, x);
  }

  /**
   A function of an assembled program, called with its arguments on the stack: when the executor finishes, the
   result, the exception or the failure is the source call's, unless that leaves the fragment. It stops before only
   where the machine still runs after as many steps as the limit allows.
   */
  method CallAssembled(ghost src: Source, q: Program, f: nat, argCount: nat, context: Context, limit: nat)
    returns (out: Outcome, left: nat)
    requires Built(src, q) && Callable(q, f, argCount) && !context.exception
    modifies context
    ensures out.Finished? ==>
      PopArgs(argCount, old(context.stack), Nil).Some? &&
      var (vs, below) := PopArgs(argCount, old(context.stack), Nil).value;
      exists fuel: nat :: !CallFunction(src, f, vs, fuel).CallTimesOut? &&
                          Answers(CallFunction(src, f, vs, fuel), out.success, context.stack, below,
                                  context.exception, context.exceptionValue)
    ensures out == Outside && PopArgs(argCount, old(context.stack), Nil).Some? ==>
      var (vs, _) := PopArgs(argCount, old(context.stack), Nil).value;
      exists fuel: nat :: CallFunction(src, f, vs, fuel).CallUndefined?
    ensures out == Stopped ==>
      PopArgs(argCount, old(context.stack), Nil).Some? && left == 0 &&
      var (vs, below) := PopArgs(argCount, old(context.stack), Nil).value;
      StepN(q, Enter(q, f, vs, Bottom, below), limit).Running?
  {
    hide StepN, Enter, CallFunction, Built, PopArgs;
    BuiltWords(src, q);
    PopArgsLength(argCount, context.stack, Nil);
    ghost var popped := PopArgs(argCount, context.stack, Nil);
    out, left := Run(q, f, argCount, context, 0, Bottom, limit);
    if out.Finished? {
      FinishedAnswers(src, q, f, popped.value.0, popped.value.1, limit - left, out.success,
                      context.stack, context.exception, context.exceptionValue);
    } else if out == Outside && popped.Some? {
      LeftFragment(src, q, f, popped.value.0, popped.value.1, limit - left);
    }
  }

  lemma LeftFragment(src: Source, q: Program, f: nat, vs: List<Value>, below: Stack, n: nat)
    requires Built(src, q) && Callable(q, f, Length(vs))
    requires StepN(q, Enter(q, f, vs, Bottom, below), n) == Undefined
    ensures exists fuel: nat :: CallFunction(src, f, vs, fuel).CallUndefined?
  {
    hide StepN, Enter, CallFunction, Built;
    AssembledCorrect(src, q, f, vs, below, Undefined);
    var fuel: nat :| var r := CallFunction(src, f, vs, fuel);
                     !r.CallTimesOut? && (r.CallUndefined? || Undefined == Final(r, below));
    assert CallFunction(src, f, vs, fuel).CallUndefined?;
  }
}
