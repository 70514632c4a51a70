/** From a source program to the words that run: everything the assembler does, put together. */
module Pipeline {
  import opened Prelude
  import opened Int64
  import opened Opcodes
  import opened Machine
  import opened Source
  import opened Compiler
  import opened CompilerProof
  import opened Simulation
  import opened WellFormedCode
  import opened Preservation
  import opened Optimiser
  import opened OptimiserProof
  import opened OptimiserTheorem
  import Layout

  /** A function's words: compiled, optimised and laid out. */
  function AssembledWords(body: Block, sig: Sig): Option<seq<nat>>
    requires SlotsBelow(CompileBody(body), sig.slots)
  {
    match Optimised(CompileBody(body), sig.argc, sig.slots)
    case None => None
    case Some(d) => Layout.Laid(d)
  }

  // ----- all functions optimised -----

  /** Every function can be optimised, and is optimised soundly. */
  predicate Optimisable(p: Program)
  {
    Assembled(p) && forall f :: 0 <= f < |p| ==> FuncOptimisable(p[f])
  }

  predicate FuncOptimisable(fn: Func)
  {
    fn.code.Indexed? && SlotsBelow(fn.code.instrs, fn.sig.slots) &&
    SoundThroughout(fn.code.instrs, fn.sig.argc, fn.sig.slots) &&
    Optimised(fn.code.instrs, fn.sig.argc, fn.sig.slots).Some?
  }

  function OptimisedFunc(fn: Func): Func
    requires FuncOptimisable(fn)
  {
    Func(fn.sig, Indexed(Optimised(fn.code.instrs, fn.sig.argc, fn.sig.slots).value))
  }

  /** The program with its first n functions optimised. */
  function OptimisedTo(p: Program, n: nat): (q: Program)
    requires Optimisable(p)
    ensures |q| == |p|
  {
    seq(|p|, f requires 0 <= f < |p| => if f < n then OptimisedFunc(p[f]) else p[f])
  }

  lemma {:induction false} OptimisedRefines(p: Program, n: nat)
    requires Optimisable(p) && n <= |p|
    ensures Assembled(OptimisedTo(p, n)) && Refines(p, OptimisedTo(p, n))
    decreases n
  {
    hide Refines, Optimised, SoundThroughout, SlotsBelow, WellFormed;
    if n == 0 {
      assert OptimisedTo(p, 0) == p;
      RefinesItself(p);
    } else {
      OptimisedRefines(p, n - 1);
      var q := OptimisedTo(p, n - 1);
      assert q[n - 1] == p[n - 1] && FuncOptimisable(p[n - 1]);
      var d := OptimisedFunc(p[n - 1]).code.instrs;
      OptimiserCorrect(q, n - 1, d);
      assert WithCode(q, n - 1, d) == OptimisedTo(p, n);
      RefinesTransitive(p, q, OptimisedTo(p, n));
    }
  }

  // ----- from source to words -----

  /** q holds the words of every function of src, and none was optimised unsoundly. */
  predicate Built(src: Source, q: Program)
  {
    |q| == |src| &&
    forall f :: 0 <= f < |src| ==> FuncBuilt(src[f], q[f])
  }

  predicate FuncBuilt(fn: SrcFunc, g: Func)
  {
    SlotsBelow(CompileBody(fn.body), fn.sig.slots) &&
    SoundThroughout(CompileBody(fn.body), fn.sig.argc, fn.sig.slots) &&
    AssembledWords(fn.body, fn.sig).Some? &&
    g == Func(fn.sig, Words(AssembledWords(fn.body, fn.sig).value))
  }

  lemma BuiltRefines(src: Source, q: Program)
    requires Built(src, q)
    ensures Refines(Compiled(src), q)
  {
    hide Refines, Optimised, SoundThroughout, SlotsBelow, WellFormed, CompileBody, Layout.Laid;
    var p := Compiled(src);
    forall f: nat | f < |p| ensures p[f].code.Indexed? && WellFormed(p[f].code.instrs) && FuncOptimisable(p[f]) {
      CompiledWellFormed(src[f].body);
      assert FuncBuilt(src[f], q[f]);
    }
    var o := OptimisedTo(p, |p|);
    OptimisedRefines(p, |p|);
    forall f: nat | f < |p|
      ensures q[f].sig == o[f].sig && Layout.Laid(o[f].code.instrs).Some?
      ensures q[f].code == Words(Layout.Laid(o[f].code.instrs).value)
    {
      assert FuncBuilt(src[f], q[f]);
    }
    Layout.LayoutRefines(o, q);
    RefinesTransitive(p, o, q);
  }

  /** What a source call does, the assembled words do: every result, exception and failure. */
  lemma AssembledEnds(src: Source, q: Program, f: nat, vs: List<Value>, st: Stack, fuel: nat)
    requires Built(src, q) && Callable(q, f, Length(vs))
    requires var r := CallFunction(src, f, vs, fuel); !r.CallTimesOut? && !r.CallUndefined?
    ensures Ends(q, Enter(q, f, vs, Bottom, st), Final(CallFunction(src, f, vs, fuel), st))
  {
    hide Enter, Ends, CallFunction;
    BuiltRefines(src, q);
    CompiledEnds(src, f, vs, st, fuel);
    assert Agree(Compiled(src), q, f, vs, st, Final(CallFunction(src, f, vs, fuel), st));
  }

  /** And the assembled words do nothing else, unless the source call leaves the fragment. */
  lemma AssembledCorrect(src: Source, q: Program, f: nat, vs: List<Value>, st: Stack, end: State)
    requires Built(src, q) && Callable(q, f, Length(vs))
    requires Ends(q, Enter(q, f, vs, Bottom, st), end)
    ensures exists fuel: nat :: var r := CallFunction(src, f, vs, fuel);
              !r.CallTimesOut? && (r.CallUndefined? || end == Final(r, st))
  {
    hide Enter, Ends, CallFunction;
    var p := Compiled(src);
    BuiltRefines(src, q);
    assert Agree(p, q, f, vs, st, end);
    if Ends(p, Enter(p, f, vs, Bottom, st), end) {
      CompilerCorrect(src, f, vs, st, end);
    } else {
      CompilerCorrect(src, f, vs, st, Undefined);
      var fuel: nat :| var r := CallFunction(src, f, vs, fuel);
                       !r.CallTimesOut? && (r.CallUndefined? || Undefined == Final(r, st));
      assert CallFunction(src, f, vs, fuel).CallUndefined?;
    }
  }
}
