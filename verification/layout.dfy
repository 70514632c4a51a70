/** The layout pass, which turns a list of instructions into code words, and the walk that reads the words back. */
module Layout {
  import opened Prelude
  import opened Int64
  import opened Opcodes
  import opened Machine
  import opened Simulation
  import opened WellFormedCode
  import opened OptimiserProof
  import opened OptimiserTheorem
  import opened FrameDiscipline

  type Instrs = seq<Instr>

  /** The word address of instruction i. */
  function Address(c: Instrs, i: nat): nat
    requires i <= |c|
  {
    if i == 0 then 0 else Address(c, i - 1) + 1 + |Args(c[i - 1])|
  }

  predicate TargetInRange(c: Instrs, i: Instr)
  {
    Target(i).Some? ==> Target(i).value < |c|
  }

  /** An instruction as it is emitted: its code address is the word address of its target. */
  function Emitted(c: Instrs, i: Instr): Instr
    requires TargetInRange(c, i)
  {
    match Target(i)
    case None => i
    case Some(t) => Retarget(i, Address(c, t))
  }

  predicate InRange(c: Instrs)
  {
    forall i :: 0 <= i < |c| ==> TargetInRange(c, c[i])
  }

  function WordsTo(c: Instrs, n: nat): (w: seq<nat>)
    requires InRange(c) && n <= |c|
    ensures |w| == Address(c, n)
  {
    if n == 0 then []
    else
      EmittedSize(c, c[n - 1]);
      WordsTo(c, n - 1) + Encode(Emitted(c, c[n - 1]))
  }

  lemma EmittedSize(c: Instrs, i: Instr)
    requires TargetInRange(c, i)
    ensures |Encode(Emitted(c, i))| == 1 + |Args(i)|
  {
  }

  /** The words of some instructions of a code. */
  function WordsFor(d: Instrs, c: Instrs): seq<nat>
    requires forall i :: 0 <= i < |d| ==> TargetInRange(c, d[i])
  {
    if d == [] then [] else WordsFor(d[..|d| - 1], c) + Encode(Emitted(c, d[|d| - 1]))
  }

  lemma {:induction false} WordsForAll(c: Instrs, n: nat)
    requires InRange(c) && n <= |c|
    ensures WordsFor(c[..n], c) == WordsTo(c, n)
  {
    if n > 0 {
      WordsForAll(c, n - 1);
      assert c[..n][..n - 1] == c[..n - 1];
    }
  }

  lemma WordsForNext(c: Instrs, n: nat)
    requires n < |c| && forall m :: 0 <= m <= n ==> TargetInRange(c, c[m])
    ensures WordsFor(c[..n + 1], c) == WordsFor(c[..n], c) + Encode(Emitted(c, c[n]))
  {
    assert c[..n + 1][..n] == c[..n];
  }

  lemma AddressNext(c: Instrs, n: nat)
    requires n < |c|
    ensures Address(c, n + 1) == Address(c, n) + 1 + |Args(c[n])|
  {
  }

  lemma AtStart(c: Instrs)
    ensures Address(c, 0) == 0 && WordsFor(c[..0], c) == []
  {
  }

  /** The words of a code; none if an address in it is out of range. */
  function Laid(c: Instrs): Option<seq<nat>>
  {
    if InRange(c) then Some(WordsTo(c, |c|)) else None
  }

  // ----- every instruction is fetched back from its address -----

  lemma {:induction false} AddressMonotone(c: Instrs, i: nat, j: nat)
    requires i <= j <= |c|
    ensures Address(c, i) + (j - i) <= Address(c, j)
  {
    if i < j {
      AddressMonotone(c, i, j - 1);
    }
  }

  lemma {:induction false} WordsAt(c: Instrs, n: nat, i: nat)
    requires InRange(c) && i < n <= |c|
    ensures Address(c, i + 1) <= Address(c, n)
    ensures WordsTo(c, n)[Address(c, i)..Address(c, i + 1)] == Encode(Emitted(c, c[i]))
  {
    hide Encode, Emitted, Args;
    var e := Encode(Emitted(c, c[n - 1]));
    EmittedSize(c, c[n - 1]);
    assert WordsTo(c, n) == WordsTo(c, n - 1) + e;
    if i < n - 1 {
      WordsAt(c, n - 1, i);
    }
  }

  lemma FetchWords(w: seq<nat>, a: nat, e: Instr)
    requires a + |Encode(e)| <= |w| && w[a..a + |Encode(e)|] == Encode(e)
    ensures Fetch(Words(w), a) == Some((e, a + |Encode(e)|))
  {
    EncodeRoundTrip(e);
    hide ArgCount, FromWords, Args, OpNumber;
    SplitWords(w, a, e);
  }

  lemma SplitWords(w: seq<nat>, a: nat, e: Instr)
    requires a + |Encode(e)| <= |w| && w[a..a + |Encode(e)|] == Encode(e)
    ensures |Encode(e)| == 1 + |Args(e)| && w[a] == OpNumber(e) && w[a + 1..a + 1 + |Args(e)|] == Args(e)
  {
    hide Args, OpNumber;
    var b := a + |Encode(e)|;
    assert w[a] == w[a..b][0];
    assert w[a + 1..b] == w[a..b][1..];
  }

  /** The machine fetches an emitted instruction from its word address, and the next one follows it. */
  lemma FetchEmitted(c: Instrs, i: nat)
    requires InRange(c) && i < |c|
    ensures Fetch(Words(WordsTo(c, |c|)), Address(c, i)) == Some((Emitted(c, c[i]), Address(c, i + 1)))
  {
    hide Encode, Emitted, Args, Fetch, WordsTo;
    WordsAt(c, |c|, i);
    EmittedSize(c, c[i]);
    FetchWords(WordsTo(c, |c|), Address(c, i), Emitted(c, c[i]));
  }

  // ----- the words run as the list does -----

  function LayoutCert(c: Instrs): Cert
  {
    Cert(seq(|c| + 1, i requires 0 <= i <= |c| => Address(c, i)), {}, {}, map[])
  }

  lemma LayoutCertified(c: Instrs, argc: nat)
    requires WellFormed(c)
    ensures InRange(c) && Certifies(c, argc, Words(WordsTo(c, |c|)), LayoutCert(c))
    ensures forall pc :: 0 <= pc < |c| ==> Kept(c, Words(WordsTo(c, |c|)), LayoutCert(c), pc)
  {
    hide WellFormed, CleanTargets, KnownWrites, WordsTo, InRange, Kept, Address;
    WellFormedInRange(c);
    WellFormedClean(c);
    NothingKnown(c, argc);
    assert Address(c, 0) == 0 by { AddressZero(c); }
    forall pc: nat | pc < |c| ensures Kept(c, Words(WordsTo(c, |c|)), LayoutCert(c), pc) {
      KeptEmitted(c, pc);
    }
  }

  lemma AddressZero(c: Instrs)
    ensures Address(c, 0) == 0
  {
  }

  lemma KeptEmitted(c: Instrs, pc: nat)
    requires InRange(c) && pc < |c|
    ensures Kept(c, Words(WordsTo(c, |c|)), LayoutCert(c), pc)
  {
    hide Fetch, WordsTo, Stands, InRange, Emitted, Address;
    FetchEmitted(c, pc);
    EmittedStands(c, pc);
  }

  lemma WellFormedInRange(c: Instrs)
    requires WellFormed(c)
    ensures InRange(c)
  {
    forall i: nat | i < |c| ensures TargetInRange(c, c[i]) {
      assert Sound(c, 0, i);
    }
  }

  lemma EmittedStands(c: Instrs, pc: nat)
    requires InRange(c) && pc < |c|
    ensures Stands(c, LayoutCert(c), pc, Emitted(c, c[pc]))
  {
    assert TargetInRange(c, c[pc]);
  }

  /** Every function of q is the layout of p's. */
  predicate LaidOut(p: Program, q: Program)
  {
    Assembled(p) && |p| == |q| &&
    forall f :: 0 <= f < |p| ==>
      q[f].sig == p[f].sig && Laid(p[f].code.instrs).Some? && q[f].code == Words(Laid(p[f].code.instrs).value)
  }

  function LayoutCerts(p: Program): Certs
    requires Assembled(p)
  {
    seq(|p|, f requires 0 <= f < |p| => LayoutCert(p[f].code.instrs))
  }

  lemma LaidOutTransforms(p: Program, q: Program)
    requires LaidOut(p, q)
    ensures Transforms(p, q, LayoutCerts(p))
  {
    hide Certifies, WellFormed, WordsTo, InRange;
    forall f: nat | f < |p|
      ensures Certifies(p[f].code.instrs, p[f].sig.argc, q[f].code, LayoutCerts(p)[f])
    {
      LayoutCertified(p[f].code.instrs, p[f].sig.argc);
    }
  }

  /** The word layout refines the instruction list. */
  lemma LayoutRefines(p: Program, q: Program)
    requires LaidOut(p, q)
    ensures Refines(p, q)
  {
    hide Refines, Transforms;
    LaidOutTransforms(p, q);
    TransformsRefines(p, q, LayoutCerts(p));
  }

  lemma LockStepOnce(p: Program, q: Program, s: State, t: State)
    requires LaidOut(p, q) && Inv(p, LayoutCerts(p), s) && Same(LayoutCerts(p), s, t)
    ensures Same(LayoutCerts(p), Step(p, s), Step(q, t))
  {
    hide Transfer, Operate, Transforms, Certifies, WellFormed, CallersOk, SameCallers, SameBody, BodyOk, TopOk, WordsTo;
    LaidOutTransforms(p, q);
    var ks := LayoutCerts(p);
    if s.Running? {
      assert s.frame.f < |p| && s.frame.f == t.frame.f by {
        SameBodyParts(ks, s.frame, t.frame);
        InvParts(p, ks, s);
      }
      var c := p[s.frame.f].code.instrs;
      if s.frame.pc < |c| {
        LayoutCertified(c, p[s.frame.f].sig.argc);
        KeptSame(p, q, ks, s.frame, s.callers, t.frame, t.callers, s.stack);
      } else {
        assert s.frame.pc == |c|;
        RunOff(p, s);
      }
    }
  }

  lemma InvParts(p: Program, ks: Certs, s: State)
    requires Inv(p, ks, s) && s.Running?
    ensures s.frame.f < |p|
  {
  }

  // What leaves the fragment on the list does so on the words.

  lemma {:induction false} UnwindLeaves(ks: Certs, x: Value, a: Frame, cs: Frames, b: Frame, ds: Frames, st: Stack)
    requires SameBody(ks, a, b) && SameCallers(ks, cs, ds) && Unwind(x, a, cs, st).Undefined?
    ensures Unwind(x, b, ds, st).Undefined?
    decreases cs
  {
    if |a.handlers| == 0 {
      if PopToMarker(st).Some? && cs.Caller? {
        UnwindLeaves(ks, x, cs.frame, cs.below, ds.frame, ds.below, PopToMarker(st).value);
      }
    } else {
      var k := |a.handlers| - 1;
      assert SameHandler(ks[a.f], a.handlers[k], b.handlers[k]);
    }
  }

  lemma TransferLeaves(p: Program, q: Program, ks: Certs, i: Instr, t: nat, next: nat, after: nat,
                       a: Frame, cs: Frames, b: Frame, ds: Frames, st: Stack)
    requires |p| == |q| && (forall f :: 0 <= f < |p| ==> q[f].sig == p[f].sig) && Control(i)
    requires SameBody(ks, a, b) && SameCallers(ks, cs, ds) && Transfer(p, i, next, a, cs, st).Undefined?
    ensures var j := if Target(i).Some? then Retarget(i, t) else i;
      Transfer(q, j, after, b, ds, st).Undefined?
  {
    hide Unwind, PopArgs, NewFrame, ReturnFrom, SameCallers;
    SameBodyParts(ks, a, b);
    if i.Return? && st.Push? && st.top.Operand? {
      ReturnLeaves(st.top.v, cs, ds, st.below);
    }
    if i.Throw? && st.Push? && st.top.Operand? {
      UnwindLeaves(ks, Exc(st.top.v), a.(pc := next), cs, b.(pc := after), ds, st.below);
    }
  }

  lemma ReturnLeaves(v: Value, cs: Frames, ds: Frames, st: Stack)
    ensures ReturnFrom(v, cs, st).Undefined? ==> ReturnFrom(v, ds, st).Undefined?
  {
  }

  lemma StepLeaves(p: Program, q: Program, s: State, t: State)
    requires LaidOut(p, q) && Inv(p, LayoutCerts(p), s) && Same(LayoutCerts(p), s, t)
    requires s.Running? && Step(p, s).Undefined?
    ensures Step(q, t).Undefined?
  {
    hide Transfer, Operate, Fetch, WellFormed, CallersOk, SameCallers, SameBody, BodyOk, TopOk, WordsTo, Address;
    var ks := LayoutCerts(p);
    SameBodyParts(ks, s.frame, t.frame);
    InvParts(p, ks, s);
    var c, pc := p[s.frame.f].code.instrs, s.frame.pc;
    var w := WordsTo(c, |c|);
    assert t.frame.pc == Address(c, pc);
    IndexedFetch(c, pc);
    if pc < |c| {
      FetchEmitted(c, pc);
      LocalsSame(ks, s.frame, t.frame);
      if Control(c[pc]) {
        var target := if Target(c[pc]).Some? then Address(c, Target(c[pc]).value) else 0;
        TransferLeaves(p, q, ks, c[pc], target, pc + 1, Address(c, pc + 1), s.frame, s.callers, t.frame, t.callers,
                       s.stack);
      }
    } else {
      WordsEnd(w);
    }
  }

  lemma WordsEnd(w: seq<nat>)
    ensures Fetch(Words(w), |w|) == None
  {
  }

  lemma LocalsSame(ks: Certs, a: Frame, b: Frame)
    requires SameBody(ks, a, b) && ks[a.f].dead == {}
    ensures a.locals == b.locals && a.flags == b.flags
  {
  }

  /** The same state, also outside the fragment. */
  predicate Exactly(ks: Certs, s: State, t: State)
  {
    Same(ks, s, t) && (s.Undefined? <==> t.Undefined?)
  }

  /**
   The word machine runs step for step with the list machine: after any number of steps its pc is the word
   address of the list machine's pc, in the running frame, in every caller and in every handler.
   */
  lemma {:induction false} LockStep(p: Program, q: Program, s: State, t: State, n: nat)
    requires LaidOut(p, q) && Inv(p, LayoutCerts(p), s) && Exactly(LayoutCerts(p), s, t)
    ensures Exactly(LayoutCerts(p), StepN(p, s, n), StepN(q, t, n))
    decreases n
  {
    hide Step, Inv, Same, Laid, Transforms, WellFormed;
    if n > 0 {
      LaidOutTransforms(p, q);
      LockStepOnce(p, q, s, t);
      StepExactly(p, q, s, t);
      StepInv(p, q, LayoutCerts(p), s);
      LockStep(p, q, Step(p, s), Step(q, t), n - 1);
    }
  }

  lemma StepExactly(p: Program, q: Program, s: State, t: State)
    requires LaidOut(p, q) && Inv(p, LayoutCerts(p), s) && Exactly(LayoutCerts(p), s, t)
    requires Same(LayoutCerts(p), Step(p, s), Step(q, t))
    ensures Exactly(LayoutCerts(p), Step(p, s), Step(q, t))
  {
    if s.Running? && Step(p, s).Undefined? {
      StepLeaves(p, q, s, t);
    }
    hide LaidOut, Inv, Execute;
  }

  /** The word machine dispatches only at instruction starts. */
  lemma DispatchesAtStarts(p: Program, q: Program, f: nat, vs: List<Value>, st: Stack, n: nat)
    requires LaidOut(p, q) && f < |p| && Callable(p, f, Length(vs))
    ensures var t := StepN(q, Enter(q, f, vs, Bottom, st), n);
      t.Running? ==>
        t.frame.f < |p| &&
        exists i :: 0 <= i < |p[t.frame.f].code.instrs| && t.frame.pc == Address(p[t.frame.f].code.instrs, i)
  {
    hide Enter, StepN, Laid, Inv, SameCallers, WellFormed, Transforms;
    var ks := LayoutCerts(p);
    LaidOutTransforms(p, q);
    var s0, t0 := Enter(p, f, vs, Bottom, st), Enter(q, f, vs, Bottom, st);
    EnterInv(p, q, ks, f, vs, Bottom, st);
    EnterSame(p, q, ks, f, vs, st);
    EnterRuns(p, f, vs, st);
    EnterRuns(q, f, vs, st);
    LockStep(p, q, s0, t0, n);
    var s, t := StepN(p, s0, n), StepN(q, t0, n);
    if t.Running? {
      CallShaped(p, f, vs, st, n);
      assert t.frame.pc == ks[s.frame.f].places[s.frame.pc];
    }
  }

  lemma EnterRuns(p: Program, f: nat, vs: List<Value>, st: Stack)
    requires f < |p|
    ensures Enter(p, f, vs, Bottom, st).Running?
  {
  }

  // ----- the disassembler -----

  datatype Entry = Entry(address: nat, op: nat, args: seq<nat>)

  /** The words from `pos` on split into whole instructions. */
  predicate Whole(w: seq<nat>, pos: nat)
    decreases |w| - pos
  {
    pos < |w| ==> pos + 1 + ArgCount(w[pos]) <= |w| && Whole(w, pos + 1 + ArgCount(w[pos]))
  }

  /** What the walk lists: the opcode at pos, and then whatever follows its arguments. */
  function Walk(w: seq<nat>, pos: nat): seq<Entry>
    requires Whole(w, pos)
    decreases |w| - pos
  {
    if pos >= |w| then []
    else
      var next := pos + 1 + ArgCount(w[pos]);
      [Entry(pos, w[pos], w[pos + 1..next])] + Walk(w, next)
  }

  /** The listing of the instructions that the words were laid out from. */
  function Listing(c: Instrs, i: nat): seq<Entry>
    requires InRange(c) && i <= |c|
    decreases |c| - i
  {
    if i == |c| then []
    else [Entry(Address(c, i), OpNumber(c[i]), Args(Emitted(c, c[i])))] + Listing(c, i + 1)
  }

  /** The walk lists exactly the instructions, each at its address. */
  lemma {:induction false} WalkLists(c: Instrs, i: nat)
    requires InRange(c) && i <= |c|
    ensures Whole(WordsTo(c, |c|), Address(c, i))
    ensures Walk(WordsTo(c, |c|), Address(c, i)) == Listing(c, i)
    decreases |c| - i
  {
    hide Encode, Emitted, Args, WordsTo, ArgCount, OpNumber, Address, InRange;
    if i < |c| {
      WalkLists(c, i + 1);
      AddressMonotone(c, i + 1, |c|);
      WordsHere(c, i);
    }
  }

  lemma WordsHere(c: Instrs, i: nat)
    requires InRange(c) && i < |c|
    ensures var w, a, e := WordsTo(c, |c|), Address(c, i), Args(Emitted(c, c[i]));
      Address(c, i + 1) == a + 1 + |e| <= |w| && w[a] == OpNumber(c[i]) && w[a + 1..a + 1 + |e|] == e &&
      |e| == ArgCount(OpNumber(c[i]))
  {
    hide WordsTo, ArgCount, OpNumber, Args, Emitted, Encode;
    WordsAt(c, |c|, i);
    EmittedSize(c, c[i]);
    EmittedOp(c, c[i]);
    SplitWords(WordsTo(c, |c|), Address(c, i), Emitted(c, c[i]));
  }

  lemma EmittedOp(c: Instrs, i: Instr)
    requires TargetInRange(c, i)
    ensures OpNumber(Emitted(c, i)) == OpNumber(i) && |Args(Emitted(c, i))| == ArgCount(OpNumber(i))
  {
  }

  /** The instruction of an entry, its address argument turned back into an instruction index. */
  function Original(es: seq<Entry>, e: Entry): Option<Instr>
  {
    if |e.args| != ArgCount(e.op) then None
    else
      match FromWords(e.op, e.args)
      case None => None
      case Some(i) =>
        match Target(i)
        case None => Some(i)
        case Some(a) =>
          var k := IndexOf(Addresses(es), a);
          if k < |es| then Some(Retarget(i, k)) else None
  }

  function Addresses(es: seq<Entry>): seq<nat>
  {
    seq(|es|, i requires 0 <= i < |es| => es[i].address)
  }

  lemma {:induction false} ListingAt(c: Instrs, i: nat, k: nat)
    requires InRange(c) && i + k < |c|
    ensures |Listing(c, i)| == |c| - i
    ensures Listing(c, i)[k] == Entry(Address(c, i + k), OpNumber(c[i + k]), Args(Emitted(c, c[i + k])))
    decreases k
  {
    hide Emitted, Args, OpNumber, Address, InRange;
    ListingSize(c, i);
    if k > 0 {
      ListingAt(c, i + 1, k - 1);
    }
  }

  lemma {:induction false} ListingSize(c: Instrs, i: nat)
    requires InRange(c) && i <= |c|
    ensures |Listing(c, i)| == |c| - i
    decreases |c| - i
  {
    hide Emitted, Args, OpNumber, Address, InRange;
    if i < |c| {
      ListingSize(c, i + 1);
    }
  }

  /** The listing determines the code: addresses are told apart, so every jump target is recovered. */
  lemma ListingDetermines(c: Instrs, k: nat)
    requires InRange(c) && k < |c|
    ensures |Listing(c, 0)| == |c| && Original(Listing(c, 0), Listing(c, 0)[k]) == Some(c[k])
  {
    hide Listing, ArgCount, FromWords, Args, OpNumber, Address;
    var es := Listing(c, 0);
    ListingAt(c, 0, k);
    EncodeRoundTrip(Emitted(c, c[k]));
    EmittedOp(c, c[k]);
    if Target(c[k]).Some? {
      var t := Target(c[k]).value;
      ListingAt(c, 0, t);
      var j := IndexOf(Addresses(es), Address(c, t));
      assert Addresses(es)[t] == es[t].address;
      if j < t {
        assert Addresses(es)[j] == es[j].address;
        ListingAt(c, 0, j);
        AddressMonotone(c, j, t);
      }
      assert j == t;
    }
  }
}
