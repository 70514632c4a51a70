/** Every pass of the optimiser is certified, so the whole of it changes no behaviour. */
module OptimiserProof {
  import opened Prelude
  import opened Int64
  import opened Opcodes
  import opened Machine
  import opened Simulation
  import opened WellFormedCode
  import opened Removal
  import opened Preservation
  import opened Optimiser

  /** What the optimiser needs of the code it is given; every pass keeps it. */
  predicate Ready(c: Instrs, slots: nat)
  {
    WellFormed(c) && SlotsBelow(c, slots)
  }

  lemma WellFormedClean(c: Instrs)
    requires WellFormed(c)
    ensures CleanTargets(c)
  {
    forall i | 0 <= i < |c| && Target(c[i]).Some? ensures CleanPc(c, Target(c[i]).value) {
      assert Sound(c, 0, i);
      LevelIsClean(c, Target(c[i]).value);
    }
  }

  lemma LevelIsClean(c: Instrs, t: nat)
    requires WellFormed(c) && t < |c| && Height(c, t) == 0
    ensures CleanPc(c, t)
  {
    if t > 0 {
      assert Sound(c, 0, t - 1);
    }
  }

  // ----- what the scan leaves of an instruction -----

  predicate Scanned(c: Instrs, j: nat, i: Instr)
    requires j < |c|
  {
    || i == c[j]
    || (c[j].Arith? && i == Arith(c[j].op, Integer))
    || (c[j].Not? && i == Not(Integer))
    || (j > 0 && c[j].LoadVar? && c[j - 1] == c[j] && i == Dup)
  }

  lemma {:induction false} ScanForm(c: Instrs, slots: nat, n: nat)
    requires SlotsBelow(c, slots) && n <= |c|
    ensures forall j :: 0 <= j < |c| ==> Scanned(c, j, ScanTo(c, slots, n).code[j])
    ensures forall j :: n < j < |c| ==> ScanTo(c, slots, n).code[j] == c[j]
  {
    if n > 0 {
      ScanForm(c, slots, n - 1);
      InferForm(c, ScanTo(c, slots, n - 1), n - 1);
      PairForm(c, Infer(ScanTo(c, slots, n - 1), n - 1), n - 1);
    }
  }

  lemma InferForm(c: Instrs, s: Scan, n: nat)
    requires Scannable(s) && n < |c| == |s.code| && Scanned(c, n, s.code[n])
    ensures Scanned(c, n, Infer(s, n).code[n])
    ensures forall j :: 0 <= j < |c| && j != n ==> Infer(s, n).code[j] == s.code[j]
  {
    hide TakesType, Digit;
  }

  lemma PairForm(c: Instrs, s: Scan, n: nat)
    requires Scannable(s) && n < |c| == |s.code| && Scanned(c, n, s.code[n])
    requires n + 1 < |c| ==> s.code[n + 1] == c[n + 1]
    ensures Pair(s, n).code[n] == s.code[n]
    ensures n + 1 < |c| ==> Scanned(c, n + 1, Pair(s, n).code[n + 1])
    ensures forall j :: 0 <= j < |c| && j != n + 1 ==> Pair(s, n).code[j] == s.code[j]
    ensures Pair(s, n) == s.(code := Pair(s, n).code)
  {
  }

  /** What one step of the scan does to its beliefs, by the instruction that stood there at first. */
  predicate Stepped(s: Scan, i: Instr, t: Scan)
    requires Scannable(s)
  {
    match i
    case LoadVar(v) =>
      v < |s.types| && t.types == s.types && t.lasts == s.lasts &&
      (t.last == None || (t.last == s.lasts[v] && t.prev == s.types[v]))
    case StoreVar(v) =>
      v < |s.types| && t.types == s.types[v := s.prev] && t.lasts == s.lasts[v := s.last] &&
      t.last == s.last && t.prev == s.prev
    case IncVar(v, _) =>
      v < |s.types| && t.types == s.types[v := 0] && t.lasts == s.lasts && t.last == s.last && t.prev == s.prev
    case PushI(k) => t.types == s.types && t.lasts == s.lasts && t.last == Some(k) && t.prev == 1
    case _ => t.types == s.types && t.lasts == s.lasts && t.last == None
  }

  lemma ScanStep(c: Instrs, slots: nat, n: nat)
    requires SlotsBelow(c, slots) && n < |c|
    ensures Stepped(ScanTo(c, slots, n), c[n], ScanTo(c, slots, n + 1))
  {
    ScanForm(c, slots, n);
    var s := ScanTo(c, slots, n);
    assert Scanned(c, n, s.code[n]);
    assert SlotBelow(c[n], slots);
    InferStep(c, s, n);
    hide TakesType, Digit, SlotsBelow, Infer, Stepped;
  }

  lemma InferStep(c: Instrs, s: Scan, n: nat)
    requires Scannable(s) && n < |c| == |s.code| && Scanned(c, n, s.code[n]) && SlotBelow(c[n], |s.types|)
    ensures Stepped(s, c[n], Infer(s, n))
  {
    hide TakesType, Digit, SlotsBelow;
  }

  lemma ShowSlot(c: Instrs, slots: nat, n: nat)
    requires SlotsBelow(c, slots) && n < |c|
    ensures SlotBelow(c[n], slots)
  {
  }

  // ----- where a known value comes from -----

  /** A value that is stored was pushed or loaded by the instruction before, if the scan knows it. */
  lemma StoredValue(c: Instrs, slots: nat, n: nat)
    requires WellFormed(c) && SlotsBelow(c, slots) && n < |c| && c[n].StoreVar?
    requires ScanTo(c, slots, n).last.Some?
    ensures n > 0
    ensures var s, x := ScanTo(c, slots, n), ScanTo(c, slots, n).last;
      || (c[n - 1] == PushI(x.value) && s.prev == 1)
      || (c[n - 1].LoadVar? && c[n - 1].v < slots && ScanTo(c, slots, n - 1).lasts[c[n - 1].v] == x &&
          ScanTo(c, slots, n - 1).types[c[n - 1].v] == s.prev)
  {
    hide ScanTo, WellFormed, Height, Fed, Sound;
    StoreNeedsOperand(c, n);
    ScanStep(c, slots, n - 1);
    if c[n - 1].StoreVar? {
      ScanStep(c, slots, n - 2);
    }
  }

  lemma StoreNeedsOperand(c: Instrs, n: nat)
    requires WellFormed(c) && n < |c| && c[n].StoreVar?
    ensures n > 0 && !c[n - 1].IncVar?
    ensures c[n - 1].StoreVar? ==> n > 1 && (c[n - 2].Dup? || c[n - 2].Arith?)
  {
    assert Sound(c, 0, n) && Sound(c, 0, n - 1);
    assert Height(c, n) == Height(c, n - 1) + Growth(c[n - 1]);
  }

  lemma {:induction false} ValueStays(c: Instrs, argc: nat, slots: nat, u: nat, j: nat, n: nat)
    requires SlotsBelow(c, slots) && WrittenOnce(c, argc, u) && j < |c| && c[j] == StoreVar(u) && n <= |c|
    ensures u < slots
    ensures var s := ScanTo(c, slots, n);
      if n <= j then s.lasts[u] == None
      else s.lasts[u] == ScanTo(c, slots, j).last && s.types[u] == ScanTo(c, slots, j).prev
  {
    hide ScanTo, SlotsBelow, WrittenOnce;
    ShowSlot(c, slots, j);
    if n == 0 {
      ScanZero(c, slots);
    } else {
      ValueStays(c, argc, slots, u, j, n - 1);
      ScanStep(c, slots, n - 1);
      OnlyWrite(c, argc, u, j, n - 1);
    }
  }

  lemma OnlyWrite(c: Instrs, argc: nat, u: nat, i: nat, j: nat)
    requires WrittenOnce(c, argc, u) && i < |c| && j < |c| && Writes(c[i], u)
    ensures Writes(c[j], u) ==> i == j
  {
  }

  lemma ScanZero(c: Instrs, slots: nat)
    requires SlotsBelow(c, slots)
    ensures ScanTo(c, slots, 0) == ScanStart(c, slots)
  {
  }

  lemma {:induction false} ComputedUnknown(c: Instrs, slots: nat, u: nat, n: nat)
    requires SlotsBelow(c, slots) && Computed(c, u) && u < slots && n <= |c|
    ensures ScanTo(c, slots, n).lasts[u] == None
  {
    hide ScanTo, SlotsBelow;
    if n == 0 {
      ScanZero(c, slots);
    } else {
      ComputedUnknown(c, slots, u, n - 1);
      ScanStep(c, slots, n - 1);
      assert OpaqueWrite(c, u, n - 1);
      if c[n - 1] == StoreVar(u) {
        ScanStep(c, slots, n - 2);
      }
    }
  }

  lemma {:induction false} UnstoredUnknown(c: Instrs, slots: nat, u: nat, n: nat)
    requires SlotsBelow(c, slots) && u < slots && n <= |c| && ScanTo(c, slots, n).lasts[u].Some?
    ensures exists j :: 0 <= j < n && c[j] == StoreVar(u)
  {
    hide ScanTo, SlotsBelow;
    if n == 0 {
      ScanZero(c, slots);
    } else {
      ScanStep(c, slots, n - 1);
      if c[n - 1] != StoreVar(u) {
        UnstoredUnknown(c, slots, u, n - 1);
      }
    }
  }

  // ----- counting writes -----

  lemma {:induction false} CountSome(c: Instrs, v: nat, n: nat, i: nat)
    requires i < n <= |c| && Writes(c[i], v)
    ensures WriteCount(c, v, n) > WriteCount(c, v, i)
    decreases n
  {
    if i < n - 1 {
      CountSome(c, v, n - 1, i);
    }
  }

  lemma {:induction false} CountMore(c: Instrs, v: nat, n: nat, i: nat)
    requires i <= n <= |c|
    ensures WriteCount(c, v, n) >= WriteCount(c, v, i)
    ensures WriteCount(c, v, n) > WriteCount(c, v, i) ==> exists j :: i <= j < n && Writes(c[j], v)
    decreases n
  {
    if i < n {
      CountMore(c, v, n - 1, i);
    }
  }

  /** Counting to one means that there is one write. */
  lemma CountIsOne(c: Instrs, argc: nat, v: nat)
    requires v > argc && exists i :: 0 <= i < |c| && Writes(c[i], v)
    ensures WriteCount(c, v, |c|) == 1 <==> WrittenOnce(c, argc, v)
  {
    var i: nat :| i < |c| && Writes(c[i], v);
    if WrittenOnce(c, argc, v) {
      CountMore(c, v, i, 0);
      CountMore(c, v, |c|, i + 1);
    } else {
      var a, b :| 0 <= a < |c| && 0 <= b < |c| && Writes(c[a], v) && Writes(c[b], v) && a != b;
      var lo, hi := if a < b then a else b, if a < b then b else a;
      CountSome(c, v, hi, lo);
      CountSome(c, v, |c|, hi);
    }
  }

  lemma {:induction false} CountScanned(c: Instrs, slots: nat, v: nat, n: nat)
    requires SlotsBelow(c, slots) && n <= |c|
    ensures WriteCount(ScanTo(c, slots, |c|).code, v, n) == WriteCount(c, v, n)
    decreases n
  {
    if n > 0 {
      CountScanned(c, slots, v, n - 1);
      ScanForm(c, slots, |c|);
      assert Scanned(c, n - 1, ScanTo(c, slots, |c|).code[n - 1]);
    }
  }

  // ----- known variables -----

  /** The loaded variables that the optimiser takes to be constants. */
  function Known(c: Instrs, argc: nat, slots: nat): map<nat, int64>
    requires SlotsBelow(c, slots)
  {
    var s := ScanTo(c, slots, |c|);
    map v: nat | v < slots && Loaded(c, v) && Constant(s, argc, v).Some? :: Constant(s, argc, v).value
  }

  /** A known variable is a local with one store; and so is every such variable whose value the scan knew. */
  lemma KnownIff(c: Instrs, argc: nat, slots: nat, v: nat)
    requires SlotsBelow(c, slots) && v < slots && Loaded(c, v)
    ensures v in Known(c, argc, slots) <==>
      WrittenOnce(c, argc, v) && ScanTo(c, slots, |c|).lasts[v].Some? && ScanTo(c, slots, |c|).types[v] == 1
    ensures v in Known(c, argc, slots) ==> Some(Known(c, argc, slots)[v]) == ScanTo(c, slots, |c|).lasts[v]
  {
    var s := ScanTo(c, slots, |c|);
    hide ScanTo;
    CountScanned(c, slots, v, |c|);
    if s.lasts[v].Some? {
      UnstoredUnknown(c, slots, v, |c|);
      var j: nat :| j < |c| && c[j] == StoreVar(v);
      assert Writes(c[j], v);
      CountSome(c, v, |c|, j);
      if v > argc {
        CountIsOne(c, argc, v);
      }
    }
  }

  /** v is not caught into, and it is no copy of a variable that has other writes. */
  predicate ConstantSound(c: Instrs, argc: nat, v: nat)
  {
    !CatchSlot(c, v) &&
    forall i :: 0 < i < |c| && c[i] == StoreVar(v) && c[i - 1].LoadVar? ==> WrittenOnce(c, argc, c[i - 1].v)
  }

  /** The variables that the optimiser takes to be constants are constants. */
  predicate ConstantsSound(c: Instrs, argc: nat, slots: nat)
    requires SlotsBelow(c, slots)
  {
    forall v :: v in Known(c, argc, slots) ==> ConstantSound(c, argc, v)
  }

  /** Two loads of one variable, one after the other. */
  predicate Twins(c: Instrs, i: nat)
  {
    0 < i < |c| && c[i].LoadVar? && c[i - 1] == c[i]
  }

  lemma {:induction false} NoTwinsScanned(c: Instrs, slots: nat, n: nat)
    requires SlotsBelow(c, slots) && n <= |c|
    ensures forall i :: 0 <= i <= n ==> !Twins(ScanTo(c, slots, n).code, i)
  {
    if n > 0 {
      NoTwinsScanned(c, slots, n - 1);
      NoTwinsStep(ScanTo(c, slots, n - 1), n - 1);
    }
  }

  lemma NoTwinsStep(s: Scan, n: nat)
    requires Scannable(s) && n < |s.code| && forall i :: 0 <= i <= n ==> !Twins(s.code, i)
    ensures var t := Pair(Infer(s, n), n); forall i :: 0 <= i <= n + 1 ==> !Twins(t.code, i)
  {
    hide TakesType, Digit, SlotsBelow;
    var t := Infer(s, n);
    assert forall j :: 0 <= j < |s.code| && j != n ==> t.code[j] == s.code[j];
    assert t.code[n] == s.code[n] || !t.code[n].LoadVar?;
    forall i | 0 <= i <= n + 1 ensures !Twins(Pair(t, n).code, i) {
      assert i <= n ==> !Twins(s.code, i);
    }
  }

  /**
   What becomes of a load: the constant of a known variable; or, behind another load of the same variable, DUP,
   unless that one has become DUP itself; or what it was.
   */
  lemma LoadsRewritten(c: Instrs, argc: nat, slots: nat, i: nat)
    requires SlotsBelow(c, slots) && i < |c| && c[i].LoadVar?
    ensures var d, known, v := Rewritten(c, argc, slots), Known(c, argc, slots), c[i].v;
      d[i] == Dup || d[i] == if v in known then PushI(known[v]) else c[i]
    ensures var d := Rewritten(c, argc, slots);
      if Twins(c, i) then d[i] == Dup || d[i - 1] == Dup else d[i] != Dup
  {
    hide ScanTo, SlotsBelow, Constant;
    var s := ScanTo(c, slots, |c|);
    ScanForm(c, slots, |c|);
    NoTwinsScanned(c, slots, |c|);
    assert Scanned(c, i, s.code[i]) && !Twins(s.code, i);
    ShowSlot(c, slots, i);
    assert Loaded(c, c[i].v);
    if i > 0 {
      assert Scanned(c, i - 1, s.code[i - 1]);
    }
  }

  lemma KnownIn(c: Instrs, argc: nat, slots: nat, v: nat)
    requires SlotsBelow(c, slots) && v in Known(c, argc, slots)
    ensures v < slots && Loaded(c, v)
    ensures ConstantsSound(c, argc, slots) ==> ConstantSound(c, argc, v)
  {
  }

  lemma CopySource(c: Instrs, argc: nat, v: nat, i: nat)
    requires ConstantSound(c, argc, v) && 0 < i < |c| && c[i] == StoreVar(v) && c[i - 1].LoadVar?
    ensures WrittenOnce(c, argc, c[i - 1].v)
  {
  }

  lemma KnownStore(c: Instrs, argc: nat, slots: nat, i: nat)
    requires Ready(c, slots) && ConstantsSound(c, argc, slots)
    requires i < |c| && c[i].StoreVar? && c[i].v in Known(c, argc, slots)
    ensures KnownWrite(c, Known(c, argc, slots), i)
  {
    hide ScanTo, WellFormed, SlotsBelow, WrittenOnce, Known, ConstantsSound, ConstantSound, Loaded;
    var v, known := c[i].v, Known(c, argc, slots);
    KnownIn(c, argc, slots, v);
    KnownIff(c, argc, slots, v);
    ValueStays(c, argc, slots, v, i, |c|);
    StoredValue(c, slots, i);
    if c[i - 1].LoadVar? {
      CopySource(c, argc, v, i);
      SourceKnown(c, argc, slots, c[i - 1].v, i - 1);
    }
  }

  /** The source of a copy that the scan knew: a known variable with the same value. */
  lemma SourceKnown(c: Instrs, argc: nat, slots: nat, u: nat, n: nat)
    requires SlotsBelow(c, slots) && n < |c| && c[n] == LoadVar(u) && u < slots && WrittenOnce(c, argc, u)
    requires ScanTo(c, slots, n).lasts[u].Some? && ScanTo(c, slots, n).types[u] == 1
    ensures u in Known(c, argc, slots) && Some(Known(c, argc, slots)[u]) == ScanTo(c, slots, n).lasts[u]
  {
    assert Loaded(c, u);
    hide ScanTo, SlotsBelow, WrittenOnce, Known;
    KnownIff(c, argc, slots, u);
    UnstoredUnknown(c, slots, u, n);
    var j: nat :| j < n && c[j] == StoreVar(u);
    ValueStays(c, argc, slots, u, j, n);
    ValueStays(c, argc, slots, u, j, |c|);
  }

  lemma KnownStoredOnce(c: Instrs, argc: nat, slots: nat, v: nat)
    requires SlotsBelow(c, slots) && v in Known(c, argc, slots)
    ensures v > argc && WrittenOnce(c, argc, v) && exists j :: 0 <= j < |c| && c[j] == StoreVar(v)
    ensures forall i :: 0 <= i < |c| ==> c[i].IncVar? ==> c[i].v != v
  {
    assert v < slots && Loaded(c, v);
    hide ScanTo, SlotsBelow, Known;
    KnownIff(c, argc, slots, v);
    UnstoredUnknown(c, slots, v, |c|);
    var j: nat :| j < |c| && c[j] == StoreVar(v);
    assert Writes(c[j], v);
    forall i: nat | i < |c| && c[i].IncVar? ensures c[i].v != v {
      OnlyWrite(c, argc, v, j, i);
    }
  }

  /** Sound constants are what a certificate asks for: every write stores the constant. */
  lemma ConstantsSoundIff(c: Instrs, argc: nat, slots: nat)
    requires Ready(c, slots)
    ensures ConstantsSound(c, argc, slots) <==> KnownWrites(c, argc, Known(c, argc, slots))
  {
    hide WellFormed, SlotsBelow, Known, ConstantSound, KnownWrites;
    if ConstantsSound(c, argc, slots) {
      KnownIsKnown(c, argc, slots);
    }
    if KnownWrites(c, argc, Known(c, argc, slots)) {
      forall v | v in Known(c, argc, slots) ensures ConstantSound(c, argc, v) {
        KnownIsSound(c, argc, slots, v);
      }
    }
  }

  lemma KnownIsKnown(c: Instrs, argc: nat, slots: nat)
    requires Ready(c, slots) && ConstantsSound(c, argc, slots)
    ensures KnownWrites(c, argc, Known(c, argc, slots))
  {
    var known := Known(c, argc, slots);
    hide Known, Ready, WrittenOnce;
    forall v | v in known ensures v > argc {
      KnownStoredOnce(c, argc, slots, v);
    }
    forall i: nat | i < |c| ensures KnownWrite(c, known, i) {
      if c[i].IncVar? && c[i].v in known {
        KnownStoredOnce(c, argc, slots, c[i].v);
      } else if c[i].PushTry? {
        assert c[i].v in known ==> ConstantSound(c, argc, c[i].v);
      } else if c[i].StoreVar? && c[i].v in known {
        KnownStore(c, argc, slots, i);
      }
    }
  }

  lemma KnownIsSound(c: Instrs, argc: nat, slots: nat, v: nat)
    requires SlotsBelow(c, slots) && KnownWrites(c, argc, Known(c, argc, slots)) && v in Known(c, argc, slots)
    ensures ConstantSound(c, argc, v)
  {
    var known := Known(c, argc, slots);
    hide Known, SlotsBelow, WrittenOnce;
    forall i: nat | i < |c| ensures !(c[i].PushTry? && c[i].v == v) {
      assert KnownWrite(c, known, i);
    }
    forall i: nat | 0 < i < |c| && c[i] == StoreVar(v) && c[i - 1].LoadVar? ensures WrittenOnce(c, argc, c[i - 1].v) {
      assert KnownWrite(c, known, i);
      KnownStoredOnce(c, argc, slots, c[i - 1].v);
    }
  }

  /** A condition on the code alone that every pass keeps, and that makes the constants sound in every round. */
  lemma SafeIsSound(c: Instrs, argc: nat, slots: nat)
    requires Ready(c, slots) && Safe(c, argc)
    ensures ConstantsSound(c, argc, slots)
  {
    hide Known, WellFormed, SlotsBelow, Safe, ConstantSound;
    forall v | v in Known(c, argc, slots) ensures ConstantSound(c, argc, v) {
      SafeConstant(c, argc, slots, v);
    }
  }

  lemma SafeConstant(c: Instrs, argc: nat, slots: nat, v: nat)
    requires Ready(c, slots) && Safe(c, argc) && v in Known(c, argc, slots)
    ensures ConstantSound(c, argc, v)
  {
    assert v < slots && Loaded(c, v);
    hide ScanTo, WellFormed, SlotsBelow, WrittenOnce, Known, Computed, Safe, CatchSlot;
    KnownStoredOnce(c, argc, slots, v);
    var j: nat :| j < |c| && c[j] == StoreVar(v);
    ShowSafe(c, argc, j);
    forall i: nat | 0 < i < |c| && c[i] == StoreVar(v) && c[i - 1].LoadVar? ensures WrittenOnce(c, argc, c[i - 1].v) {
      ShowSafe(c, argc, i);
      KnownIff(c, argc, slots, v);
      ValueStays(c, argc, slots, v, i, |c|);
      StoredValue(c, slots, i);
      if Computed(c, c[i - 1].v) {
        ComputedUnknown(c, slots, c[i - 1].v, i - 1);
      }
    }
  }

  lemma ShowSafe(c: Instrs, argc: nat, i: nat)
    requires Safe(c, argc) && i < |c|
    ensures SafeStore(c, argc, i)
  {
  }

  // ----- the three passes are certified -----

  function RewriteCert(c: Instrs, argc: nat, slots: nat): Cert
    requires SlotsBelow(c, slots)
  {
    Cert(seq(|c| + 1, j => j), {}, {}, Known(c, argc, slots))
  }

  /** Typing, duplicating and propagating constants. */
  lemma RewriteCertified(c: Instrs, argc: nat, slots: nat)
    requires Ready(c, slots) && ConstantsSound(c, argc, slots)
    ensures Certified(c, argc, Rewritten(c, argc, slots), RewriteCert(c, argc, slots))
  {
    var d, k := Rewritten(c, argc, slots), RewriteCert(c, argc, slots);
    WellFormedClean(c);
    KnownIsKnown(c, argc, slots);
    forall pc: nat | pc < |c| ensures Kept(c, Indexed(d), k, pc) {
      RewriteStands(c, argc, slots, pc);
      hide Rewritten, Stands;
    }
    hide Rewritten, Known, WellFormed, Kept, CleanTargets, KnownWrites, ConstantsSound;
  }

  lemma RewriteStands(c: Instrs, argc: nat, slots: nat, pc: nat)
    requires Ready(c, slots) && pc < |c|
    ensures Stands(c, RewriteCert(c, argc, slots), pc, Rewritten(c, argc, slots)[pc])
  {
    var k := RewriteCert(c, argc, slots);
    var s := ScanTo(c, slots, |c|);
    ScanForm(c, slots, |c|);
    assert Scanned(c, pc, s.code[pc]);
    assert Sound(c, 0, pc);
    hide WellFormed, SlotsBelow, ScanTo;
    if c[pc].LoadVar? {
      assert Loaded(c, c[pc].v);
    }
    hide Constant;
  }

  function StoreCert(c: Instrs, slots: nat): Cert
  {
    Cert(seq(|c| + 1, j requires 0 <= j => Shift(DeadCode(c), j)), set i: nat | i < |c| && DeadStore(c, i),
         set v: nat | v < slots && Unread(c, v), map[])
  }

  /** Removing dead stores. */
  lemma StoresCertified(c: Instrs, argc: nat, slots: nat)
    requires Ready(c, slots)
    ensures Certified(c, argc, Remove(c, DeadCode(c)), StoreCert(c, slots))
  {
    var r, d, k := DeadCode(c), Remove(c, DeadCode(c)), StoreCert(c, slots);
    WellFormedClean(c);
    NothingKnown(c, argc);
    assert 0 !in k.mid;
    hide WellFormed, Kept, Dropped, CleanTargets, KnownWrites, SlotsBelow, DeadStore, DeadCode, Unread, Remove;
    forall pc: nat | pc < |c| && pc !in k.mid ensures Kept(c, Indexed(d), k, pc) || Dropped(c, k, pc) {
      if pc in r {
        DeadDropped(c, slots, pc);
      } else {
        LiveKept(c, slots, pc);
      }
    }
  }

  lemma DeadDropped(c: Instrs, slots: nat, pc: nat)
    requires SlotsBelow(c, slots) && pc < |c| && pc in DeadCode(c) && !DeadStore(c, pc)
    ensures Dropped(c, StoreCert(c, slots), pc)
  {
    var r := DeadCode(c);
    assert DeadStore(c, pc + 1) && SlotBelow(c[pc + 1], slots);
    assert InDeadStore(c, pc + 1);
    hide Unread, SlotsBelow, Below;
    BelowStep(r, pc);
    BelowStep(r, pc + 1);
  }

  lemma LiveKept(c: Instrs, slots: nat, pc: nat)
    requires WellFormed(c) && pc < |c| && pc !in DeadCode(c)
    ensures Kept(c, Indexed(Remove(c, DeadCode(c))), StoreCert(c, slots), pc)
  {
    var r, k := DeadCode(c), StoreCert(c, slots);
    SurvivorAt(c, r, |c|, pc);
    BelowStep(r, pc);
    LiveStands(c, slots, pc);
    assert !InDeadStore(c, pc);
    hide Unread, WellFormed, Below, Stands, Relocate, Remove, DeadCode;
    assert pc + 1 < |c| ==> !DeadStore(c, pc + 1);
    IndexedFetch(Remove(c, r), k.places[pc]);
  }

  lemma LiveStands(c: Instrs, slots: nat, pc: nat)
    requires WellFormed(c) && pc < |c|
    ensures Stands(c, StoreCert(c, slots), pc, Relocate(DeadCode(c), c[pc]))
  {
    var r, k := DeadCode(c), StoreCert(c, slots);
    hide Below, Shift, DeadCode;
    assert !Reads(c[pc], k.dead) by {
      hide WellFormed, DeadStore;
    }
    if Target(c[pc]).Some? {
      TargetIsClean(c, pc);
      hide WellFormed, Unread;
    }
  }

  lemma TargetIsClean(c: Instrs, pc: nat)
    requires WellFormed(c) && pc < |c| && Target(c[pc]).Some?
    ensures Target(c[pc]).value < |c| && CleanPc(c, Target(c[pc]).value)
  {
    assert Sound(c, 0, pc);
    WellFormedClean(c);
  }

  lemma BelowStep(r: set<nat>, t: nat)
    ensures Below(r, t + 1) == Below(r, t) + (if t in r then 1 else 0)
  {
  }

  /** No fold takes the bitwise and of operands for which it differs from the logical one. */
  predicate AndsAgree(c: Instrs)
  {
    forall i :: 0 <= i < |c| && Foldable(c, i) && c[i].op == And ==>
      FoldedAt(c, i) == Compute(And, c[i - 1].i, c[i - 2].i)
  }

  function FoldCert(c: Instrs): Cert
  {
    Cert(seq(|c| + 1, j requires 0 <= j => Shift(Consumed(c), j)), set i: nat | i < |c| && InFold(c, i), {}, map[])
  }

  /** The second and third instruction of a fold. */
  predicate InFold(c: Instrs, i: nat)
    requires i < |c|
  {
    Foldable(c, i) || (i + 1 < |c| && Foldable(c, i + 1))
  }

  /** Folding. */
  lemma FoldsCertified(c: Instrs, argc: nat)
    requires WellFormed(c) && AndsAgree(c) && !FoldTraps(c)
    ensures Certified(c, argc, Remove(WithFolds(c), Consumed(c)), FoldCert(c))
  {
    var d, k := Remove(WithFolds(c), Consumed(c)), FoldCert(c);
    WellFormedClean(c);
    NothingKnown(c, argc);
    StartsApart(c);
    hide WellFormed, Kept, Folded, CleanTargets, KnownWrites, AndsAgree, FoldTraps, InFold, Consumed, Remove, WithFolds;
    forall pc: nat | pc < |c| && pc !in k.mid ensures Kept(c, Indexed(d), k, pc) || Folded(c, Indexed(d), k, pc) {
      if pc in Consumed(c) {
        OperandsFolded(c, pc);
      } else {
        OthersKept(c, pc);
      }
    }
  }

  lemma StartsApart(c: Instrs)
    requires |c| > 0
    ensures !InFold(c, 0)
  {
  }

  lemma NothingKnown(c: Instrs, argc: nat)
    ensures KnownWrites(c, argc, map[])
  {
  }

  /** The operands of a fold, and the operation itself. */
  lemma FoldShape(c: Instrs, pc: nat)
    requires pc < |c| && pc in Consumed(c) && !InFold(c, pc)
    ensures pc + 2 < |c| && Foldable(c, pc + 2)
    ensures pc + 1 in Consumed(c) && pc + 2 !in Consumed(c)
    ensures InFold(c, pc + 1) && InFold(c, pc + 2) && (pc + 3 < |c| ==> !InFold(c, pc + 3))
  {
    assert FoldedAway(c, pc + 1) && !FoldedAway(c, pc + 2);
  }

  lemma OperandsFolded(c: Instrs, pc: nat)
    requires AndsAgree(c) && !FoldTraps(c) && pc < |c| && pc in Consumed(c) && !InFold(c, pc)
    ensures Folded(c, Indexed(Remove(WithFolds(c), Consumed(c))), FoldCert(c), pc)
  {
    hide AndsAgree, FoldTraps, InFold, FoldedAway, FoldAt, Compute, Below, Consumed, Remove, WithFolds;
    var r := Consumed(c);
    FoldShape(c, pc);
    BelowStep(r, pc);
    BelowStep(r, pc + 1);
    BelowStep(r, pc + 2);
    RemovedAt(WithFolds(c), r, pc + 2);
    FoldMeans(c, pc + 2);
  }

  lemma RemovedAt(c: Instrs, r: set<nat>, i: nat)
    requires i < |c| && i !in r
    ensures Shift(r, i) < |Remove(c, r)| && Remove(c, r)[Shift(r, i)] == Relocate(r, c[i])
  {
    SurvivorAt(c, r, |c|, i);
  }

  lemma FoldMeans(c: Instrs, i: nat)
    requires AndsAgree(c) && !FoldTraps(c) && i < |c| && Foldable(c, i)
    ensures var x := Compute(c[i].op, c[i - 1].i, c[i - 2].i); x.Some? && WithFolds(c)[i] == PushI(x.value)
  {
    assert FoldedAt(c, i).Some?;
  }

  lemma OthersKept(c: Instrs, pc: nat)
    requires WellFormed(c) && !FoldTraps(c) && pc < |c| && pc !in Consumed(c) && !InFold(c, pc)
    ensures Kept(c, Indexed(Remove(WithFolds(c), Consumed(c))), FoldCert(c), pc)
  {
    hide WellFormed, Below, FoldTraps, Consumed, Stands, Remove, Relocate, WithFolds, FoldedAway, InFold, Foldable;
    var r, k := Consumed(c), FoldCert(c);
    Untouched(c, pc);
    OtherStands(c, pc);
    if pc + 1 < |c| {
      NotNext(c, pc);
    }
    RemovedAt(WithFolds(c), r, pc);
    BelowStep(r, pc);
    IndexedFetch(Remove(WithFolds(c), r), k.places[pc]);
  }

  lemma Untouched(c: Instrs, pc: nat)
    requires !FoldTraps(c) && pc < |c| && !InFold(c, pc)
    ensures WithFolds(c)[pc] == c[pc]
  {
  }

  lemma NotNext(c: Instrs, pc: nat)
    requires pc + 1 < |c| && pc !in Consumed(c) && !InFold(c, pc)
    ensures !InFold(c, pc + 1)
  {
    assert !FoldedAway(c, pc);
  }

  lemma OtherStands(c: Instrs, pc: nat)
    requires WellFormed(c) && pc < |c|
    ensures Stands(c, FoldCert(c), pc, Relocate(Consumed(c), c[pc]))
  {
    hide Below, Shift, Consumed, WellFormed, FoldedAway;
    if Target(c[pc]).Some? {
      TargetIsClean(c, pc);
    }
  }
}
