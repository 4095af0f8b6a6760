// dylib/feats/webui.c: branch_target, bl_target and fn_calls, which scans the machine code of a
// function for a call and has to tell where the function ends.
module FnCalls {
  import opened Numbers

  const TWO_64: nat := 0x1_0000_0000_0000_0000
  const FN_SPAN_MAX := 0x400
  const RET: bv32 := 0xD65F03C0

  // What an instruction does to the program counter, as far as the masks tell.
  datatype Flow = Jump(imm: int) | Branch(imm: int) | Return | Onward

  // sign_extend, with the sign bit given by its value.
  function SignExtend(val: bv32, sign: bv32): int {
    if val & sign != 0 then val as int - 2 * sign as int else val as int
  }

  function BranchFlow(insn: bv32): Flow {
    if insn & 0xFC000000 == 0x14000000 then Jump(SignExtend(insn & 0x03FFFFFF, 0x2000000))
    else if insn & 0xFF000010 == 0x54000000 || insn & 0x7F000000 == 0x34000000 then
      Branch(SignExtend((insn >> 5) & 0x7FFFF, 0x40000))
    else if insn & 0x7F000000 == 0x36000000 then Branch(SignExtend((insn >> 5) & 0x3FFF, 0x2000))
    else if insn == RET || insn & 0xFFFFFC1F == 0xD61F0000 then Return
    else Onward
  }

  function Target(pc: nat, imm: int): (t: nat)
    ensures t < TWO_64
  {
    (pc + 4 * imm) % TWO_64
  }

  // branch_target: 0 stands for no branch, also for a branch whose target is 0.
  function BranchTarget(insn: bv32, pc: nat): nat {
    match BranchFlow(insn)
    case Jump(imm) => Target(pc, imm)
    case Branch(imm) => Target(pc, imm)
    case Return => 0
    case Onward => 0
  }

  // bl_target, compared with the function looked for.
  predicate Calls(insn: bv32, pc: nat, target: nat) {
    insn & 0xFC000000 == 0x94000000 && Target(pc, SignExtend(insn & 0x03FFFFFF, 0x2000000)) == target
  }

  // ---- the scan ----

  type Code = nat -> bv32

  datatype Outcome = Found(at: nat) | Stopped(at: nat) | RanOut

  function Scan(code: Code, fn: nat, pc: nat, furthest: nat, target: nat): Outcome
    decreases fn + FN_SPAN_MAX - pc
  {
    if pc >= fn + FN_SPAN_MAX then RanOut
    else if Calls(code(pc), pc, target) then Found(pc)
    else
      var branch := BranchTarget(code(pc), pc);
      if branch != 0 then
        if BranchFlow(code(pc)).Jump? && pc >= furthest then Stopped(pc)
        else Scan(code, fn, pc + 4, Max(furthest, branch), target)
      else if BranchFlow(code(pc)).Return? && pc >= furthest then Stopped(pc)
      else Scan(code, fn, pc + 4, furthest, target)
  }

  method CallsTarget(code: Code, fn: nat, target: nat) returns (calls: bool)
    requires fn + FN_SPAN_MAX < TWO_64
    ensures calls <==> Scan(code, fn, fn, fn, target).Found?
  {
    var furthest, pc := fn, fn;
    while pc < fn + FN_SPAN_MAX
      invariant Scan(code, fn, pc, furthest, target) == Scan(code, fn, fn, fn, target)
    {
      var insn := code(pc);
      if Calls(insn, pc, target) { return true; }
      var cond := BranchFlow(insn).Branch?;
      var branch := BranchTarget(insn, pc);
      if branch != 0 {
        if !cond && pc >= furthest { break; }
        if branch > furthest { furthest := branch; }
        pc := pc + 4;
        continue;
      }
      if BranchFlow(insn).Return? && pc >= furthest { break; }
      pc := pc + 4;
    }
    return false;
  }

  // ---- control flow ----

  // One step of the program, by the flow the masks recognise.
  predicate Edge(code: Code, x: nat, y: nat) {
    match BranchFlow(code(x))
    case Jump(imm) => y == Target(x, imm)
    case Branch(imm) => y == x + 4 || y == Target(x, imm)
    case Return => false
    case Onward => y == x + 4
  }

  // A run from the entry that does not go below it, nor past `stop` out of the jump at `stop`.
  predicate Run(code: Code, fn: nat, stop: nat, xs: seq<nat>) {
    && xs != [] && xs[0] == fn && (forall x <- xs :: x >= fn)
    && forall i :: 0 <= i < |xs| - 1 ==> Edge(code, xs[i], xs[i + 1]) && (xs[i] == stop ==> xs[i + 1] <= stop)
  }

  predicate Aligned(fn: nat, x: nat) { fn <= x && (x - fn) % 4 == 0 }

  // Nothing scanned calls the target, and no branch scanned goes past `end`.
  ghost predicate Closed(code: Code, fn: nat, pc: nat, end: nat, target: nat) {
    forall x: nat :: Aligned(fn, x) && x < pc ==> !Calls(code(x), x, target) && BranchTarget(code(x), x) <= end
  }

  lemma {:induction false} ScanIsClosed(code: Code, fn: nat, pc: nat, furthest: nat, target: nat)
    requires Aligned(fn, pc) && Closed(code, fn, pc, furthest, target)
    ensures var o := Scan(code, fn, pc, furthest, target);
            o.Stopped? ==>
              && Aligned(fn, o.at) && pc <= o.at < fn + FN_SPAN_MAX && furthest <= o.at
              && Closed(code, fn, o.at, o.at, target) && !Calls(code(o.at), o.at, target)
              && (BranchFlow(code(o.at)).Jump? || BranchFlow(code(o.at)).Return?)
    decreases fn + FN_SPAN_MAX - pc
  {
    hide BranchFlow, Calls, Target;
    if pc < fn + FN_SPAN_MAX && !Calls(code(pc), pc, target) {
      var branch := BranchTarget(code(pc), pc);
      var further := Max(furthest, branch);
      assert forall x: nat :: Aligned(fn, x) && x < pc + 4 ==> x < pc || x == pc;
      assert Closed(code, fn, pc + 4, further, target);
      ScanIsClosed(code, fn, pc + 4, further, target);
    }
  }

  lemma {:induction false} TargetAligned(fn: nat, x: nat, imm: int)
    requires Aligned(fn, x) && Target(x, imm) >= fn
    ensures Aligned(fn, Target(x, imm))
  {
    var q := (x + 4 * imm) / TWO_64;
    assert Target(x, imm) == x + 4 * imm - q * TWO_64 == x + 4 * (imm - q * 0x4000_0000_0000_0000);
  }

  lemma {:induction false} StepStaysInside(code: Code, fn: nat, stop: nat, target: nat, x: nat, y: nat)
    requires Aligned(fn, stop) && Closed(code, fn, stop, stop, target)
    requires Aligned(fn, x) && x <= stop && y >= fn && Edge(code, x, y) && (x == stop ==> y <= stop)
    ensures Aligned(fn, y) && y <= stop
  {
    hide BranchFlow, Target, Calls;
    match BranchFlow(code(x))
    case Jump(imm) => TargetAligned(fn, x, imm);
    case Branch(imm) => if y != x + 4 { TargetAligned(fn, x, imm); }
    case Onward =>
  }

  lemma {:induction false} EntryIsAligned(fn: nat, x: nat)
    ensures Aligned(fn, fn) && (Aligned(fn, x) ==> fn <= x)
  {}

  lemma {:induction false} RunStaysInside(code: Code, fn: nat, stop: nat, target: nat, xs: seq<nat>, i: nat)
    requires Aligned(fn, stop) && Closed(code, fn, stop, stop, target)
    requires Run(code, fn, stop, xs) && i < |xs|
    ensures Aligned(fn, xs[i]) && xs[i] <= stop
    decreases i
  {
    hide Edge, Closed, Aligned;
    if i == 0 {
      EntryIsAligned(fn, stop);
    } else {
      RunStaysInside(code, fn, stop, target, xs, i - 1);
      assert xs[i] in xs && Edge(code, xs[i - 1], xs[i - 1 + 1]);
      StepStaysInside(code, fn, stop, target, xs[i - 1], xs[i]);
    }
  }

  // When the scan stops before its cap, everything the function can run lies between the entry and
  // the stop, and nothing of it calls the target.
  lemma {:induction false} StoppedMeansNoCall(code: Code, fn: nat, target: nat, xs: seq<nat>, i: nat)
    requires Scan(code, fn, fn, fn, target).Stopped?
    requires Run(code, fn, Scan(code, fn, fn, fn, target).at, xs) && i < |xs|
    ensures fn <= xs[i] <= Scan(code, fn, fn, fn, target).at
    ensures !Calls(code(xs[i]), xs[i], target)
  {
    hide Scan, Run, Calls, BranchFlow;
    var stop := Scan(code, fn, fn, fn, target).at;
    ScanIsClosed(code, fn, fn, fn, target);
    RunStaysInside(code, fn, stop, target, xs, i);
  }

  // A hit is an actual call inside the span.
  lemma {:induction false} FoundIsACall(code: Code, fn: nat, pc: nat, furthest: nat, target: nat)
    requires Aligned(fn, pc)
    ensures var o := Scan(code, fn, pc, furthest, target);
            o.Found? ==> Aligned(fn, o.at) && pc <= o.at < fn + FN_SPAN_MAX && Calls(code(o.at), o.at, target)
    decreases fn + FN_SPAN_MAX - pc
  {
    hide BranchFlow, Calls;
    if pc < fn + FN_SPAN_MAX && !Calls(code(pc), pc, target) {
      FoundIsACall(code, fn, pc + 4, Max(furthest, BranchTarget(code(pc), pc)), target);
      FoundIsACall(code, fn, pc + 4, furthest, target);
    }
  }

  // When the scan runs to its cap, nothing in the span calls the target.
  lemma {:induction false} RanOutMeansNoneInSpan(code: Code, fn: nat, pc: nat, furthest: nat, target: nat)
    requires Aligned(fn, pc) && Scan(code, fn, pc, furthest, target).RanOut?
    ensures forall x: nat :: Aligned(fn, x) && pc <= x < fn + FN_SPAN_MAX ==> !Calls(code(x), x, target)
    decreases fn + FN_SPAN_MAX - pc
  {
    hide BranchFlow, Calls, Target;
    if pc < fn + FN_SPAN_MAX {
      RanOutMeansNoneInSpan(code, fn, pc + 4, Max(furthest, BranchTarget(code(pc), pc)), target);
      assert forall x: nat :: Aligned(fn, x) && pc <= x ==> x == pc || pc + 4 <= x;
    }
  }

  // Instructions one after the other, as long as none is a jump or a return.
  lemma {:induction false} StraightRun(code: Code, fn: nat, stop: nat, n: nat)
    requires fn + 4 * n <= stop
    requires forall k: nat :: k < n ==> BranchFlow(code(fn + 4 * k)).Branch? || BranchFlow(code(fn + 4 * k)).Onward?
    ensures exists xs: seq<nat> :: |xs| == n + 1 && Run(code, fn, stop, xs) && xs[n] == fn + 4 * n
  {
    hide BranchFlow, Target;
    if n == 0 {
      assert Run(code, fn, stop, [fn]);
    } else {
      StraightRun(code, fn, stop, n - 1);
      var xs: seq<nat> :| |xs| == n && Run(code, fn, stop, xs) && xs[n - 1] == fn + 4 * (n - 1);
      var ys := xs + [fn + 4 * n];
      assert Edge(code, xs[n - 1], fn + 4 * n);
      assert forall i :: 0 <= i < n ==> ys[i] == xs[i];
      assert Run(code, fn, stop, ys) && ys[n] == fn + 4 * n;
    }
  }

  // A hit with no jump and no return before it is reached.
  lemma {:induction false} HitIsReached(code: Code, fn: nat, target: nat)
    requires Scan(code, fn, fn, fn, target).Found?
    requires var at := Scan(code, fn, fn, fn, target).at;
             forall x: nat :: Aligned(fn, x) && x < at ==> BranchFlow(code(x)).Branch? || BranchFlow(code(x)).Onward?
    ensures var at := Scan(code, fn, fn, fn, target).at;
            exists xs :: Run(code, fn, at, xs) && xs[|xs| - 1] == at && Calls(code(at), at, target)
  {
    hide BranchFlow, Calls, Scan;
    var at := Scan(code, fn, fn, fn, target).at;
    FoundIsACall(code, fn, fn, fn, target);
    var n := (at - fn) / 4;
    forall k: nat | k < n
      ensures BranchFlow(code(fn + 4 * k)).Branch? || BranchFlow(code(fn + 4 * k)).Onward?
    {
      assert Aligned(fn, fn + 4 * k);
    }
    StraightRun(code, fn, at, n);
  }

  // A longer function that falls through the whole span to the call: the answer is no all the same.
  function LongFunction(pc: nat): bv32 {
    if pc == 0x1400 then 0x94000001 // bl pc + 4
    else 0xD503201F // nop
  }

  lemma {:induction false} LongScan(pc: nat, target: nat)
    requires Aligned(0x1000, pc)
    ensures Scan(LongFunction, 0x1000, pc, 0x1000, target) == RanOut
    decreases 0x1400 - pc
  {
    assert BranchFlow(0xD503201F) == Onward;
    if pc < 0x1400 {
      LongScan(pc + 4, target);
    }
  }

  lemma {:induction false} CallBeyondTheSpan()
    ensures Scan(LongFunction, 0x1000, 0x1000, 0x1000, 0x1404) == RanOut
    ensures exists xs: seq<nat> :: |xs| == 0x101 && Run(LongFunction, 0x1000, 0x1400, xs) && xs[0x100] == 0x1400
    ensures Calls(LongFunction(0x1400), 0x1400, 0x1404)
  {
    hide Run;
    assert BranchFlow(0xD503201F) == Onward;
    LongScan(0x1000, 0x1404);
    StraightRun(LongFunction, 0x1000, 0x1400, 0x100);
  }

  // ---- the branches the masks miss, and jumps to an address in a register ----

  // CBNZ and TBNZ, of either width, and BC.cond.
  predicate IsMissed(insn: bv32) {
    insn & 0x7F000000 == 0x35000000 || insn & 0x7F000000 == 0x37000000 || insn & 0xFF000010 == 0x54000010
  }

  function MissedImm(insn: bv32): int {
    if insn & 0x7F000000 == 0x37000000 then SignExtend((insn >> 5) & 0x3FFF, 0x2000)
    else SignExtend((insn >> 5) & 0x7FFFF, 0x40000)
  }

  lemma {:induction false} MissedFlow(insn: bv32)
    requires IsMissed(insn)
    ensures BranchFlow(insn) == Onward
  {}

  // BR, which the masks take for a return.
  predicate IsIndirect(insn: bv32) { insn & 0xFFFFFC1F == 0xD61F0000 }

  // One step of the program with CBNZ, TBNZ and BC.cond as branches, and BR as a jump to any instruction.
  predicate FullEdge(code: Code, x: nat, y: nat) {
    || Edge(code, x, y)
    || (IsMissed(code(x)) && y == Target(x, MissedImm(code(x))))
    || (IsIndirect(code(x)) && (y - x) % 4 == 0)
  }

  predicate FullRun(code: Code, fn: nat, xs: seq<nat>) {
    xs != [] && xs[0] == fn && forall i :: 0 <= i < |xs| - 1 ==> FullEdge(code, xs[i], xs[i + 1])
  }

  ghost predicate Reaches(code: Code, fn: nat, x: nat) {
    exists xs :: FullRun(code, fn, xs) && xs[|xs| - 1] == x
  }

  // A way out of the stretch from `fn` to `stop`: a BR, a branch the masks miss with a target
  // outside, any branch to below the entry, or the jump at the stop when it goes forwards.
  predicate WayOut(code: Code, fn: nat, stop: nat, x: nat) {
    && fn <= x <= stop
    && (|| IsIndirect(code(x))
        || (IsMissed(code(x)) && !(fn <= Target(x, MissedImm(code(x))) <= stop))
        || match BranchFlow(code(x))
           case Jump(imm) => Target(x, imm) < fn || (x == stop && Target(x, imm) > stop)
           case Branch(imm) => Target(x, imm) < fn
           case _ => false)
  }

  // Instructions are four bytes, also where the flow goes below the entry.
  predicate InStep(fn: nat, x: nat) { (x - fn) % 4 == 0 }

  lemma {:induction false} TargetInStep(fn: nat, x: nat, imm: int)
    requires InStep(fn, x)
    ensures InStep(fn, Target(x, imm))
  {
    var q := (x + 4 * imm) / TWO_64;
    assert Target(x, imm) == x + 4 * imm - q * TWO_64 == x + 4 * (imm - q * 0x4000_0000_0000_0000);
  }

  lemma {:induction false} FullStepInStep(code: Code, fn: nat, x: nat, y: nat)
    requires InStep(fn, x) && FullEdge(code, x, y)
    ensures InStep(fn, y)
  {
    hide BranchFlow, Target, IsMissed, IsIndirect, MissedImm;
    if IsMissed(code(x)) && y == Target(x, MissedImm(code(x))) {
      TargetInStep(fn, x, MissedImm(code(x)));
    } else if Edge(code, x, y) && y != x + 4 {
      match BranchFlow(code(x))
      case Jump(imm) => TargetInStep(fn, x, imm);
      case Branch(imm) => TargetInStep(fn, x, imm);
    }
  }

  lemma {:induction false} ReachedInStep(code: Code, fn: nat, xs: seq<nat>, i: nat)
    requires FullRun(code, fn, xs) && i < |xs|
    ensures InStep(fn, xs[i])
    decreases i
  {
    hide FullEdge;
    if i > 0 {
      ReachedInStep(code, fn, xs, i - 1);
      assert FullEdge(code, xs[i - 1], xs[i - 1 + 1]);
      FullStepInStep(code, fn, xs[i - 1], xs[i]);
    }
  }

  // A step out of the stretch is taken at a way out.
  lemma {:induction false} FullStep(code: Code, fn: nat, stop: nat, target: nat, x: nat, y: nat)
    requires Aligned(fn, stop) && Closed(code, fn, stop, stop, target)
    requires BranchFlow(code(stop)).Jump? || BranchFlow(code(stop)).Return?
    requires Aligned(fn, x) && x <= stop && FullEdge(code, x, y)
    ensures (Aligned(fn, y) && y <= stop) || WayOut(code, fn, stop, x)
  {
    hide BranchFlow, Target, Calls, IsMissed, IsIndirect, MissedImm, Closed;
    FullStepInStep(code, fn, x, y);
    if Edge(code, x, y) && y >= fn && (x == stop ==> y <= stop) {
      StepStaysInside(code, fn, stop, target, x, y);
    }
  }

  lemma {:induction false} EscapeHasACause(code: Code, fn: nat, stop: nat, target: nat, xs: seq<nat>, i: nat)
    requires Aligned(fn, stop) && Closed(code, fn, stop, stop, target)
    requires BranchFlow(code(stop)).Jump? || BranchFlow(code(stop)).Return?
    requires FullRun(code, fn, xs) && i < |xs|
    ensures xs[i] > stop || !Aligned(fn, xs[i]) ==> exists x: nat :: Reaches(code, fn, x) && WayOut(code, fn, stop, x)
    decreases i
  {
    hide FullEdge, Closed, Aligned, WayOut, BranchFlow;
    if i == 0 {
      EntryIsAligned(fn, stop);
    } else {
      EscapeHasACause(code, fn, stop, target, xs, i - 1);
      var x := xs[i - 1];
      if Aligned(fn, x) && x <= stop {
        assert FullEdge(code, xs[i - 1], xs[i - 1 + 1]);
        FullStep(code, fn, stop, target, x, xs[i]);
        assert FullRun(code, fn, xs[..i]) && xs[..i][|xs[..i]| - 1] == x;
        assert Reaches(code, fn, x);
      }
    }
  }

  lemma {:induction false} LeavingEscapes(code: Code, fn: nat, stop: nat, x: nat)
    requires Aligned(fn, stop) && InStep(fn, x) && Reaches(code, fn, x) && WayOut(code, fn, stop, x)
    ensures exists y: nat :: Reaches(code, fn, y) && !(fn <= y <= stop)
  {
    hide IsMissed, IsIndirect, MissedImm, Target, BranchFlow;
    var xs :| FullRun(code, fn, xs) && xs[|xs| - 1] == x;
    var y := if IsIndirect(code(x)) then stop + 4
             else if IsMissed(code(x)) && !(fn <= Target(x, MissedImm(code(x))) <= stop) then
               Target(x, MissedImm(code(x)))
             else Target(x, BranchFlow(code(x)).imm);
    var ys := xs + [y];
    assert FullEdge(code, x, y);
    assert forall i :: 0 <= i < |xs| ==> ys[i] == xs[i];
    assert FullRun(code, fn, ys) && ys[|ys| - 1] == y;
    assert Reaches(code, fn, y);
  }

  // What an answer no is worth where the scan stops. With every direct branch taken for what it is
  // and BR for a jump to anywhere, the stretch up to the stop holds everything that can run, and
  // no call, exactly when nothing that runs is a way out of it.
  lemma {:induction false} FullFlowStaysInside(code: Code, fn: nat, target: nat)
    requires Scan(code, fn, fn, fn, target).Stopped?
    ensures var stop := Scan(code, fn, fn, fn, target).at;
            (forall x: nat :: Reaches(code, fn, x) ==> fn <= x <= stop && !Calls(code(x), x, target)) <==>
            !exists x: nat :: Reaches(code, fn, x) && WayOut(code, fn, stop, x)
  {
    hide Scan, FullEdge, WayOut, BranchFlow, Calls;
    var stop := Scan(code, fn, fn, fn, target).at;
    ScanIsClosed(code, fn, fn, fn, target);
    if exists x: nat :: Reaches(code, fn, x) && WayOut(code, fn, stop, x) {
      var x: nat :| Reaches(code, fn, x) && WayOut(code, fn, stop, x);
      var xs :| FullRun(code, fn, xs) && xs[|xs| - 1] == x;
      ReachedInStep(code, fn, xs, |xs| - 1);
      LeavingEscapes(code, fn, stop, x);
    } else {
      forall x: nat | Reaches(code, fn, x)
        ensures fn <= x <= stop && !Calls(code(x), x, target)
      {
        var xs :| FullRun(code, fn, xs) && xs[|xs| - 1] == x;
        EscapeHasACause(code, fn, stop, target, xs, |xs| - 1);
      }
    }
  }

  // CBNZ over a RET to the call: the scan ends at the RET and reports no call.
  function SkippedReturn(pc: nat): bv32 {
    if pc == 0x1000 then 0x35000040 // cbnz w0, 0x1008
    else if pc == 0x1004 then RET
    else 0x94000004 // bl pc + 0x10
  }

  lemma {:induction false} CallBehindAMissedBranch()
    ensures Scan(SkippedReturn, 0x1000, 0x1000, 0x1000, 0x1018) == Stopped(0x1004)
    ensures FullRun(SkippedReturn, 0x1000, [0x1000, 0x1008])
    ensures Calls(SkippedReturn(0x1008), 0x1008, 0x1018)
  {
    MissedFlow(0x35000040);
    assert MissedImm(0x35000040) == 2;
    assert Target(0x1000, 2) == 0x1008;
  }

  // A jump table: the range check skips the BR, so the scan passes it and ends at the default's
  // RET; the case behind that makes the call.
  function JumpTable(pc: nat): bv32 {
    if pc == 0x1000 then 0x34000060 // cbz w0, 0x100c
    else if pc == 0x1004 then 0xD61F0100 // br x8
    else if pc == 0x1008 then 0xD503201F // nop
    else if pc == 0x100C then RET
    else 0x94000004 // bl pc + 0x10
  }

  lemma {:induction false} CallBehindAJumpTable()
    ensures Scan(JumpTable, 0x1000, 0x1000, 0x1000, 0x1024) == Stopped(0x100C)
    ensures FullRun(JumpTable, 0x1000, [0x1000, 0x1004, 0x1014])
    ensures Calls(JumpTable(0x1014), 0x1014, 0x1024)
  {
    assert BranchFlow(0x34000060) == Branch(3) && Target(0x1000, 3) == 0x100C;
    assert BranchFlow(0xD61F0100) == Return && BranchFlow(0xD503201F) == Onward;
    assert Scan(JumpTable, 0x1000, 0x100C, 0x100C, 0x1024) == Stopped(0x100C);
    assert Scan(JumpTable, 0x1000, 0x1008, 0x100C, 0x1024) == Stopped(0x100C);
    assert Scan(JumpTable, 0x1000, 0x1004, 0x100C, 0x1024) == Stopped(0x100C);
    assert Edge(JumpTable, 0x1000, 0x1004);
  }

  // A jump table without a range check: the scan ends at its BR.
  function BareTable(pc: nat): bv32 {
    if pc == 0x1000 then 0xD61F0100 // br x8
    else 0x94000004 // bl pc + 0x10
  }

  // A jump over what stands behind it: the scan ends at the jump.
  function JumpFirst(pc: nat): bv32 {
    if pc == 0x1000 then 0x14000002 // b 0x1008
    else if pc == 0x1004 then RET
    else 0x94000004 // bl pc + 0x10
  }

  lemma {:induction false} CallBehindTheStop()
    ensures Scan(BareTable, 0x1000, 0x1000, 0x1000, 0x1014) == Stopped(0x1000)
    ensures FullRun(BareTable, 0x1000, [0x1000, 0x1004]) && Calls(BareTable(0x1004), 0x1004, 0x1014)
    ensures Scan(JumpFirst, 0x1000, 0x1000, 0x1000, 0x1018) == Stopped(0x1000)
    ensures FullRun(JumpFirst, 0x1000, [0x1000, 0x1008]) && Calls(JumpFirst(0x1008), 0x1008, 0x1018)
  {
    assert BranchFlow(0xD61F0100) == Return;
    assert BranchFlow(0x14000002) == Jump(2) && Target(0x1000, 2) == 0x1008;
  }

  // The other way round: a call that only a RET stands before, and that nothing jumps to.
  function DeadCall(pc: nat): bv32 {
    if pc == 0x1000 then 0x34000060 // cbz w0, 0x100c
    else if pc == 0x1008 then 0x94000004 // bl pc + 0x10
    else RET
  }

  lemma {:induction false} DeadCallIsNotReached(xs: seq<nat>, i: nat)
    requires FullRun(DeadCall, 0x1000, xs) && i < |xs|
    ensures xs[i] == 0x1000 || ((xs[i] == 0x1004 || xs[i] == 0x100C) && i == |xs| - 1)
    decreases i
  {
    assert BranchFlow(0x34000060) == Branch(3) && Target(0x1000, 3) == 0x100C;
    assert !IsMissed(0x34000060) && !IsIndirect(0x34000060);
    assert BranchFlow(RET) == Return && !IsMissed(RET) && !IsIndirect(RET);
    if i > 0 {
      DeadCallIsNotReached(xs, i - 1);
      assert FullEdge(DeadCall, xs[i - 1], xs[i - 1 + 1]);
    }
    if i < |xs| - 1 {
      assert FullEdge(DeadCall, xs[i], xs[i + 1]);
    }
  }

  // A hit nobody reaches.
  lemma {:induction false} HitWithoutARun()
    ensures Scan(DeadCall, 0x1000, 0x1000, 0x1000, 0x1018) == Found(0x1008)
    ensures !Reaches(DeadCall, 0x1000, 0x1008)
  {
    assert BranchFlow(0x34000060) == Branch(3) && Target(0x1000, 3) == 0x100C;
    assert BranchFlow(RET) == Return;
    assert Scan(DeadCall, 0x1000, 0x1008, 0x100C, 0x1018) == Found(0x1008);
    assert Scan(DeadCall, 0x1000, 0x1004, 0x100C, 0x1018) == Found(0x1008);
    forall xs | FullRun(DeadCall, 0x1000, xs)
      ensures xs[|xs| - 1] != 0x1008
    {
      DeadCallIsNotReached(xs, |xs| - 1);
    }
  }
}
