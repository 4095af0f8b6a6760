// The branches of the A64 instruction set, as their formats lay them out, against the masks of
// dylib/feats/webui.c and the flow of control they stand for.
module FnEncodings {
  import opened FnCalls
  import opened Options

  // `wide` chooses the 64-bit register; a bit number from 32 up needs one.
  datatype Insn =
    | B(imm: int) | Bl(imm: int)
    | BCond(cond: nat, imm: int) | BcCond(cond: nat, imm: int)
    | Cbz(wide: bool, reg: nat, imm: int) | Cbnz(wide: bool, reg: nat, imm: int)
    | Tbz(bit: nat, reg: nat, imm: int) | Tbnz(bit: nat, reg: nat, imm: int)
    | Br(reg: nat) | Ret

  predicate InRange(imm: int, half: nat) { 0 - half <= imm < half }

  // Immediates of 26, 19 and 14 bits, the sign among them.
  predicate Valid(insn: Insn) {
    match insn
    case B(imm) => InRange(imm, 0x2000000)
    case Bl(imm) => InRange(imm, 0x2000000)
    case BCond(cond, imm) => cond < 16 && InRange(imm, 0x40000)
    case BcCond(cond, imm) => cond < 16 && InRange(imm, 0x40000)
    case Cbz(_, reg, imm) => reg < 32 && InRange(imm, 0x40000)
    case Cbnz(_, reg, imm) => reg < 32 && InRange(imm, 0x40000)
    case Tbz(bit, reg, imm) => bit < 64 && reg < 32 && InRange(imm, 0x2000)
    case Tbnz(bit, reg, imm) => bit < 64 && reg < 32 && InRange(imm, 0x2000)
    case Br(reg) => reg < 32
    case Ret => true
  }

  // ---- numbers as bits ----

  function Number(f: bv32): nat { f as int }

  lemma {:induction false} Doubled(x: bv32)
    requires x <= 0x3FFFFFF
    ensures Number(x << 1) == 2 * Number(x) && Number((x << 1) | 1) == 2 * Number(x) + 1
  {
    DoubledAndOne(x);
  }

  lemma {:induction false} DoubledAndOne(x: bv32)
    requires x <= 0x3FFFFFF
    ensures Number((x << 1) | 1) == 2 * Number(x) + 1
  {}

  lemma {:induction false} Small(x: bv32)
    ensures x <= 0x3FFFFFF <==> Number(x) <= 0x3FFFFFF
    ensures x <= 0x7FFFF <==> Number(x) <= 0x7FFFF
    ensures x <= 0x3FFF <==> Number(x) <= 0x3FFF
    ensures x <= 31 <==> Number(x) <= 31
    ensures x <= 15 <==> Number(x) <= 15
    ensures x == 0 <==> Number(x) == 0
  {}

  function BitsOf(n: nat): bv32 {
    if n == 0 then 0 else Join(BitsOf(n / 2), n % 2 == 1)
  }

  // One bit more at the end.
  function Join(f: bv32, odd: bool): bv32 {
    if odd then (f << 1) | 1 else f << 1
  }

  lemma {:induction false} JoinIs(f: bv32, odd: bool)
    requires f <= 0x3FFFFFF
    ensures Number(Join(f, odd)) == 2 * Number(f) + if odd then 1 else 0
  {
    hide Number;
    Doubled(f);
  }

  // The bits denote the number they were made of.
  lemma {:induction false} NumberOfBits(n: nat)
    requires n < 0x4000000
    ensures Number(BitsOf(n)) == n
  {
    hide Number, Join;
    if n == 0 {
      NoBits();
    } else {
      NumberOfBits(n / 2);
      Small(BitsOf(n / 2));
      JoinIs(BitsOf(n / 2), n % 2 == 1);
    }
  }

  lemma {:induction false} Halves(f: bv32)
    requires f <= 0x3FFFFFF
    ensures f >> 1 <= 0x3FFFFFF
    ensures f & 1 == 0 ==> f == (f >> 1) << 1
    ensures f & 1 != 0 ==> f == ((f >> 1) << 1) | 1
  {}

  // The number of a word is twice that of its upper bits, and one more when the last bit is set.
  lemma {:induction false} NumberOfHalves(f: bv32)
    requires f <= 0x3FFFFFF
    ensures Number(f) == 2 * Number(f >> 1) + (if f & 1 != 0 then 1 else 0)
  {
    hide Number;
    Halves(f);
    Doubled(f >> 1);
  }

  lemma {:induction false} BitsOfHalves(n: nat, half: bv32, odd: bool)
    requires 0 < n < 0x4000000 && n == 2 * Number(half) + (if odd then 1 else 0) && BitsOf(Number(half)) == half
    ensures BitsOf(n) == Join(half, odd)
  {
    hide Number, Join;
    assert n / 2 == Number(half);
  }

  lemma {:induction false} BitsOfNumber(f: bv32)
    requires f <= 0x3FFFFFF
    ensures Number(f) < 0x4000000 && BitsOf(Number(f)) == f
    decreases Number(f)
  {
    hide BitsOf, Number;
    Small(f);
    if f == 0 {
      NoBits();
    } else {
      NumberOfHalves(f);
      Halves(f);
      BitsOfNumber(f >> 1);
      BitsOfHalves(Number(f), f >> 1, f & 1 != 0);
    }
  }

  lemma {:induction false} NoBits()
    ensures Number(0) == 0 && BitsOf(0) == 0
  {}

  // ---- fields ----

  // Two's complement in a field of 2 * half values.
  function Field(imm: int, half: nat): bv32
    requires InRange(imm, half)
  {
    BitsOf(if imm >= 0 then imm else imm + 2 * half)
  }

  function Word(insn: Insn): bv32
    requires Valid(insn)
  {
    match insn
    case B(imm) => 0x14000000 | Field(imm, 0x2000000)
    case Bl(imm) => 0x94000000 | Field(imm, 0x2000000)
    case BCond(cond, imm) => 0x54000000 | (Field(imm, 0x40000) << 5) | BitsOf(cond)
    case BcCond(cond, imm) => 0x54000010 | (Field(imm, 0x40000) << 5) | BitsOf(cond)
    case Cbz(wide, reg, imm) => Width(wide) | 0x34000000 | (Field(imm, 0x40000) << 5) | BitsOf(reg)
    case Cbnz(wide, reg, imm) => Width(wide) | 0x35000000 | (Field(imm, 0x40000) << 5) | BitsOf(reg)
    case Tbz(bit, reg, imm) => Width(bit >= 32) | 0x36000000 | TestedBit(bit) | (Field(imm, 0x2000) << 5) | BitsOf(reg)
    case Tbnz(bit, reg, imm) => Width(bit >= 32) | 0x37000000 | TestedBit(bit) | (Field(imm, 0x2000) << 5) | BitsOf(reg)
    case Br(reg) => 0xD61F0000 | (BitsOf(reg) << 5)
    case Ret => 0xD65F03C0
  }

  function Width(wide: bool): bv32 { if wide then 0x80000000 else 0 }

  function TestedBit(bit: nat): bv32
    requires bit < 64
  {
    BitsOf(bit % 32) << 19
  }

  lemma {:induction false} Extended26(f: bv32)
    requires f <= 0x3FFFFFF
    ensures SignExtend(f, 0x2000000) == if Number(f) >= 0x2000000 then Number(f) - 0x4000000 else Number(f)
  {
    SignBits(f);
  }

  lemma {:induction false} Extended19(f: bv32)
    requires f <= 0x7FFFF
    ensures SignExtend(f, 0x40000) == if Number(f) >= 0x40000 then Number(f) - 0x80000 else Number(f)
  {
    SignBits(f);
  }

  lemma {:induction false} Extended14(f: bv32)
    requires f <= 0x3FFF
    ensures SignExtend(f, 0x2000) == if Number(f) >= 0x2000 then Number(f) - 0x4000 else Number(f)
  {
    SignBits(f);
  }

  // The sign extension gives back what was put into the field.
  lemma {:induction false} Field26(imm: int)
    requires InRange(imm, 0x2000000)
    ensures Field(imm, 0x2000000) <= 0x3FFFFFF && SignExtend(Field(imm, 0x2000000), 0x2000000) == imm
  {
    hide SignExtend, BitsOf, Number;
    NumberOfBits(if imm >= 0 then imm else imm + 0x4000000);
    Small(Field(imm, 0x2000000));
    Extended26(Field(imm, 0x2000000));
  }

  lemma {:induction false} Field19(imm: int)
    requires InRange(imm, 0x40000)
    ensures Field(imm, 0x40000) <= 0x7FFFF && SignExtend(Field(imm, 0x40000), 0x40000) == imm
  {
    hide SignExtend, BitsOf, Number;
    NumberOfBits(if imm >= 0 then imm else imm + 0x80000);
    Small(Field(imm, 0x40000));
    Extended19(Field(imm, 0x40000));
  }

  lemma {:induction false} Field14(imm: int)
    requires InRange(imm, 0x2000)
    ensures Field(imm, 0x2000) <= 0x3FFF && SignExtend(Field(imm, 0x2000), 0x2000) == imm
  {
    hide SignExtend, BitsOf, Number;
    NumberOfBits(if imm >= 0 then imm else imm + 0x4000);
    Small(Field(imm, 0x2000));
    Extended14(Field(imm, 0x2000));
  }

  lemma {:induction false} SignBits(f: bv32)
    ensures f <= 0x3FFFFFF ==> (f & 0x2000000 != 0 <==> Number(f) >= 0x2000000)
    ensures f <= 0x7FFFF ==> (f & 0x40000 != 0 <==> Number(f) >= 0x40000)
    ensures f <= 0x3FFF ==> (f & 0x2000 != 0 <==> Number(f) >= 0x2000)
  {
    Signs(f);
    Halfway(f);
  }

  lemma {:induction false} Halfway(f: bv32)
    ensures f >= 0x2000000 <==> Number(f) >= 0x2000000
    ensures f >= 0x40000 <==> Number(f) >= 0x40000
    ensures f >= 0x2000 <==> Number(f) >= 0x2000
  {}

  lemma {:induction false} Signs(f: bv32)
    ensures f <= 0x3FFFFFF ==> (f & 0x2000000 != 0 <==> f >= 0x2000000)
    ensures f <= 0x7FFFF ==> (f & 0x40000 != 0 <==> f >= 0x40000)
    ensures f <= 0x3FFF ==> (f & 0x2000 != 0 <==> f >= 0x2000)
  {}

  // ---- what the masks make of a word ----

  lemma {:induction false} WideBits26(f: bv32)
    requires f <= 0x3FFFFFF
    ensures (0x14000000 | f) & 0xFC000000 == 0x14000000 && (0x14000000 | f) & 0x03FFFFFF == f
    ensures (0x94000000 | f) & 0xFC000000 == 0x94000000 && (0x94000000 | f) & 0x03FFFFFF == f
  {}

  // A word of one of the conditional formats: its first byte, less the width, and its immediate.
  lemma {:induction false} CondBits(f: bv32, low: bv32)
    requires f <= 0x7FFFF && low <= 15
    ensures var w := 0x54000000 | (f << 5) | low; w & 0xFF000010 == 0x54000000 && (w >> 5) & 0x7FFFF == f
    ensures var w := 0x54000010 | (f << 5) | low; w & 0xFF000010 == 0x54000010 && (w >> 5) & 0x7FFFF == f
  {}

  lemma {:induction false} CompareBits(wide: bv32, f: bv32, low: bv32)
    requires (wide == 0 || wide == 0x80000000) && f <= 0x7FFFF && low <= 31
    ensures var w := wide | 0x34000000 | (f << 5) | low; w & 0x7F000000 == 0x34000000 && (w >> 5) & 0x7FFFF == f
    ensures var w := wide | 0x35000000 | (f << 5) | low; w & 0x7F000000 == 0x35000000 && (w >> 5) & 0x7FFFF == f
  {}

  lemma {:induction false} TestBits(wide: bv32, bit: bv32, f: bv32, low: bv32)
    requires (wide == 0 || wide == 0x80000000) && bit <= 31 && f <= 0x3FFF && low <= 31
    ensures var w := wide | 0x36000000 | (bit << 19) | (f << 5) | low;
            w & 0x7F000000 == 0x36000000 && (w >> 5) & 0x3FFF == f
    ensures var w := wide | 0x37000000 | (bit << 19) | (f << 5) | low;
            w & 0x7F000000 == 0x37000000 && (w >> 5) & 0x3FFF == f
  {}

  lemma {:induction false} RegisterBits(low: bv32)
    requires low <= 31
    ensures (0xD61F0000 | (low << 5)) & 0xFFFFFC1F == 0xD61F0000
  {}

  // ---- what the masks make of a format ----

  predicate NoCall(w: bv32) { w & 0xFC000000 != 0x94000000 }

  lemma {:induction false} CallOf(w: bv32, imm: int)
    requires w & 0xFC000000 == 0x94000000 && SignExtend(w & 0x03FFFFFF, 0x2000000) == imm
    ensures forall pc, target :: Calls(w, pc, target) <==> Target(pc, imm) == target
  {
    hide SignExtend;
  }

  lemma {:induction false} NoCallOf(w: bv32)
    requires NoCall(w)
    ensures forall pc, target :: !Calls(w, pc, target)
  {
    hide SignExtend;
  }

  // The masks alone, without the immediates.
  lemma {:induction false} MaskedFlow(w: bv32)
    ensures w & 0xFC000000 == 0x14000000 ==>
              BranchFlow(w) == Jump(SignExtend(w & 0x03FFFFFF, 0x2000000)) && !IsMissed(w) && !IsIndirect(w)
    ensures w & 0xFC000000 == 0x94000000 ==> BranchFlow(w) == Onward && !IsMissed(w) && !IsIndirect(w)
    ensures w & 0xFF000010 == 0x54000000 || w & 0x7F000000 == 0x34000000 ==>
              BranchFlow(w) == Branch(SignExtend((w >> 5) & 0x7FFFF, 0x40000)) && !IsMissed(w) && !IsIndirect(w)
    ensures w & 0x7F000000 == 0x36000000 ==>
              BranchFlow(w) == Branch(SignExtend((w >> 5) & 0x3FFF, 0x2000)) && !IsMissed(w) && !IsIndirect(w)
    ensures w & 0xFF000010 == 0x54000010 || w & 0x7F000000 == 0x35000000 ==>
              BranchFlow(w) == Onward && IsMissed(w) && !IsIndirect(w)
              && MissedImm(w) == SignExtend((w >> 5) & 0x7FFFF, 0x40000)
    ensures w & 0x7F000000 == 0x37000000 ==>
              BranchFlow(w) == Onward && IsMissed(w) && !IsIndirect(w)
              && MissedImm(w) == SignExtend((w >> 5) & 0x3FFF, 0x2000)
    ensures w & 0xFFFFFC1F == 0xD61F0000 ==> BranchFlow(w) == Return && !IsMissed(w) && IsIndirect(w)
    ensures w == RET ==> BranchFlow(w) == Return && !IsMissed(w) && !IsIndirect(w)
    ensures w & 0xFC000000 == 0x14000000 || w & 0xFF000010 == 0x54000000 || w & 0xFF000010 == 0x54000010 ==> NoCall(w)
    ensures w & 0x7C000000 == 0x34000000 || w & 0xFFFFFC1F == 0xD61F0000 || w == RET ==> NoCall(w)
  {
    hide SignExtend;
  }

  // The flow an instruction stands for: the jump or the branch it is, as far as the masks know it.
  function Recognised(insn: Insn): Flow {
    match insn
    case B(imm) => Jump(imm)
    case BCond(_, imm) => Branch(imm)
    case Cbz(_, _, imm) => Branch(imm)
    case Tbz(_, _, imm) => Branch(imm)
    case Br(_) => Return
    case Ret => Return
    case _ => Onward
  }

  // The displacement of a branch the masks miss.
  function Missed(insn: Insn): Option<int> {
    match insn
    case BcCond(_, imm) => Some(imm)
    case Cbnz(_, _, imm) => Some(imm)
    case Tbnz(_, _, imm) => Some(imm)
    case _ => None
  }

  lemma {:induction false} SmallBits(n: nat)
    ensures n < 16 ==> BitsOf(n) <= 15
    ensures n < 32 ==> BitsOf(n) <= 31
  {
    hide Number, BitsOf;
    if n < 32 {
      NumberOfBits(n);
      Small(BitsOf(n));
    }
  }

  // Every instruction of the formats is recognised, or missed, with exactly its own displacement.
  lemma {:induction false} WordsAreRecognised(insn: Insn)
    requires Valid(insn)
    ensures var w := Word(insn);
            && BranchFlow(w) == Recognised(insn)
            && (IsMissed(w) <==> Missed(insn).Some?)
            && (Missed(insn).Some? ==> MissedImm(w) == Missed(insn).value)
            && (IsIndirect(w) <==> insn.Br?)
            && forall pc, target :: Calls(w, pc, target) <==> insn.Bl? && Target(pc, insn.imm) == target
  {
    hide BitsOf, Field, SignExtend, BranchFlow, IsMissed, IsIndirect, MissedImm, Calls, Target, NoCall;
    var w := Word(insn);
    MaskedFlow(w);
    if NoCall(w) {
      NoCallOf(w);
    }
    match insn
    case B(imm) =>
      Field26(imm);
      WideBits26(Field(imm, 0x2000000));
    case Bl(imm) =>
      Field26(imm);
      WideBits26(Field(imm, 0x2000000));
      CallOf(w, imm);
    case BCond(cond, imm) =>
      Field19(imm);
      SmallBits(cond);
      CondBits(Field(imm, 0x40000), BitsOf(cond));
    case BcCond(cond, imm) =>
      Field19(imm);
      SmallBits(cond);
      CondBits(Field(imm, 0x40000), BitsOf(cond));
    case Cbz(wide, reg, imm) =>
      Field19(imm);
      SmallBits(reg);
      CompareBits(Width(wide), Field(imm, 0x40000), BitsOf(reg));
    case Cbnz(wide, reg, imm) =>
      Field19(imm);
      SmallBits(reg);
      CompareBits(Width(wide), Field(imm, 0x40000), BitsOf(reg));
    case Tbz(bit, reg, imm) =>
      Field14(imm);
      SmallBits(reg);
      SmallBits(bit % 32);
      TestBits(Width(bit >= 32), BitsOf(bit % 32), Field(imm, 0x2000), BitsOf(reg));
    case Tbnz(bit, reg, imm) =>
      Field14(imm);
      SmallBits(reg);
      SmallBits(bit % 32);
      TestBits(Width(bit >= 32), BitsOf(bit % 32), Field(imm, 0x2000), BitsOf(reg));
    case Br(reg) =>
      SmallBits(reg);
      RegisterBits(BitsOf(reg));
    case Ret =>
  }

  // ---- what the processor does ----

  // From x the program goes on at y. Calls come back, and a BR may go to any instruction.
  predicate Goes(insn: Insn, x: nat, y: nat) {
    match insn
    case B(imm) => y == Target(x, imm)
    case Bl(_) => y == x + 4
    case BCond(_, imm) => y == x + 4 || y == Target(x, imm)
    case BcCond(_, imm) => y == x + 4 || y == Target(x, imm)
    case Cbz(_, _, imm) => y == x + 4 || y == Target(x, imm)
    case Cbnz(_, _, imm) => y == x + 4 || y == Target(x, imm)
    case Tbz(_, _, imm) => y == x + 4 || y == Target(x, imm)
    case Tbnz(_, _, imm) => y == x + 4 || y == Target(x, imm)
    case Br(_) => (y - x) % 4 == 0
    case Ret => false
  }

  // The full flow is the processor's for every instruction of these formats, and the recognised
  // flow is it too but for a BR and the branches the masks miss.
  lemma {:induction false} FullFlowIsTheProcessors(code: Code, x: nat, y: nat, insn: Insn)
    requires Valid(insn) && code(x) == Word(insn)
    ensures FullEdge(code, x, y) <==> Goes(insn, x, y)
    ensures Missed(insn).None? && !insn.Br? ==> (Edge(code, x, y) <==> Goes(insn, x, y))
    ensures Missed(insn).Some? ==> (Edge(code, x, y) <==> y == x + 4)
    ensures forall target :: Calls(code(x), x, target) <==> insn.Bl? && Target(x, insn.imm) == target
  {
    hide Word, Valid, BranchFlow, IsMissed, IsIndirect, MissedImm, Calls, Target;
    WordsAreRecognised(insn);
  }

  // ---- every word the masks know is one of these ----

  lemma {:induction false} FieldOfBits(f: bv32, half: nat) returns (imm: int)
    requires f <= 0x3FFFFFF && Number(f) < 2 * half
    ensures InRange(imm, half) && Field(imm, half) == f
  {
    hide Number, BitsOf;
    BitsOfNumber(f);
    imm := if Number(f) < half then Number(f) else Number(f) - 2 * half;
  }

  lemma {:induction false} Parts26(w: bv32)
    ensures w & 0x03FFFFFF <= 0x3FFFFFF
    ensures w & 0xFC000000 == 0x14000000 ==> w == 0x14000000 | (w & 0x03FFFFFF)
    ensures w & 0xFC000000 == 0x94000000 ==> w == 0x94000000 | (w & 0x03FFFFFF)
  {}

  lemma {:induction false} Parts19(w: bv32)
    ensures (w >> 5) & 0x7FFFF <= 0x7FFFF && w & 15 <= 15 && w & 31 <= 31
    ensures w & 0xFF000010 == 0x54000000 ==> w == 0x54000000 | (((w >> 5) & 0x7FFFF) << 5) | (w & 15)
    ensures w & 0xFF000010 == 0x54000010 ==> w == 0x54000010 | (((w >> 5) & 0x7FFFF) << 5) | (w & 15)
    ensures w & 0x7F000000 == 0x34000000 ==>
              w == (w & 0x80000000) | 0x34000000 | (((w >> 5) & 0x7FFFF) << 5) | (w & 31)
    ensures w & 0x7F000000 == 0x35000000 ==>
              w == (w & 0x80000000) | 0x35000000 | (((w >> 5) & 0x7FFFF) << 5) | (w & 31)
    ensures w & 0x80000000 == 0 || w & 0x80000000 == 0x80000000
  {}

  lemma {:induction false} Parts14(w: bv32)
    ensures (w >> 5) & 0x3FFF <= 0x3FFF && (w >> 19) & 31 <= 31
    ensures w & 0x7F000000 == 0x36000000 ==>
              w == (w & 0x80000000) | 0x36000000 | (((w >> 19) & 31) << 19) | (((w >> 5) & 0x3FFF) << 5) | (w & 31)
    ensures w & 0x7F000000 == 0x37000000 ==>
              w == (w & 0x80000000) | 0x37000000 | (((w >> 19) & 31) << 19) | (((w >> 5) & 0x3FFF) << 5) | (w & 31)
  {}

  lemma {:induction false} PartsOfBr(w: bv32)
    ensures (w >> 5) & 31 <= 31
    ensures w & 0xFFFFFC1F == 0xD61F0000 ==> w == 0xD61F0000 | (((w >> 5) & 31) << 5)
  {}

  // The number of a part of a word, and the part made of it again.
  lemma {:induction false} PartNumbers(f: bv32)
    ensures f <= 0x3FFFFFF ==> Number(f) < 0x4000000 && BitsOf(Number(f)) == f
    ensures f <= 0x7FFFF ==> f <= 0x3FFFFFF && Number(f) < 0x80000
    ensures f <= 0x3FFF ==> f <= 0x3FFFFFF && Number(f) < 0x4000
    ensures f <= 31 ==> f <= 0x3FFFFFF && Number(f) < 32
    ensures f <= 15 ==> f <= 0x3FFFFFF && Number(f) < 16
  {
    hide BitsOf, Number;
    Small(f);
    if f <= 0x3FFFFFF {
      BitsOfNumber(f);
    }
  }

  // What the masks take for anything but straight flow without a call.
  predicate Known(w: bv32) {
    BranchFlow(w) != Onward || IsMissed(w) || IsIndirect(w) || !NoCall(w)
  }

  predicate SomeMask(w: bv32) {
    || w & 0xFC000000 == 0x14000000 || w & 0xFC000000 == 0x94000000
    || w & 0xFF000010 == 0x54000000 || w & 0xFF000010 == 0x54000010
    || w & 0x7F000000 == 0x34000000 || w & 0x7F000000 == 0x35000000
    || w & 0x7F000000 == 0x36000000 || w & 0x7F000000 == 0x37000000
    || w & 0xFFFFFC1F == 0xD61F0000 || w == RET
  }

  lemma {:induction false} KnownHasMask(w: bv32)
    requires Known(w)
    ensures SomeMask(w)
  {
    hide SignExtend;
  }

  lemma {:induction false} JumpWord(w: bv32) returns (insn: Insn)
    requires w & 0xFC000000 == 0x14000000 || w & 0xFC000000 == 0x94000000
    ensures Valid(insn) && Word(insn) == w
  {
    hide BitsOf, Number, Field;
    var f := w & 0x03FFFFFF;
    Parts26(w);
    PartNumbers(f);
    var imm := FieldOfBits(f, 0x2000000);
    insn := if w & 0xFC000000 == 0x14000000 then B(imm) else Bl(imm);
  }

  lemma {:induction false} CondWord(w: bv32) returns (insn: Insn)
    requires w & 0xFF000010 == 0x54000000 || w & 0xFF000010 == 0x54000010
    ensures Valid(insn) && Word(insn) == w
  {
    hide BitsOf, Number, Field;
    var f, cond := (w >> 5) & 0x7FFFF, w & 15;
    Parts19(w);
    PartNumbers(f);
    PartNumbers(cond);
    var imm := FieldOfBits(f, 0x40000);
    insn := if w & 0xFF000010 == 0x54000000 then BCond(Number(cond), imm) else BcCond(Number(cond), imm);
  }

  lemma {:induction false} CompareWord(w: bv32) returns (insn: Insn)
    requires w & 0x7F000000 == 0x34000000 || w & 0x7F000000 == 0x35000000
    ensures Valid(insn) && Word(insn) == w
  {
    hide BitsOf, Number, Field;
    var f, reg, wide := (w >> 5) & 0x7FFFF, w & 31, w & 0x80000000 != 0;
    Parts19(w);
    PartNumbers(f);
    PartNumbers(reg);
    var imm := FieldOfBits(f, 0x40000);
    assert Width(wide) == w & 0x80000000;
    insn := if w & 0x7F000000 == 0x34000000 then Cbz(wide, Number(reg), imm) else Cbnz(wide, Number(reg), imm);
  }

  lemma {:induction false} TopAndLowBits(w: bv32)
    ensures w & 31 <= 31 && (w & 0x80000000 == 0 || w & 0x80000000 == 0x80000000)
  {}

  lemma {:induction false} TestedBitOf(low: bv32, wide: bool) returns (bit: nat)
    requires low <= 31
    ensures bit < 64 && (bit >= 32 <==> wide) && BitsOf(bit % 32) == low && TestedBit(bit) == low << 19
  {
    hide BitsOf, Number;
    PartNumbers(low);
    bit := Number(low) + if wide then 32 else 0;
  }

  lemma {:induction false} TestWord(w: bv32) returns (insn: Insn)
    requires w & 0x7F000000 == 0x36000000 || w & 0x7F000000 == 0x37000000
    ensures Valid(insn) && Word(insn) == w
  {
    hide BitsOf, Number, Field, TestedBit;
    var f, reg, wide := (w >> 5) & 0x3FFF, w & 31, w & 0x80000000 != 0;
    Parts14(w);
    TopAndLowBits(w);
    PartNumbers(f);
    PartNumbers(reg);
    var imm := FieldOfBits(f, 0x2000);
    var bit := TestedBitOf((w >> 19) & 31, wide);
    assert Width(wide) == w & 0x80000000;
    insn := if w & 0x7F000000 == 0x36000000 then Tbz(bit, Number(reg), imm) else Tbnz(bit, Number(reg), imm);
  }

  lemma {:induction false} RegisterWord(w: bv32) returns (insn: Insn)
    requires w & 0xFFFFFC1F == 0xD61F0000
    ensures Valid(insn) && Word(insn) == w
  {
    hide BitsOf, Number;
    PartsOfBr(w);
    PartNumbers((w >> 5) & 31);
    insn := Br(Number((w >> 5) & 31));
  }

  // Whatever word the masks do not take for straight flow is an instruction of these formats.
  lemma {:induction false} KnownWordsAreInstructions(w: bv32) returns (insn: Insn)
    requires Known(w)
    ensures Valid(insn) && Word(insn) == w
  {
    hide Known, Word, Valid;
    KnownHasMask(w);
    if w & 0xFC000000 == 0x14000000 || w & 0xFC000000 == 0x94000000 {
      insn := JumpWord(w);
    } else if w & 0xFF000010 == 0x54000000 || w & 0xFF000010 == 0x54000010 {
      insn := CondWord(w);
    } else if w & 0x7F000000 == 0x34000000 || w & 0x7F000000 == 0x35000000 {
      insn := CompareWord(w);
    } else if w & 0x7F000000 == 0x36000000 || w & 0x7F000000 == 0x37000000 {
      insn := TestWord(w);
    } else if w & 0xFFFFFC1F == 0xD61F0000 {
      insn := RegisterWord(w);
    } else {
      insn := Ret;
      RetWord();
    }
  }

  lemma {:induction false} RetWord()
    ensures Valid(Ret) && Word(Ret) == RET
  {}
}
