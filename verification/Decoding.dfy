/** From instruction words to handlers: the registered encodings of RV64I, RV64M and RV64C
    (rv64i.cpp, rv64m.cpp, rv64c.cpp), read off the fields their patterns fix. */
module Decoding {
  import opened Words
  import opened Options
  import opened Guest

  function Opcode(inst: nat): nat { inst % 128 }
  function Funct3(inst: nat): nat { inst / 0x1000 % 8 }
  function Funct7(inst: nat): nat { inst / 0x200_0000 % 128 }

  /** The instruction's length in bytes. */
  function SizeOf(inst: nat): nat { if inst % 4 == 3 then 4 else 2 }

  /** OP and OP-32: base operations, SUB and SRA, multiply and divide. */
  function RegisterForm(inst: nat, word: bool): (r: Option<Insn>)
    ensures r.Some? ==> r.value.OpR? || r.value.OpM?
    ensures r.Some? ==> Registered(Decoded(r.value, inst))
  {
    var f3 := Funct3(inst);
    if Funct7(inst) == 0 then
      var op := [ADD, SLL, SLT, SLTU, XOR, SRL, OR, AND][f3];
      if word && op !in {ADD, SLL, SRL} then None else Some(OpR(op, word))
    else if Funct7(inst) == 0x20 then
      if f3 == 0 then Some(OpR(SUB, word)) else if f3 == 5 then Some(OpR(SRA, word)) else None
    else if Funct7(inst) == 1 then
      var op := [MUL, MULH, MULHSU, MULHU, DIV, DIVU, REM, REMU][f3];
      if word && op in {MULH, MULHSU, MULHU} then None else Some(OpM(op, word))
    else None
  }

  /** OP-IMM and OP-IMM-32.  Shift amounts have six bits, five in the word forms. */
  function ImmediateForm(inst: nat, word: bool): (r: Option<Insn>)
    ensures r.Some? ==> r.value.OpI? && Registered(Decoded(r.value, inst))
  {
    var f3 := Funct3(inst);
    var top := if word then Funct7(inst) else Funct7(inst) / 2 * 2;
    if f3 == 1 then (if top == 0 then Some(OpI(SLL, word)) else None)
    else if f3 == 5 then
      (if top == 0 then Some(OpI(SRL, word)) else if top == 0x20 then Some(OpI(SRA, word)) else None)
    else
      var op := [ADD, ADD, SLT, SLTU, XOR, ADD, OR, AND][f3];
      if word && f3 != 0 then None else Some(OpI(op, word))
  }

  function LoadForm(inst: nat): (r: Option<Insn>)
    ensures r.Some? ==> r.value.Load? && Registered(Decoded(r.value, inst))
  {
    var f3 := Funct3(inst);
    if f3 == 7 then None else Some(Load([1, 2, 4, 8, 1, 2, 4][f3], f3 < 4))
  }

  function StoreForm(inst: nat): (r: Option<Insn>)
    ensures r.Some? ==> r.value.Store? && Registered(Decoded(r.value, inst))
  {
    var f3 := Funct3(inst);
    if f3 < 4 then Some(Store([1, 2, 4, 8][f3])) else None
  }

  function BranchForm(inst: nat): (r: Option<Insn>)
    ensures r.Some? ==> r.value.Branch?
  {
    var f3 := Funct3(inst);
    if f3 == 2 || f3 == 3 then None else Some(Branch([BEQ, BNE, BEQ, BEQ, BLT, BGE, BLTU, BGEU][f3]))
  }

  function Wide(inst: nat): (r: Option<Insn>)
    ensures r.Some? ==>
              !IsCompressed(r.value) && Registered(Decoded(r.value, inst)) && ControlEncoding(Decoded(r.value, inst))
    ensures r.Some? ==> inst % 4 == 3
  {
    LowBits(inst);
    match Opcode(inst)
    case 0x33 => RegisterForm(inst, false)
    case 0x3B => RegisterForm(inst, true)
    case 0x13 => ImmediateForm(inst, false)
    case 0x1B => ImmediateForm(inst, true)
    case 0x03 => LoadForm(inst)
    case 0x23 => StoreForm(inst)
    case 0x63 => BranchForm(inst)
    case 0x6F => Some(Jal)
    case 0x67 => if Funct3(inst) == 0 then Some(Jalr) else None
    case 0x37 => Some(Lui)
    case 0x17 => Some(Auipc)
    case _ => None
  }

  lemma LowBits(inst: nat)
    ensures inst % 4 == inst % 128 % 4
  {
    hide *;
    var q, r := inst / 128, inst % 128;
    DivModUnique(inst, 4, 32 * q + r / 4, r % 4);
  }

  /** The top three bits of a compressed word. */
  function CFunct3(inst: nat): nat { inst / 0x2000 % 8 }

  function Quadrant0(inst: nat): (r: Option<Insn>)
    ensures r.Some? ==> IsCompressed(r.value) && !IsControl(r.value) && Registered(Decoded(r.value, inst))
  {
    match CFunct3(inst)
    case 0 => Some(CAddi4spn)
    case 2 => Some(CLoad(4))
    case 3 => Some(CLoad(8))
    case 6 => Some(CStore(4))
    case 7 => Some(CStore(8))
    case _ => None
  }

  /** Shifts, ANDI and the register operations of quadrant 1. */
  function CArith(inst: nat): (r: Option<Insn>)
    ensures r.Some? ==> IsCompressed(r.value) && !IsControl(r.value) && Registered(Decoded(r.value, inst))
  {
    var kind := inst / 0x400 % 4;
    var op := inst / 0x20 % 4;
    if kind == 0 then Some(CSrli)
    else if kind == 1 then Some(CSrai)
    else if kind == 2 then Some(CAndi)
    else if inst / 0x1000 % 2 == 0 then Some(CAlu([SUB, XOR, OR, AND][op], false))
    else if op == 0 then Some(CAlu(SUB, true))
    else if op == 1 then Some(CAlu(ADD, true))
    else None
  }

  function Quadrant1(inst: nat): (r: Option<Insn>)
    requires inst % 4 == 1
    ensures r.Some? ==>
              IsCompressed(r.value) && Registered(Decoded(r.value, inst)) && ControlEncoding(Decoded(r.value, inst))
  {
    match CFunct3(inst)
    case 0 => if inst == 1 then Some(CNop) else Some(CAddi)
    case 1 => Some(CAddiw)
    case 2 => Some(CLi)
    case 3 => Some(CLuiAddi16sp)
    case 4 => CArith(inst)
    case 5 => Some(CJ)
    case 6 => Some(CBeqz)
    case _ => Some(CBnez)
  }

  /** Jumps and moves of quadrant 2; the most specific pattern wins. */
  function CJumpOrMove(inst: nat): (r: Option<Insn>)
    requires inst % 4 == 2 && CFunct3(inst) == 4
    ensures r.Some? ==>
              IsCompressed(r.value) && Registered(Decoded(r.value, inst)) && ControlEncoding(Decoded(r.value, inst))
  {
    SecondField(inst);
    if inst / 0x1000 % 2 == 0 then (if CRs2(inst) == 0 then Some(CJr) else Some(CMv))
    else if inst == 0x9002 then None
    else if CRs2(inst) == 0 then Some(CJalr)
    else Some(CAdd)
  }

  lemma SecondField(inst: nat)
    requires inst % 4 == 2
    ensures CRs2(inst) == 0 ==> inst % 128 == 2
  {
    var q := inst / 4;
    if q % 32 == 0 {
      hide *;
      DivModUnique(inst, 128, q / 32, 2);
    }
  }

  function Quadrant2(inst: nat): (r: Option<Insn>)
    requires inst % 4 == 2
    ensures r.Some? ==>
              IsCompressed(r.value) && Registered(Decoded(r.value, inst)) && ControlEncoding(Decoded(r.value, inst))
  {
    match CFunct3(inst)
    case 0 => Some(CSlli)
    case 2 => Some(CLoadSp(4))
    case 3 => Some(CLoadSp(8))
    case 4 => CJumpOrMove(inst)
    case 6 => Some(CStoreSp(4))
    case 7 => Some(CStoreSp(8))
    case _ => None
  }

  /** The instruction a word stands for, if it is one of the three sets modelled here. */
  function Decode(inst: nat): (r: Option<Decoded>)
    ensures r.Some? ==>
              r.value.inst == inst && Registered(r.value) && ControlEncoding(r.value) && Size(r.value) == SizeOf(inst)
  {
    var op := if inst % 4 == 3 then Wide(inst)
              else if inst % 4 == 0 then Quadrant0(inst)
              else if inst % 4 == 1 then Quadrant1(inst)
              else Quadrant2(inst);
    if op.Some? then Some(Decoded(op.value, inst)) else None
  }

  // The registered patterns -------------------------------------------------------------------

  function AluFunct3(op: AluOp): nat
  {
    match op
    case ADD => 0 case SUB => 0 case SLL => 1 case SLT => 2 case SLTU => 3
    case XOR => 4 case SRL => 5 case SRA => 5 case OR => 6 case AND => 7
  }

  function MulFunct3(op: MulOp): nat
  {
    match op
    case MUL => 0 case MULH => 1 case MULHSU => 2 case MULHU => 3
    case DIV => 4 case DIVU => 5 case REM => 6 case REMU => 7
  }

  function BranchFunct3(op: BranchOp): nat
  {
    match op
    case BEQ => 0 case BNE => 1 case BLT => 4 case BGE => 5 case BLTU => 6 case BGEU => 7
  }

  function WidthFunct3(width: nat): nat
  {
    if width == 1 then 0 else if width == 2 then 1 else if width == 4 then 2 else 3
  }

  /** SUB and the arithmetic shifts are told from their neighbours by one bit. */
  function Alternate(op: AluOp): nat { if op == SUB || op == SRA then 0x20 else 0 }

  /** The word carries the bits the instruction is registered with, in its 32-bit forms. */
  predicate WidePattern(op: Insn, inst: nat)
    requires !IsCompressed(op)
  {
    match op
    case OpR(a, w) =>
      Opcode(inst) == (if w then 0x3B else 0x33) && Funct3(inst) == AluFunct3(a) && Funct7(inst) == Alternate(a)
    case OpM(a, w) => Opcode(inst) == (if w then 0x3B else 0x33) && Funct3(inst) == MulFunct3(a) && Funct7(inst) == 1
    case OpI(a, w) =>
      && Opcode(inst) == (if w then 0x1B else 0x13) && Funct3(inst) == AluFunct3(a)
      && (a in {SLL, SRL, SRA} ==> if w then Funct7(inst) == Alternate(a) else Funct7(inst) / 2 == Alternate(a) / 2)
    case Load(n, s) => Opcode(inst) == 0x03 && Funct3(inst) == WidthFunct3(n) + (if s then 0 else 4)
    case Store(n) => Opcode(inst) == 0x23 && Funct3(inst) == WidthFunct3(n)
    case Branch(c) => Opcode(inst) == 0x63 && Funct3(inst) == BranchFunct3(c)
    case Jal => Opcode(inst) == 0x6F
    case Jalr => Opcode(inst) == 0x67 && Funct3(inst) == 0
    case Lui => Opcode(inst) == 0x37
    case Auipc => Opcode(inst) == 0x17
  }

  /** The same for 16-bit words; where patterns overlap, the word of the more specific one is
      not the other's. */
  predicate CompressedPattern(op: Insn, inst: nat)
    requires IsCompressed(op)
  {
    var q, f3, bit12, kind, sub := inst % 4, CFunct3(inst), inst / 0x1000 % 2, inst / 0x400 % 4, inst / 0x20 % 4;
    match op
    case CAddi4spn => q == 0 && f3 == 0
    case CLoad(n) => q == 0 && f3 == (if n == 4 then 2 else 3)
    case CStore(n) => q == 0 && f3 == (if n == 4 then 6 else 7)
    case CNop => inst == 1
    case CAddi => q == 1 && f3 == 0 && inst != 1
    case CAddiw => q == 1 && f3 == 1
    case CLi => q == 1 && f3 == 2
    case CLuiAddi16sp => q == 1 && f3 == 3
    case CSrli => q == 1 && f3 == 4 && kind == 0
    case CSrai => q == 1 && f3 == 4 && kind == 1
    case CAndi => q == 1 && f3 == 4 && kind == 2
    case CAlu(a, w) =>
      && q == 1 && f3 == 4 && kind == 3 && bit12 == (if w then 1 else 0)
      && sub == (match a case SUB => 0 case XOR => 1 case ADD => 1 case OR => 2 case _ => 3)
    case CJ => q == 1 && f3 == 5
    case CBeqz => q == 1 && f3 == 6
    case CBnez => q == 1 && f3 == 7
    case CSlli => q == 2 && f3 == 0
    case CLoadSp(n) => q == 2 && f3 == (if n == 4 then 2 else 3)
    case CStoreSp(n) => q == 2 && f3 == (if n == 4 then 6 else 7)
    case CJr => q == 2 && f3 == 4 && bit12 == 0 && CRs2(inst) == 0
    case CMv => q == 2 && f3 == 4 && bit12 == 0 && CRs2(inst) != 0
    case CJalr => q == 2 && f3 == 4 && bit12 == 1 && CRs2(inst) == 0 && inst != 0x9002
    case CAdd => q == 2 && f3 == 4 && bit12 == 1 && CRs2(inst) != 0
  }

  predicate Pattern(op: Insn, inst: nat)
  {
    if IsCompressed(op) then CompressedPattern(op, inst) else WidePattern(op, inst)
  }

  /** A word decodes to exactly the instruction whose pattern it carries. */
  lemma DecodeExactly(inst: nat, op: Insn)
    ensures Decode(inst) == Some(Decoded(op, inst)) <==> Registered(Decoded(op, inst)) && Pattern(op, inst)
  {
    hide Wide, Quadrant0, Quadrant1, Quadrant2, WidePattern, CompressedPattern;
    if IsCompressed(op) {
      CompressedExactly(inst, op);
    } else {
      WideExactly(inst, op);
    }
  }

  lemma WideExactly(inst: nat, op: Insn)
    requires !IsCompressed(op)
    ensures WidePattern(op, inst) ==> inst % 4 == 3
    ensures inst % 4 == 3 ==> (Wide(inst) == Some(op) <==> Registered(Decoded(op, inst)) && WidePattern(op, inst))
  {
    hide Funct3, Funct7, RegisterForm, ImmediateForm;
    LowBits(inst);
    FieldBounds(inst);
    RegisterExactly(inst, op, true);
    RegisterExactly(inst, op, false);
    ImmediateExactly(inst, op, true);
    ImmediateExactly(inst, op, false);
  }

  lemma RegisterExactly(inst: nat, op: Insn, word: bool)
    requires !IsCompressed(op)
    ensures Opcode(inst) == (if word then 0x3B else 0x33) ==>
              (RegisterForm(inst, word) == Some(op) <==> Registered(Decoded(op, inst)) && WidePattern(op, inst))
  {
    hide Funct3, Funct7;
    FieldBounds(inst);
  }

  lemma ImmediateExactly(inst: nat, op: Insn, word: bool)
    requires !IsCompressed(op)
    ensures Opcode(inst) == (if word then 0x1B else 0x13) ==>
              (ImmediateForm(inst, word) == Some(op) <==> Registered(Decoded(op, inst)) && WidePattern(op, inst))
  {
    hide Funct3, Funct7;
    FieldBounds(inst);
  }

  lemma FieldBounds(inst: nat)
    ensures Funct3(inst) < 8 && Funct7(inst) < 128
  {
  }

  /** The compressed words with a pattern of their own. */
  lemma Specials(inst: nat)
    ensures CFunct3(inst) < 8 && (inst == 1 ==> CFunct3(inst) == 0)
    ensures inst == 0x9002 ==> CRs2(inst) == 0 && CFunct3(inst) == 4 && inst / 0x1000 % 2 == 1
  {
  }

  lemma CompressedExactly(inst: nat, op: Insn)
    requires IsCompressed(op)
    ensures CompressedPattern(op, inst) ==> inst % 4 != 3
    ensures inst % 4 == 0 ==>
              (Quadrant0(inst) == Some(op) <==> Registered(Decoded(op, inst)) && CompressedPattern(op, inst))
    ensures inst % 4 == 1 ==>
              (Quadrant1(inst) == Some(op) <==> Registered(Decoded(op, inst)) && CompressedPattern(op, inst))
    ensures inst % 4 == 2 ==>
              (Quadrant2(inst) == Some(op) <==> Registered(Decoded(op, inst)) && CompressedPattern(op, inst))
  {
    hide CFunct3, CRs2, Quadrant1, Quadrant2;
    Specials(inst);
    if inst % 4 == 1 { Quadrant1Exactly(inst, op); }
    if inst % 4 == 2 { Quadrant2Exactly(inst, op); }
  }

  lemma Quadrant1Exactly(inst: nat, op: Insn)
    requires IsCompressed(op) && inst % 4 == 1
    ensures Quadrant1(inst) == Some(op) <==> Registered(Decoded(op, inst)) && CompressedPattern(op, inst)
  {
    hide CFunct3, CRs2;
    Specials(inst);
  }

  lemma Quadrant2Exactly(inst: nat, op: Insn)
    requires IsCompressed(op) && inst % 4 == 2
    ensures Quadrant2(inst) == Some(op) <==> Registered(Decoded(op, inst)) && CompressedPattern(op, inst)
  {
    hide CFunct3, CRs2;
    Specials(inst);
  }

  // Control transfers -------------------------------------------------------------------------

  predicate IsControl(op: Insn)
  {
    op.Branch? || op.Jal? || op.Jalr? || op.CJ? || op.CBeqz? || op.CBnez? || op.CJr? || op.CJalr?
  }

  /** The fixed bits each control instruction is registered with. */
  predicate ControlEncoding(d: Decoded)
  {
    match d.op
    case Branch(_) => d.inst % 128 == 0x63
    case Jal => d.inst % 128 == 0x6F
    case Jalr => d.inst % 128 == 0x67
    case CJ => d.inst % 4 == 1 && d.inst / 0x2000 % 8 == 5
    case CBeqz => d.inst % 4 == 1 && d.inst / 0x2000 % 8 == 6
    case CBnez => d.inst % 4 == 1 && d.inst / 0x2000 % 8 == 7
    case CJr => d.inst % 128 == 2 && d.inst / 0x2000 % 8 == 4
    case CJalr => d.inst % 128 == 2 && d.inst / 0x2000 % 8 == 4
    case _ => true
  }
}
