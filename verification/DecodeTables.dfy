/** The lookup tables and the decoding agree: built from the encodings the sets register
    (init_all_instrs), they send every word to the handler it stands for. */
module DecodeTables {
  import opened Words
  import opened Options
  import opened Guest
  import opened Decoding
  import T = Decoder

  // Masks, one field at a time -----------------------------------------------------------------

  function Low(x: nat, p: nat): (r: nat)
    requires p >= 1
    ensures r < p
  {
    ModBound(x, p);
    x % p
  }

  function High(x: nat, p: nat): nat
    requires p >= 1
  {
    x / p
  }

  /** A masked comparison splits at any bit. */
  lemma {:induction false} Peel(x: nat, m: nat, v: nat, k: nat)
    ensures var p := Pow2(k);
      Bits(And, x, m) == v <==>
        Bits(And, Low(x, p), Low(m, p)) == Low(v, p) && Bits(And, High(x, p), High(m, p)) == High(v, p)
    decreases k
  {
    hide Bits, Pow2;
    if k == 0 {
      AndNone(0);
    } else {
      Pow2Half(k);
      var p := Pow2(k - 1);
      Peel(x / 2, m / 2, v / 2, k - 1);
      PeelBit(x, m, v, p);
    }
  }

  lemma PeelBit(x: nat, m: nat, v: nat, p: nat)
    requires p >= 1
    requires Bits(And, x / 2, m / 2) == v / 2 <==>
               && Bits(And, Low(x / 2, p), Low(m / 2, p)) == Low(v / 2, p)
               && Bits(And, High(x / 2, p), High(m / 2, p)) == High(v / 2, p)
    ensures Bits(And, x, m) == v <==>
              && Bits(And, Low(x, 2 * p), Low(m, 2 * p)) == Low(v, 2 * p)
              && Bits(And, High(x, 2 * p), High(m, 2 * p)) == High(v, 2 * p)
  {
    hide Bits;
    Halves(x, p);
    Halves(m, p);
    Halves(v, p);
    hide Low, High;
    BitsStep(And, x, m);
    BitsStep(And, Low(x, 2 * p), Low(m, 2 * p));
  }

  lemma Halves(x: nat, p: nat)
    requires p >= 1
    ensures Low(x, 2 * p) % 2 == x % 2 && Low(x, 2 * p) / 2 == Low(x / 2, p) && High(x, 2 * p) == High(x / 2, p)
  {
    hide *;
    var q, r := x / 2 / p, x / 2 % p;
    ModBound(x / 2, p);
    assert x == 2 * (p * q + r) + x % 2;
    assert 2 * (p * q) == (2 * p) * q;
    DivModUnique(x, 2 * p, q, 2 * r + x % 2);
    DivModUnique(2 * r + x % 2, 2, r, x % 2);
    Parts(x, 2 * p);
    Parts(x / 2, p);
  }

  lemma Parts(x: nat, p: nat)
    requires p >= 1
    ensures Low(x, p) == x % p && High(x, p) == x / p
  {
  }

  /** The same with the mask and the value given in two parts. */
  lemma Field(x: nat, k: nat, p: nat, m: nat, m': nat, v: nat, v': nat)
    requires p == Pow2(k) && m < p && v < p
    ensures p * m' >= 0 && p * v' >= 0
    ensures Bits(And, x, m + p * m') == v + p * v' <==> Bits(And, Low(x, p), m) == v && Bits(And, High(x, p), m') == v'
  {
    hide *;
    MulMono(p, 0, m');
    MulMono(p, 0, v');
    Peel(x, m + p * m', v + p * v', k);
    DivModUnique(m + p * m', p, m', m);
    DivModUnique(v + p * v', p, v', v);
    Parts(m + p * m', p);
    Parts(v + p * v', p);
  }

  /** A field of k bits that is fixed as a whole or not at all. */
  lemma Leaf(x: nat, m: nat, v: nat, k: nat)
    requires x < Pow2(k) && v < Pow2(k) && (m == 0 || m == Pow2(k) - 1)
    ensures Bits(And, x, m) == v <==> if m == 0 then v == 0 else x == v
  {
    hide Bits;
    if m == 0 {
      BitsZero(And, x);
    } else {
      AndLow(x, k);
      DivModUnique(x, Pow2(k), 0, x);
    }
  }

  lemma SmallPowers()
    ensures Pow2(1) == 2 && Pow2(2) == 4 && Pow2(3) == 8 && Pow2(5) == 32 && Pow2(7) == 128
    ensures Pow2(10) == 0x400 && Pow2(16) == 0x1_0000
  {
    Pow2Adds(5, 5);
    Pow2Adds(8, 8);
  }

  predicate Whole(m: nat, full: nat) { m == 0 || m == full }

  predicate Same(x: nat, m: nat, v: nat) { if m == 0 then v == 0 else x == v }

  /** The upper six bits of a 16-bit word: kind, bit 12 and the top three bits. */
  function Upper(kind: nat, bit12: nat, f3: nat): nat { kind + 4 * (bit12 + 2 * f3) }

  lemma UpperFields(x: nat, mk: nat, mb: nat, kind: nat, bit12: nat, f3: nat)
    requires x < 64 && Whole(mk, 3) && Whole(mb, 1) && kind < 4 && bit12 < 2 && f3 < 8
    ensures Bits(And, x, Upper(mk, mb, 7)) == Upper(kind, bit12, f3) <==>
              Same(x % 4, mk, kind) && Same(x / 4 % 2, mb, bit12) && x / 4 / 2 == f3
  {
    hide Bits, Pow2;
    SmallPowers();
    Field(x, 2, 4, mk, mb + 2 * 7, kind, bit12 + 2 * f3);
    Leaf(x % 4, mk, kind, 2);
    Field(x / 4, 1, 2, mb, 7, bit12, f3);
    Leaf(x / 4 % 2, mb, bit12, 1);
    Leaf(x / 4 / 2, 7, f3, 3);
  }

  /** The lower ten: quadrant, the bits below the sub-operation, the sub-operation, and a register
      that stays free. */
  function Lower(q: nat, low: nat, sub: nat): nat { q + 4 * (low + 8 * sub) }

  lemma LowerFields(x: nat, ml: nat, ms: nat, q: nat, sub: nat)
    requires x < 0x400 && Whole(ml, 7) && Whole(ms, 3) && q < 4 && sub < 4
    ensures Bits(And, x, Lower(3, ml, ms)) == Lower(q, 0, sub) <==>
              x % 4 == q && Same(x / 4 % 8, ml, 0) && Same(x / 4 / 8 % 4, ms, sub)
  {
    hide Bits, Pow2;
    SmallPowers();
    Field(x, 2, 4, 3, ml + 8 * ms, q, 0 + 8 * sub);
    Leaf(x % 4, 3, q, 2);
    Field(x / 4, 3, 8, ml, ms, 0, sub);
    Leaf(x / 4 % 8, ml, 0, 3);
    Field(x / 4 / 8, 2, 4, ms, 0, sub, 0);
    Leaf(x / 4 / 8 % 4, ms, sub, 2);
    BitsZero(And, x / 4 / 8 / 4);
  }

  function Narrow(low: nat, high: nat): nat { low + 0x400 * high }

  lemma NarrowFields(x: nat, m: nat, m': nat, v: nat, v': nat)
    requires m < 0x400 && v < 0x400
    ensures Bits(And, x, Narrow(m, m')) == Narrow(v, v') <==>
              Bits(And, x % 0x400, m) == v && Bits(And, x / 0x400, m') == v'
  {
    hide Bits, Pow2;
    SmallPowers();
    Field(x, 10, 0x400, m, m', v, v');
  }

  lemma InstParts(inst: nat)
    requires inst < 0x1_0000
    ensures var x := inst % 0x400; x % 4 == inst % 4 && x / 4 / 8 % 4 == inst / 0x20 % 4
    ensures var x := inst % 0x400; x / 4 % 8 == 0 && x / 4 / 8 % 4 == 0 <==> CRs2(inst) == 0
    ensures var y := inst / 0x400; y < 64 && y / 4 % 2 == inst / 0x1000 % 2 && y / 4 / 2 == CFunct3(inst)
  {
    hide *;
    var x, y := inst % 0x400, inst / 0x400;
    var l, h := x / 4 % 8, x / 4 / 8 % 4;
    var t := x / 4 / 8 / 4;
    assert inst == 0x400 * y + x && x == 4 * (x / 4) + x % 4 && x / 4 == 8 * (4 * t + h) + l;
    DivModUnique(inst, 4, 0x100 * y + x / 4, x % 4);
    DivModUnique(0x100 * y + x / 4, 32, 8 * y + t, 8 * h + l);
    DivModUnique(inst, 0x20, 32 * y + 4 * t + h, 4 * l + x % 4);
    DivModUnique(32 * y + 4 * t + h, 4, 8 * y + t, h);
    SecondSource(inst);
    UpperParts(inst);
  }

  lemma SecondSource(inst: nat)
    ensures CRs2(inst) == inst / 4 % 32
  {
  }

  lemma UpperParts(inst: nat)
    requires inst < 0x1_0000
    ensures var y := inst / 0x400; y < 64 && y / 4 % 2 == inst / 0x1000 % 2 && y / 4 / 2 == CFunct3(inst)
  {
  }

  /** The fields of a 32-bit word that patterns fix. */
  function Assembled(o: nat, f3: nat, f7: nat): nat { o + 0x1000 * f3 + 0x200_0000 * f7 }

  lemma AssembledParts(o: nat, f3: nat, f7: nat)
    requires o < 128 && f3 < 8 && f7 < 128
    ensures var v := Assembled(o, f3, f7);
      && v < M32 && v % 128 == o && v / 0x80 == 32 * (f3 + 0x2000 * f7)
      && Opcode(v) == o && Funct3(v) == f3 && Funct7(v) == f7
  {
    var v := Assembled(o, f3, f7);
    DivModUnique(v, 128, 32 * (f3 + 0x2000 * f7), o);
    DivModUnique(v, 0x1000, f3 + 0x2000 * f7, o);
    DivModUnique(f3 + 0x2000 * f7, 8, 0x400 * f7, f3);
    DivModUnique(v, 0x200_0000, f7, o + 0x1000 * f3);
  }

  lemma WideFields(x: nat, m3: nat, m7: nat, o: nat, f3: nat, f7: nat)
    requires x < M32 && Whole(m3, 7) && m7 < 128 && o < 128 && f3 < 8 && f7 < 128
    ensures Bits(And, x, Assembled(127, m3, m7)) == Assembled(o, f3, f7) <==>
              Opcode(x) == o && Same(Funct3(x), m3, f3) && Bits(And, Funct7(x), m7) == f7
  {
    hide Bits, Pow2, Assembled;
    SmallPowers();
    AssembledParts(127, m3, m7);
    AssembledParts(o, f3, f7);
    Peel(x, Assembled(127, m3, m7), Assembled(o, f3, f7), 7);
    Leaf(x % 128, 127, o, 7);
    UpperWide(x / 0x80, m3, m7, f3, f7);
    WideQuotients(x);
  }

  lemma UpperWide(x: nat, m3: nat, m7: nat, f3: nat, f7: nat)
    requires Whole(m3, 7) && f3 < 8
    ensures Bits(And, x, 32 * (m3 + 0x2000 * m7)) == 32 * (f3 + 0x2000 * f7) <==>
              Same(x / 32 % 8, m3, f3) && Bits(And, x / 32 / 8 / 0x400, m7) == f7
  {
    hide Bits, Pow2;
    SmallPowers();
    Peel(x, 32 * (m3 + 0x2000 * m7), 32 * (f3 + 0x2000 * f7), 5);
    BitsZero(And, x % 32);
    var y := x / 32;
    Peel(y, m3 + 0x2000 * m7, f3 + 0x2000 * f7, 3);
    Leaf(y % 8, m3, f3, 3);
    Peel(y / 8, 0x400 * m7, 0x400 * f7, 10);
    BitsZero(And, y / 8 % 0x400);
  }

  lemma WideQuotients(x: nat)
    requires x < M32
    ensures x / 0x80 / 32 % 8 == Funct3(x) && x / 0x80 / 32 / 8 / 0x400 == Funct7(x)
  {
  }

  /** The two masks on the top seven bits. */
  lemma TopBits(f: nat)
    requires f < 128
    ensures Bits(And, f, 0) == 0 && Bits(And, f, 127) == f && Bits(And, f, 126) == f / 2 * 2
  {
    hide Bits, Pow2;
    SmallPowers();
    BitsZero(And, f);
    Leaf(f, 127, f, 7);
    AndHigh(f, 7, 1);
  }

  // The registered encodings ---------------------------------------------------------------------

  predicate IsRegistered(op: Insn) { Registered(Decoded(op, 0)) }

  /** Opcode, funct3 and the top seven bits of a 32-bit encoding. */
  function WideOpcode(op: Insn): (r: nat)
    requires !IsCompressed(op)
    ensures r < 128
  {
    match op
    case OpR(_, w) => if w then 0x3B else 0x33
    case OpM(_, w) => if w then 0x3B else 0x33
    case OpI(_, w) => if w then 0x1B else 0x13
    case Load(_, _) => 0x03
    case Store(_) => 0x23
    case Branch(_) => 0x63
    case Jal => 0x6F
    case Jalr => 0x67
    case Lui => 0x37
    case Auipc => 0x17
  }

  function WideFunct3(op: Insn): (r: nat)
    requires !IsCompressed(op) && IsRegistered(op)
    ensures r < 8
  {
    match op
    case OpR(a, _) => AluFunct3(a)
    case OpM(a, _) => MulFunct3(a)
    case OpI(a, _) => AluFunct3(a)
    case Load(n, s) => WidthFunct3(n) + if s then 0 else 4
    case Store(n) => WidthFunct3(n)
    case Branch(c) => BranchFunct3(c)
    case _ => 0
  }

  function WideTop(op: Insn): (r: nat)
    requires !IsCompressed(op)
    ensures r < 128
  {
    if op.OpR? then Alternate(op.rop) else if op.OpM? then 1 else if op.OpI? then Alternate(op.iop) else 0
  }

  function TopMask(op: Insn): nat
    requires !IsCompressed(op)
  {
    if op.OpR? || op.OpM? then 127
    else if op.OpI? && op.iop in {SLL, SRL, SRA} then (if op.word then 127 else 126)
    else 0
  }

  function WideMask(op: Insn): nat
    requires !IsCompressed(op)
  {
    Assembled(127, if op.Jal? || op.Lui? || op.Auipc? then 0 else 7, TopMask(op))
  }

  function WideMatch(op: Insn): nat
    requires !IsCompressed(op) && IsRegistered(op)
  {
    Assembled(WideOpcode(op), WideFunct3(op), WideTop(op))
  }

  function NarrowMask(op: Insn): nat
    requires IsCompressed(op)
  {
    if op.CNop? then 0xFFFF
    else if op.CSrli? || op.CSrai? || op.CAndi? then 0xEC03
    else if op.CAlu? then 0xFC63
    else if op.CJr? || op.CJalr? then 0xF07F
    else if op.CMv? || op.CAdd? then 0xF003
    else 0xE003
  }

  /** Quadrant and top three bits of a compressed encoding. */
  function Quadrant(op: Insn): (r: nat)
    requires IsCompressed(op)
    ensures r < 3
  {
    if op.CAddi4spn? || op.CLoad? || op.CStore? then 0
    else if op.CSlli? || op.CLoadSp? || op.CStoreSp? || op.CJr? || op.CMv? || op.CJalr? || op.CAdd? then 2
    else 1
  }

  function NarrowFunct3(op: Insn): (r: nat)
    requires IsCompressed(op)
    ensures r < 8
  {
    match op
    case CAddi4spn => 0
    case CLoad(n) => if n == 4 then 2 else 3
    case CStore(n) => if n == 4 then 6 else 7
    case CNop => 0
    case CAddi => 0
    case CAddiw => 1
    case CLi => 2
    case CLuiAddi16sp => 3
    case CSrli => 4
    case CSrai => 4
    case CAndi => 4
    case CAlu(_, _) => 4
    case CJ => 5
    case CBeqz => 6
    case CBnez => 7
    case CSlli => 0
    case CLoadSp(n) => if n == 4 then 2 else 3
    case CStoreSp(n) => if n == 4 then 6 else 7
    case CJr => 4
    case CMv => 4
    case CJalr => 4
    case CAdd => 4
  }

  function NarrowKind(op: Insn): (r: nat)
    ensures r < 4
  {
    if op.CSrai? then 1 else if op.CAndi? then 2 else if op.CAlu? then 3 else 0
  }

  function NarrowSub(op: Insn): (r: nat)
    ensures r < 4
  {
    if !op.CAlu? || op.rop == SUB then 0
    else if op.rop == XOR || op.rop == ADD then 1
    else if op.rop == OR then 2
    else 3
  }

  function NarrowBit12(op: Insn): (r: nat)
    ensures r < 2
  {
    if (op.CAlu? && op.word) || op.CJalr? || op.CAdd? then 1 else 0
  }

  function NarrowMatch(op: Insn): nat
    requires IsCompressed(op)
  {
    Narrow(Lower(Quadrant(op), 0, NarrowSub(op)), Upper(NarrowKind(op), NarrowBit12(op), NarrowFunct3(op)))
  }

  function PatternOf(op: Insn): T.Pattern
    requires IsRegistered(op)
  {
    if IsCompressed(op) then T.Pattern(NarrowMask(op), NarrowMatch(op), true)
    else T.Pattern(WideMask(op), WideMatch(op), false)
  }

  predicate Matches(p: T.Pattern, inst: nat) { Bits(And, inst, p.mask) == p.match_ }

  /** A 32-bit word matches a registered encoding exactly when it carries its fields. */
  lemma WideMatches(op: Insn, inst: nat)
    requires !IsCompressed(op) && IsRegistered(op) && inst < M32
    ensures Matches(PatternOf(op), inst) <==> WidePattern(op, inst)
  {
    hide Bits, Funct7, Funct3, Opcode, Assembled;
    FieldBounds(inst);
    var m3 := if op.Jal? || op.Lui? || op.Auipc? then 0 else 7;
    WideFields(inst, m3, TopMask(op), WideOpcode(op), WideFunct3(op), WideTop(op));
    TopBits(Funct7(inst));
  }

  /** The fields a compressed encoding fixes, exceptions included. */
  predicate Raw(op: Insn, inst: nat)
    requires IsCompressed(op)
  {
    match op
    case CAddi => inst % 4 == 1 && CFunct3(inst) == 0
    case CMv => inst % 4 == 2 && CFunct3(inst) == 4 && inst / 0x1000 % 2 == 0
    case CJalr => inst % 4 == 2 && CFunct3(inst) == 4 && inst / 0x1000 % 2 == 1 && CRs2(inst) == 0
    case CAdd => inst % 4 == 2 && CFunct3(inst) == 4 && inst / 0x1000 % 2 == 1
    case _ => CompressedPattern(op, inst)
  }

  /** The word agrees with an encoding on the fields a mask fixes. */
  predicate Carries(op: Insn, inst: nat, ml: nat, ms: nat, mk: nat, mb: nat)
    requires IsCompressed(op)
  {
    && inst % 4 == Quadrant(op) && CFunct3(inst) == NarrowFunct3(op)
    && (ml != 0 && ms != 0 ==> CRs2(inst) == 0) && (ms != 0 ==> inst / 0x20 % 4 == NarrowSub(op))
    && (mk != 0 ==> inst / 0x400 % 4 == NarrowKind(op)) && (mb != 0 ==> inst / 0x1000 % 2 == NarrowBit12(op))
  }

  lemma NarrowMatches(op: Insn, inst: nat)
    requires IsCompressed(op) && IsRegistered(op) && inst < 0x1_0000
    ensures Matches(PatternOf(op), inst) <==> Raw(op, inst)
  {
    hide LowMask, SubMask, KindMask, BitMask, Carries;
    hide Bits, NarrowMatch, NarrowMask, Raw, Quadrant, NarrowFunct3, NarrowSub, NarrowKind, NarrowBit12, CFunct3, CRs2;
    if op.CNop? {
      NopMatches(op, inst);
    } else {
      MaskParts(op);
      MaskZeros(op);
      FieldsDecide(op, inst, LowMask(op), SubMask(op), KindMask(op), BitMask(op));
      RawFields(op, inst);
    }
  }

  lemma NopMatches(op: Insn, inst: nat)
    requires op.CNop? && inst < 0x1_0000
    ensures IsRegistered(op) && IsCompressed(op) && (Matches(PatternOf(op), inst) <==> Raw(op, inst))
  {
    hide Bits, CFunct3, CRs2, Raw, NarrowMatch;
    NopFields(op, inst);
    AllBits(inst, 0xFFFF, 1);
  }

  lemma NopFields(op: Insn, inst: nat)
    requires op.CNop?
    ensures NarrowMatch(op) == 1 && (Raw(op, inst) <==> inst == 1)
  {
    hide NarrowMatch, CFunct3, CRs2;
    NopValue(op);
  }

  lemma NopParts(op: Insn)
    requires op.CNop?
    ensures Quadrant(op) == 1 && NarrowFunct3(op) == 0
    ensures NarrowSub(op) == 0 && NarrowKind(op) == 0 && NarrowBit12(op) == 0
  {
  }

  lemma NopValue(op: Insn)
    requires op.CNop?
    ensures NarrowMatch(op) == 1
  {
    hide Quadrant, NarrowFunct3, NarrowSub, NarrowKind, NarrowBit12;
    NopParts(op);
  }

  lemma AllBits(x: nat, m: nat, v: nat)
    requires x < 0x1_0000 && m == 0xFFFF && v < 0x1_0000
    ensures Bits(And, x, m) == v <==> x == v
  {
    hide *;
    SmallPowers();
    Leaf(x, m, v, 16);
  }

  function LowMask(op: Insn): nat { if op.CJr? || op.CJalr? then 7 else 0 }
  function SubMask(op: Insn): nat { if op.CJr? || op.CJalr? || op.CAlu? then 3 else 0 }
  function KindMask(op: Insn): nat { if op.CSrli? || op.CSrai? || op.CAndi? || op.CAlu? then 3 else 0 }
  function BitMask(op: Insn): nat { if op.CAlu? || op.CJr? || op.CMv? || op.CJalr? || op.CAdd? then 1 else 0 }

  lemma MaskParts(op: Insn)
    requires IsCompressed(op) && !op.CNop?
    ensures NarrowMask(op) == Narrow(Lower(3, LowMask(op), SubMask(op)), Upper(KindMask(op), BitMask(op), 7))
  {
    if op.CJr? || op.CJalr? {
    } else if op.CMv? || op.CAdd? {
    } else if op.CAlu? {
    }
  }

  /** Bits no mask fixes are zero in the value. */
  lemma MaskZeros(op: Insn)
    ensures Whole(LowMask(op), 7) && Whole(SubMask(op), 3) && Whole(KindMask(op), 3) && Whole(BitMask(op), 1)
    ensures LowMask(op) == 0 || (SubMask(op) != 0 && NarrowSub(op) == 0)
    ensures KindMask(op) == 0 ==> NarrowKind(op) == 0
    ensures BitMask(op) == 0 ==> NarrowBit12(op) == 0
    ensures SubMask(op) == 0 ==> NarrowSub(op) == 0
  {
  }

  lemma RawFields(op: Insn, inst: nat)
    requires IsCompressed(op) && IsRegistered(op) && !op.CNop? && inst < 0x1_0000
    ensures Carries(op, inst, LowMask(op), SubMask(op), KindMask(op), BitMask(op)) <==> Raw(op, inst)
  {
    hide CFunct3, CRs2;
    Specials(inst);
    SubZero(inst);
  }

  lemma SubZero(inst: nat)
    requires inst < 0x1_0000
    ensures CRs2(inst) == 0 ==> inst / 0x20 % 4 == 0
  {
    InstParts(inst);
  }

  lemma FieldsDecide(op: Insn, inst: nat, ml: nat, ms: nat, mk: nat, mb: nat)
    requires IsCompressed(op) && inst < 0x1_0000
    requires Whole(ml, 7) && Whole(ms, 3) && Whole(mk, 3) && Whole(mb, 1)
    requires ml == 0 || (ms != 0 && NarrowSub(op) == 0)
    requires (ms == 0 ==> NarrowSub(op) == 0) && (mk == 0 ==> NarrowKind(op) == 0) && (mb == 0 ==> NarrowBit12(op) == 0)
    ensures Bits(And, inst, Narrow(Lower(3, ml, ms), Upper(mk, mb, 7))) == NarrowMatch(op) <==>
              Carries(op, inst, ml, ms, mk, mb)
  {
    hide Bits, Quadrant, NarrowSub, NarrowKind, NarrowBit12, NarrowFunct3, CRs2, CFunct3;
    var q, sub, kind, bit12, f3 := Quadrant(op), NarrowSub(op), NarrowKind(op), NarrowBit12(op), NarrowFunct3(op);
    NarrowFields(inst, Lower(3, ml, ms), Upper(mk, mb, 7), Lower(q, 0, sub), Upper(kind, bit12, f3));
    LowerFields(inst % 0x400, ml, ms, q, sub);
    UpperFields(inst / 0x400, mk, mb, kind, bit12, f3);
    InstParts(inst);
  }

  // Well-formed patterns -------------------------------------------------------------------------

  lemma {:induction false} AndAssoc(a: nat, b: nat, c: nat)
    ensures Bits(And, Bits(And, a, b), c) == Bits(And, a, Bits(And, b, c))
    decreases a + b + c
  {
    if a == 0 && b == 0 && c == 0 {
      BitsZero(And, 0);
    } else {
      hide Bits;
      AndAssoc(a / 2, b / 2, c / 2);
      BitsStep(And, a, b);
      BitsStep(And, b, c);
      BitsStep(And, Bits(And, a, b), c);
      BitsStep(And, a, Bits(And, b, c));
      BitsStep(And, Bits(And, a, b) / 2, c / 2);
      SameParts(Bits(And, Bits(And, a, b), c), Bits(And, a, Bits(And, b, c)));
    }
  }

  lemma SameParts(a: nat, b: nat)
    requires a / 2 == b / 2 && a % 2 == b % 2
    ensures a == b
  {
  }

  /** Only fixed bits are set in a value. */
  lemma ValueMasked(op: Insn)
    requires IsRegistered(op)
    ensures var p := PatternOf(op); p.mask < M32 && Bits(And, p.match_, p.mask) == p.match_
    ensures IsCompressed(op) ==> NarrowMask(op) < 0x1_0000 && NarrowMatch(op) < 0x1_0000
  {
    hide Bits, WideOpcode, WideFunct3, WideTop, Assembled;
    if IsCompressed(op) {
      NarrowMasked(op);
    } else {
      WideMasked(op);
    }
  }

  function MaskFunct3(op: Insn): nat { if op.Jal? || op.Lui? || op.Auipc? then 0 else 7 }

  lemma WideMasked(op: Insn)
    requires IsRegistered(op) && !IsCompressed(op)
    ensures WideMask(op) < M32 && Bits(And, WideMatch(op), WideMask(op)) == WideMatch(op)
  {
    hide Bits, WideOpcode, Assembled;
    var m3 := MaskFunct3(op);
    var o, f3, f7 := WideOpcode(op), WideFunct3(op), WideTop(op);
    AssembledParts(127, m3, TopMask(op));
    AssembledParts(o, f3, f7);
    WideFields(WideMatch(op), m3, TopMask(op), o, f3, f7);
    TopBits(f7);
  }

  lemma NarrowMasked(op: Insn)
    requires IsRegistered(op) && IsCompressed(op)
    ensures NarrowMask(op) < 0x1_0000 && NarrowMatch(op) < 0x1_0000
    ensures Bits(And, NarrowMatch(op), NarrowMask(op)) == NarrowMatch(op)
  {
    hide Bits, Narrow, Lower, Upper, Quadrant, NarrowSub, NarrowKind, NarrowBit12, NarrowFunct3;
    var q, sub, kind, bit12, f3 := Quadrant(op), NarrowSub(op), NarrowKind(op), NarrowBit12(op), NarrowFunct3(op);
    MaskZeros(op);
    OwnFields(q, sub, kind, bit12, f3, LowMask(op), SubMask(op), KindMask(op), BitMask(op));
    if op.CNop? {
      AllBits(NarrowMatch(op), 0xFFFF, NarrowMatch(op));
    } else {
      MaskParts(op);
    }
  }

  lemma OwnFields(q: nat, sub: nat, kind: nat, bit12: nat, f3: nat, ml: nat, ms: nat, mk: nat, mb: nat)
    requires q < 4 && sub < 4 && kind < 4 && bit12 < 2 && f3 < 8
    requires Whole(ml, 7) && Whole(ms, 3) && Whole(mk, 3) && Whole(mb, 1)
    requires (ms == 0 ==> sub == 0) && (mk == 0 ==> kind == 0) && (mb == 0 ==> bit12 == 0)
    ensures var v, m := Narrow(Lower(q, 0, sub), Upper(kind, bit12, f3)), Narrow(Lower(3, ml, ms), Upper(mk, mb, 7));
      v < 0x1_0000 && m < 0x1_0000 && Bits(And, v, m) == v
  {
    hide Bits;
    var l, u := Lower(q, 0, sub), Upper(kind, bit12, f3);
    assert l < 0x400 && u < 64 && Lower(3, ml, ms) < 0x400 && Upper(mk, mb, 7) < 64;
    DivModUnique(Narrow(l, u), 0x400, u, l);
    NarrowFields(Narrow(l, u), Lower(3, ml, ms), Upper(mk, mb, 7), l, u);
    OwnLower(q, sub, ml, ms);
    OwnUpper(kind, bit12, f3, mk, mb);
  }

  lemma OwnLower(q: nat, sub: nat, ml: nat, ms: nat)
    requires q < 4 && sub < 4 && Whole(ml, 7) && Whole(ms, 3) && (ms == 0 ==> sub == 0)
    ensures Bits(And, Lower(q, 0, sub), Lower(3, ml, ms)) == Lower(q, 0, sub)
  {
    hide Bits;
    LowerFields(Lower(q, 0, sub), ml, ms, q, sub);
    DivModUnique(Lower(q, 0, sub), 4, 8 * sub, q);
  }

  lemma OwnUpper(kind: nat, bit12: nat, f3: nat, mk: nat, mb: nat)
    requires kind < 4 && bit12 < 2 && f3 < 8 && Whole(mk, 3) && Whole(mb, 1)
    requires (mk == 0 ==> kind == 0) && (mb == 0 ==> bit12 == 0)
    ensures Bits(And, Upper(kind, bit12, f3), Upper(mk, mb, 7)) == Upper(kind, bit12, f3)
  {
    hide Bits;
    UpperFields(Upper(kind, bit12, f3), mk, mb, kind, bit12, f3);
    DivModUnique(Upper(kind, bit12, f3), 4, bit12 + 2 * f3, kind);
  }

  lemma PatternFits(op: Insn)
    requires IsRegistered(op)
    ensures T.PatternOk(PatternOf(op))
  {
    hide Bits, T.Within, PatternOf;
    ValueMasked(op);
    var p := PatternOf(op);
    T.AndWithin(p.match_, p.mask);
  }

  /** All a 32-bit encoding fixes is hashed. */
  lemma Hashed(op: Insn, inst: nat)
    requires IsRegistered(op) && !IsCompressed(op) && inst < M32
    ensures T.Compatible(PatternOf(op), Bits(And, inst, T.HASH_MASK), T.HASH_MASK) <==> Matches(PatternOf(op), inst)
  {
    hide Bits, WideMatch;
    var m, v := WideMask(op), WideMatch(op);
    MaskHashed(op);
    BitsCommute(And, T.HASH_MASK, m);
    WideMasked(op);
    AndAssoc(v, m, T.HASH_MASK);
    AndAssoc(inst, T.HASH_MASK, m);
  }

  lemma MaskHashed(op: Insn)
    requires !IsCompressed(op)
    ensures Bits(And, T.HASH_MASK, WideMask(op)) == WideMask(op)
  {
    hide Bits, Assembled;
    var m3, m7 := MaskFunct3(op), TopMask(op);
    WideFields(T.HASH_MASK, m3, m7, 127, m3, m7);
    TopBits(m7);
    BitsCommute(And, 127, m7);
  }

  // Where encodings overlap -----------------------------------------------------------------------

  lemma Sizes()
    ensures T.Pop(0xFFFF) == 16 && T.Pop(0xF07F) == 11 && T.Pop(0xF003) == 6 && T.Pop(0xE003) == 5
  {
    T.PopBytes();
    T.PopZero();
    assert Pow2(8) == 256;
    hide T.Pop, Pow2;
    T.PopSplit(0xFF, 0xFF, 8);
    T.PopSplit(0xF0, 0x7F, 8);
    T.PopSplit(0xF0, 3, 8);
    T.PopSplit(0xE0, 3, 8);
    T.PopHalf(3); T.PopHalf(1);
    T.PopHalf(0xE0); T.PopHalf(0x70);
  }

  lemma Breakpoint(inst: nat)
    requires inst == 0x9002
    ensures Decode(inst) == None
  {
    hide CFunct3, CRs2;
    Specials(inst);
  }

  lemma StaysRegistered(op: Insn, inst: nat)
    requires IsRegistered(op) && Pattern(op, inst)
    ensures Registered(Decoded(op, inst)) && Decode(inst) == Some(Decoded(op, inst))
  {
    hide Decode;
    DecodeExactly(inst, op);
  }

  /** A compressed word that matches an encoding decodes to it or to a more specific one; only
      C.EBREAK, which is not modelled, is more specific than what the word would decode to. */
  lemma Overlap(op: Insn, inst: nat)
    requires IsCompressed(op) && IsRegistered(op) && Raw(op, inst)
    ensures Decode(inst).None? ==> inst == 0x9002 && T.Pop(NarrowMask(op)) < 16
    ensures Decode(inst).Some? && Decode(inst).value.op != op ==>
              var o := Decode(inst).value.op; IsCompressed(o) && T.Pop(NarrowMask(op)) < T.Pop(NarrowMask(o))
  {
    hide Decode, T.Pop, CFunct3, CRs2;
    Sizes();
    Specials(inst);
    if CompressedPattern(op, inst) {
      StaysRegistered(op, inst);
    } else if op.CAddi? {
      StaysRegistered(CNop, inst);
    } else if op.CMv? {
      StaysRegistered(CJr, inst);
    } else if inst == 0x9002 {
      Breakpoint(inst);
    } else {
      StaysRegistered(CJalr, inst);
    }
  }

  // The catalogue ----------------------------------------------------------------------------------

  const BREAKPOINT := T.Pattern(0xFFFF, 0x9002, true)

  ghost predicate Complete(ops: seq<Insn>)
  {
    && (forall op | op in ops :: IsRegistered(op))
    && (forall op | IsRegistered(op) :: op in ops)
  }

  /** Another set's pattern: no word it can be looked up for is an instruction modelled here. */
  ghost predicate Clear(p: T.Pattern)
  {
    && T.PatternOk(p)
    && if p.compressed then
         && p.mask < 0x1_0000
         && forall inst: nat | inst < 0x1_0000 && Matches(p, inst) :: inst % 4 != 3 ==> Decode(inst).None?
       else
         forall inst: nat | inst < M32 && T.Compatible(p, Bits(And, inst, T.HASH_MASK), T.HASH_MASK) ::
           inst % 4 == 3 ==> Decode(inst).None?
  }

  /** The patterns of the modelled instructions, followed by those of the other sets. */
  function Catalogue(ops: seq<Insn>, others: seq<T.Pattern>): (r: seq<T.Pattern>)
    requires forall op | op in ops :: IsRegistered(op)
    ensures |r| == |ops| + |others|
    ensures forall i | 0 <= i < |ops| :: r[i] == PatternOf(ops[i])
    ensures forall i | |ops| <= i < |r| :: r[i] == others[i - |ops|]
  {
    seq(|ops|, i requires 0 <= i < |ops| => PatternOf(ops[i])) + others
  }

  /** decode_inst_slow: the slot of the 16-bit table, then of the other one, and the final
      comparison; -1 is an illegal instruction. */
  function Chosen(patterns: seq<T.Pattern>, lut: seq<int>, lut16: seq<int>, inst: nat): int
    requires Pow2(T.Pop(T.HASH_MASK)) <= |lut| && Pow2(T.Pop(T.HASH_MASK_16)) <= |lut16|
  {
    T.GatherBound(inst % 0x1_0000, T.HASH_MASK_16);
    T.GatherBound(inst, T.HASH_MASK);
    var short := if inst % 4 != 3 then lut16[T.Gather(inst % 0x1_0000, T.HASH_MASK_16)] else -1;
    var slot := if short < 0 then lut[T.Gather(inst, T.HASH_MASK)] else short;
    if 0 <= slot < |patterns| && Matches(patterns[slot], inst) then slot else -1
  }

  /** The word an instruction is decoded from. */
  function Unit(inst: nat): nat { if inst % 4 == 3 then inst else inst % 0x1_0000 }

  /** What the table gives is what the word stands for: its handler, or none of those modelled. */
  ghost predicate Agrees(ops: seq<Insn>, c: int, word: nat)
  {
    if 0 <= c < |ops| then Decode(word) == Some(Decoded(ops[c], word)) else Decode(word) == None
  }

  lemma {:induction false} GatherMasked(s: nat, d: nat)
    ensures T.Gather(Bits(And, s, d), d) == T.Gather(s, d)
    decreases d
  {
    if d > 0 {
      hide Bits, T.Gather;
      BitsStep(And, s, d);
      T.Steps(s, d);
      T.Steps(Bits(And, s, d), d);
      GatherMasked(s / 2, d / 2);
    }
  }

  ghost predicate Kept(ops: seq<Insn>, others: seq<T.Pattern>)
  {
    && Complete(ops) && BREAKPOINT in others
    && forall p | p in others :: Clear(p)
  }

  /** A 32-bit word's slot. */
  lemma WideAgrees(ops: seq<Insn>, others: seq<T.Pattern>, inst: nat, r: int)
    requires Kept(ops, others) && inst < M32
    requires var ps := Catalogue(ops, others);
      T.Best(ps, |ps|, false, Bits(And, inst, T.HASH_MASK), T.HASH_MASK, r)
    ensures inst % 4 == 3 ==> Agrees(ops, r, inst) && (0 <= r < |ops| ==> Matches(PatternOf(ops[r]), inst))
    ensures inst % 4 != 3 ==> r < 0 || r >= |ops|
  {
    hide Bits, Decode, Pattern, WidePattern, CompressedPattern, PatternOf, T.Compatible, Matches, T.Pop;
    var ps := Catalogue(ops, others);
    if 0 <= r < |ops| {
      WideSlot(ops[r], inst);
    } else if r >= |ops| {
      assert ps[r] in others;
    } else if inst % 4 == 3 && Decode(inst).Some? {
      var op := Decode(inst).value.op;
      WideFound(inst, op);
    }
  }

  lemma WideSlot(op: Insn, inst: nat)
    requires IsRegistered(op) && inst < M32
    requires T.Applies(PatternOf(op), false, Bits(And, inst, T.HASH_MASK), T.HASH_MASK)
    ensures inst % 4 == 3 && Decode(inst) == Some(Decoded(op, inst)) && Matches(PatternOf(op), inst)
  {
    hide Bits, Decode, WideMask, WideMatch, T.Compatible, Matches;
    Hashed(op, inst);
    WideMatches(op, inst);
    WideExactly(inst, op);
    StaysRegistered(op, inst);
  }

  lemma WideFound(inst: nat, op: Insn)
    requires inst < M32 && inst % 4 == 3 && Decode(inst) == Some(Decoded(op, inst))
    ensures IsRegistered(op) && !IsCompressed(op)
    ensures T.Applies(PatternOf(op), false, Bits(And, inst, T.HASH_MASK), T.HASH_MASK)
  {
    hide Bits, Decode, WideMask, WideMatch, WidePattern, CompressedPattern, T.Compatible, Matches;
    DecodeExactly(inst, op);
    if IsCompressed(op) {
      CompressedExactly(inst, op);
    }
    WideMatches(op, inst);
    Hashed(op, inst);
  }

  /** A compressed word's slot. */
  lemma NarrowAgrees(ops: seq<Insn>, others: seq<T.Pattern>, inst: nat, r: int)
    requires Kept(ops, others) && inst < 0x1_0000 && inst % 4 != 3
    requires var ps := Catalogue(ops, others); T.Best(ps, |ps|, true, inst, T.HASH_MASK_16, r)
    ensures Agrees(ops, r, inst) && (r >= 0 ==> Matches(Catalogue(ops, others)[r], inst))
    ensures r >= 0 ==> Catalogue(ops, others)[r].mask < 0x1_0000
  {
    hide Bits, Decode, Raw, PatternOf, T.Compatible, Clear, Matches, T.Pop;
    var ps := Catalogue(ops, others);
    if 0 <= r < |ops| {
      Contained(ops, ops[r]);
      NarrowSlot(ops[r], inst);
      if Decode(inst).None? {
        BreakpointWins(ops, others, inst, r);
      } else {
        NarrowFound(inst, Decode(inst).value.op);
        Contained(ops, Decode(inst).value.op);
      }
    } else if r >= |ops| {
      assert ps[r] in others;
      OtherSlot(ps[r], inst);
    } else if Decode(inst).Some? {
      NarrowFound(inst, Decode(inst).value.op);
      Contained(ops, Decode(inst).value.op);
    }
  }

  lemma BreakpointWins(ops: seq<Insn>, others: seq<T.Pattern>, inst: nat, r: int)
    requires Complete(ops) && BREAKPOINT in others && inst == 0x9002
    requires var ps := Catalogue(ops, others); T.Best(ps, |ps|, true, inst, T.HASH_MASK_16, r)
    ensures r >= 0 && T.Pop(Catalogue(ops, others)[r].mask) >= 16
  {
    hide T.Pop, T.Compatible;
    Breaks(inst);
    var i :| 0 <= i < |others| && others[i] == BREAKPOINT;
    var ps := Catalogue(ops, others);
    assert ps[|ops| + i] == BREAKPOINT;
  }

  lemma OtherSlot(p: T.Pattern, inst: nat)
    requires Clear(p) && inst < 0x1_0000 && inst % 4 != 3 && T.Applies(p, true, inst, T.HASH_MASK_16)
    ensures Decode(inst) == None && Matches(p, inst) && p.mask < 0x1_0000
  {
    hide Bits, Decode, T.Within;
    T.CompressedExact(p, inst);
  }

  lemma Contained(ops: seq<Insn>, op: Insn)
    requires Complete(ops)
    ensures op in ops <==> IsRegistered(op)
  {
  }

  lemma NarrowApplies(op: Insn, inst: nat)
    requires IsRegistered(op) && inst < 0x1_0000
    ensures T.Applies(PatternOf(op), true, inst, T.HASH_MASK_16) <==> IsCompressed(op) && Raw(op, inst)
    ensures IsCompressed(op) ==> (Matches(PatternOf(op), inst) <==> Raw(op, inst)) && PatternOf(op).mask < 0x1_0000
  {
    hide Bits, NarrowMask, NarrowMatch, Raw, T.Within;
    if IsCompressed(op) {
      NarrowMatches(op, inst);
      ValueMasked(op);
      PatternFits(op);
      T.CompressedExact(PatternOf(op), inst);
    }
  }

  lemma NarrowSlot(op: Insn, inst: nat)
    requires IsRegistered(op) && inst < 0x1_0000 && inst % 4 != 3
    requires T.Applies(PatternOf(op), true, inst, T.HASH_MASK_16)
    ensures Matches(PatternOf(op), inst) && PatternOf(op).mask < 0x1_0000
    ensures Decode(inst).None? ==> inst == 0x9002 && T.Pop(PatternOf(op).mask) < 16
    ensures Decode(inst).Some? && Decode(inst).value.op != op ==>
              var o := Decode(inst).value.op;
              IsRegistered(o) && T.Pop(PatternOf(op).mask) < T.Pop(PatternOf(o).mask)
  {
    hide Bits, Decode, NarrowMask, NarrowMatch, Raw, T.Compatible, T.Pop, Matches;
    NarrowApplies(op, inst);
    Overlap(op, inst);
    if Decode(inst).Some? {
      NarrowFound(inst, Decode(inst).value.op);
    }
  }

  lemma NarrowFound(inst: nat, op: Insn)
    requires inst < 0x1_0000 && inst % 4 != 3 && Decode(inst) == Some(Decoded(op, inst))
    ensures IsRegistered(op) && IsCompressed(op) && T.Applies(PatternOf(op), true, inst, T.HASH_MASK_16)
  {
    hide Bits, Decode, NarrowMask, NarrowMatch, WidePattern, T.Compatible, CFunct3, CRs2;
    DecodeExactly(inst, op);
    if !IsCompressed(op) {
      WideExactly(inst, op);
    }
    NarrowApplies(op, inst);
  }

  lemma Breaks(inst: nat)
    requires inst == 0x9002
    ensures T.Applies(BREAKPOINT, true, inst, T.HASH_MASK_16) && T.Pop(BREAKPOINT.mask) == 16
  {
    hide Bits, T.Within, T.Pop;
    Sizes();
    AllBits(inst, 0xFFFF, inst);
    T.AndWithin(inst, 0xFFFF);
    T.CompressedExact(BREAKPOINT, inst);
  }

  lemma Short(inst: nat)
    ensures T.Within(inst % 0x1_0000, T.HASH_MASK_16) && inst % 0x1_0000 % 4 == inst % 4
  {
    hide T.Within, Pow2;
    SmallPowers();
    var w, q := inst % 0x1_0000, inst / 0x1_0000;
    T.LowAll(w, 16);
    DivModUnique(inst, 4, 0x4000 * q + w / 4, w % 4);
  }

  /** A 16-bit mask sees the low half only. */
  lemma LowMatches(p: T.Pattern, inst: nat)
    requires p.mask < 0x1_0000 && Matches(p, inst % 0x1_0000)
    ensures Matches(p, inst)
  {
    hide Bits, Pow2;
    SmallPowers();
    T.AndWithin(inst % 0x1_0000, p.mask);
    Field(inst, 16, 0x1_0000, p.mask, 0, p.match_, 0);
    BitsZero(And, inst / 0x1_0000);
  }

  ghost predicate Built(ops: seq<Insn>, others: seq<T.Pattern>, lut: seq<int>, lut16: seq<int>)
  {
    && Kept(ops, others)
    && Pow2(T.Pop(T.HASH_MASK)) <= |lut| && Pow2(T.Pop(T.HASH_MASK_16)) <= |lut16|
    && T.Table(Catalogue(ops, others), |ops| + |others|, false, T.HASH_MASK, lut)
    && T.Table(Catalogue(ops, others), |ops| + |others|, true, T.HASH_MASK_16, lut16)
  }

  lemma WideLookup(ops: seq<Insn>, others: seq<T.Pattern>, lut: seq<int>, lut16: seq<int>, inst: nat) returns (r: int)
    requires Built(ops, others, lut, lut16) && inst < M32
    ensures T.Gather(inst, T.HASH_MASK) < |lut| && r == lut[T.Gather(inst, T.HASH_MASK)]
    ensures inst % 4 == 3 ==> Agrees(ops, r, inst) && (0 <= r < |ops| ==> Matches(PatternOf(ops[r]), inst))
    ensures inst % 4 != 3 ==> r < 0 || r >= |ops|
  {
    hide Bits, Decode, Pow2, T.Pop, T.Best, T.Gather, T.Within, Clear, Matches, Agrees;
    var ps, h := Catalogue(ops, others), Bits(And, inst, T.HASH_MASK);
    BitsCommute(And, inst, T.HASH_MASK);
    T.AndWithin(inst, T.HASH_MASK);
    GatherMasked(inst, T.HASH_MASK);
    assert T.SlotBest(ps, |ps|, false, h, T.HASH_MASK, lut);
    T.GatherBound(inst, T.HASH_MASK);
    r := lut[T.Gather(inst, T.HASH_MASK)];
    WideAgrees(ops, others, inst, r);
  }

  lemma NarrowLookup(ops: seq<Insn>, others: seq<T.Pattern>, lut: seq<int>, lut16: seq<int>, inst: nat)
    returns (r: int)
    requires Built(ops, others, lut, lut16) && inst % 4 != 3
    ensures var i := T.Gather(inst % 0x1_0000, T.HASH_MASK_16); i < |lut16| && r == lut16[i]
    ensures Agrees(ops, r, inst % 0x1_0000)
    ensures r >= 0 ==> r < |ops| + |others| && Matches(Catalogue(ops, others)[r], inst)
  {
    hide Bits, Decode, Pow2, T.Pop, T.Best, T.Gather, T.Within, Clear, Matches, Agrees;
    var ps, word := Catalogue(ops, others), inst % 0x1_0000;
    Short(inst);
    assert T.SlotBest(ps, |ps|, true, word, T.HASH_MASK_16, lut16);
    T.GatherBound(word, T.HASH_MASK_16);
    r := lut16[T.Gather(word, T.HASH_MASK_16)];
    T.BestRange(ps, |ps|, true, word, T.HASH_MASK_16, r);
    NarrowAgrees(ops, others, word, r);
    if r >= 0 {
      LowMatches(ps[r], inst);
    }
  }

  /** The tables send every word to the handler of the instruction it decodes to, and every
      other word to none of the modelled handlers. */
  lemma TablesDecode(ops: seq<Insn>, others: seq<T.Pattern>, lut: seq<int>, lut16: seq<int>, inst: nat)
    requires Built(ops, others, lut, lut16) && inst < M32
    ensures Agrees(ops, Chosen(Catalogue(ops, others), lut, lut16, inst), Unit(inst))
  {
    hide Bits, Decode, Pow2, T.Pop, T.Table, T.Gather, Clear, Matches;
    var r := WideLookup(ops, others, lut, lut16, inst);
    if inst % 4 != 3 {
      var r16 := NarrowLookup(ops, others, lut, lut16, inst);
    }
  }

  // The sets' own lists -----------------------------------------------------------------------------

  const REGISTER_FORMS := {
    OpR(ADD, false), OpR(ADD, true), OpR(SUB, false), OpR(SUB, true), OpR(XOR, false), OpR(OR, false),
    OpR(AND, false), OpR(SLL, false), OpR(SLL, true), OpR(SRL, false), OpR(SRL, true), OpR(SRA, false),
    OpR(SRA, true), OpR(SLT, false), OpR(SLTU, false)}

  const IMMEDIATE_FORMS := {
    OpI(ADD, false), OpI(ADD, true), OpI(XOR, false), OpI(OR, false), OpI(AND, false), OpI(SLL, false),
    OpI(SLL, true), OpI(SRL, true), OpI(SRA, true), OpI(SRL, false), OpI(SRA, false), OpI(SLT, false),
    OpI(SLTU, false)}

  const MEMORY_FORMS := {
    Load(1, true), Load(2, true), Load(4, true), Load(8, true), Load(1, false), Load(2, false), Load(4, false),
    Store(1), Store(2), Store(4), Store(8)}

  const CONTROL_FORMS := {
    Branch(BEQ), Branch(BNE), Branch(BLT), Branch(BGE), Branch(BLTU), Branch(BGEU), Jal, Jalr, Lui, Auipc}

  const MULTIPLY_FORMS := {
    OpM(MUL, false), OpM(MUL, true), OpM(MULH, false), OpM(MULHSU, false), OpM(MULHU, false), OpM(DIV, false),
    OpM(DIVU, false), OpM(DIVU, true), OpM(DIV, true), OpM(REM, false), OpM(REMU, false), OpM(REMU, true),
    OpM(REM, true)}

  const COMPRESSED_FORMS := {
    CAddi4spn, CNop, CAddi, CAddiw, CLi, CLuiAddi16sp, CSrli, CSrai, CAndi, CAlu(SUB, false), CAlu(XOR, false),
    CAlu(OR, false), CAlu(AND, false), CAlu(SUB, true), CAlu(ADD, true), CSlli, CMv, CAdd, CLoad(4), CLoad(8),
    CStore(4), CStore(8), CJ, CBeqz, CBnez, CLoadSp(4), CLoadSp(8), CJr, CJalr, CStoreSp(4), CStoreSp(8)}

  const ALL := REGISTER_FORMS + IMMEDIATE_FORMS + MEMORY_FORMS + CONTROL_FORMS + MULTIPLY_FORMS + COMPRESSED_FORMS

  lemma AnyAlu(a: AluOp)
    ensures a in {ADD, SUB, SLL, SLT, SLTU, XOR, SRL, SRA, OR, AND}
  {
  }

  lemma AnyMul(m: MulOp)
    ensures m in {MUL, MULH, MULHSU, MULHU, DIV, DIVU, REM, REMU}
  {
  }

  lemma AnyBranch(b: BranchOp)
    ensures b in {BEQ, BNE, BLT, BGE, BLTU, BGEU}
  {
  }

  lemma RegisterListed(op: Insn)
    ensures op in REGISTER_FORMS <==> op.OpR? && IsRegistered(op)
  {
    if op.OpR? { AnyAlu(op.rop); }
  }

  lemma ImmediateListed(op: Insn)
    ensures op in IMMEDIATE_FORMS <==> op.OpI? && IsRegistered(op)
  {
    if op.OpI? { AnyAlu(op.iop); }
  }

  lemma MultiplyListed(op: Insn)
    ensures op in MULTIPLY_FORMS <==> op.OpM? && IsRegistered(op)
  {
    if op.OpM? { AnyMul(op.mop); }
  }

  lemma MemoryListed(op: Insn)
    ensures op in MEMORY_FORMS <==> (op.Load? || op.Store?) && IsRegistered(op)
  {
  }

  lemma ControlListed(op: Insn)
    ensures op in CONTROL_FORMS <==> op.Branch? || op.Jal? || op.Jalr? || op.Lui? || op.Auipc?
  {
    if op.Branch? { AnyBranch(op.bop); }
  }

  lemma CompressedListed(op: Insn)
    ensures op in COMPRESSED_FORMS <==> IsCompressed(op) && IsRegistered(op)
  {
  }

  lemma Listed(op: Insn)
    ensures op in ALL <==> IsRegistered(op)
  {
    InAll(op);
    RegisterListed(op);
    ImmediateListed(op);
    MultiplyListed(op);
    MemoryListed(op);
    ControlListed(op);
    CompressedListed(op);
  }

  lemma InAll(op: Insn)
    ensures op in ALL <==>
              || op in REGISTER_FORMS || op in IMMEDIATE_FORMS || op in MEMORY_FORMS || op in CONTROL_FORMS
              || op in MULTIPLY_FORMS || op in COMPRESSED_FORMS
  {
  }

  /** The remaining patterns of the three sets: ECALL, EBREAK, FENCE, C.EBREAK and the compressed
      floating-point loads and stores. */
  const REST := [
    T.Pattern(0xFFFF_FFFF, 0x73, false), T.Pattern(0xFFFF_FFFF, 0x10_0073, false),
    T.Pattern(0xF00F_FFFF, 0x0F, false), BREAKPOINT, T.Pattern(0xE003, 0x2000, true),
    T.Pattern(0xE003, 0xA000, true), T.Pattern(0xE003, 0x2002, true), T.Pattern(0xE003, 0xA002, true)]

  lemma LowAnd(a: nat, b: nat)
    ensures Bits(And, a, b) % 128 == Bits(And, a % 128, b % 128)
  {
    hide Bits, Pow2;
    SmallPowers();
    Peel(a, b, Bits(And, a, b), 7);
  }

  /** A pattern of an opcode of its own. */
  lemma ClearOpcode(p: T.Pattern)
    requires T.PatternOk(p) && !p.compressed && p.mask % 128 == 127
    requires p.match_ % 128 == 0x73 || p.match_ % 128 == 0x0F
    ensures Clear(p)
  {
    hide T.PatternOk, T.Compatible, Bits, Decode;
    forall inst: nat | inst < M32 && T.Compatible(p, Bits(And, inst, T.HASH_MASK), T.HASH_MASK)
      ensures inst % 4 == 3 ==> Decode(inst).None?
    {
      OpcodeKept(p, inst);
      OtherOpcode(inst);
    }
  }

  lemma OpcodeKept(p: T.Pattern, inst: nat)
    requires p.mask % 128 == 127 && T.Compatible(p, Bits(And, inst, T.HASH_MASK), T.HASH_MASK)
    ensures Opcode(inst) == p.match_ % 128
  {
    hide Bits, Pow2;
    LowAnd(inst, T.HASH_MASK);
    LowAnd(p.mask, T.HASH_MASK);
    LowAnd(p.match_, T.HASH_MASK);
    LowAnd(Bits(And, inst, T.HASH_MASK), Bits(And, p.mask, T.HASH_MASK));
    TopBits(inst % 128);
    TopBits(p.match_ % 128);
    TopBits(127);
  }

  lemma OtherOpcode(inst: nat)
    requires Opcode(inst) == 0x73 || Opcode(inst) == 0x0F
    ensures inst % 4 == 3 ==> Decode(inst).None?
  {
  }

  /** The two patterns disagree on a hashed bit both fix. */
  predicate Apart(p: T.Pattern, q: T.Pattern)
  {
    Bits(And, Bits(And, p.match_, T.HASH_MASK), q.mask) != Bits(And, Bits(And, q.match_, T.HASH_MASK), p.mask)
  }

  /** A pattern apart from every modelled one is clear of them. */
  lemma ApartIsClear(p: T.Pattern)
    requires T.PatternOk(p) && !p.compressed
    requires forall op | IsRegistered(op) && !IsCompressed(op) :: Apart(p, PatternOf(op))
    ensures Clear(p)
  {
    hide T.PatternOk, T.Compatible, Bits, Decode, Apart, PatternOf;
    forall inst: nat | inst < M32 && T.Compatible(p, Bits(And, inst, T.HASH_MASK), T.HASH_MASK)
      ensures inst % 4 == 3 ==> Decode(inst).None?
    {
      if inst % 4 == 3 && Decode(inst).Some? {
        var op := Decode(inst).value.op;
        WideFound(inst, op);
        NotApart(p, PatternOf(op), Bits(And, inst, T.HASH_MASK));
      }
    }
  }

  lemma NotApart(p: T.Pattern, q: T.Pattern, h: nat)
    requires T.Compatible(p, h, T.HASH_MASK) && T.Compatible(q, h, T.HASH_MASK)
    ensures !Apart(p, q)
  {
    hide Bits;
    var a, b := Bits(And, p.mask, T.HASH_MASK), Bits(And, q.mask, T.HASH_MASK);
    AndAssoc(h, a, q.mask);
    AndAssoc(h, b, p.mask);
    AndAssoc(p.mask, T.HASH_MASK, q.mask);
    BitsCommute(And, T.HASH_MASK, q.mask);
    BitsCommute(And, p.mask, b);
  }

  /** The compressed floating-point loads and stores have top bits of their own. */
  lemma ClearFloats(q: nat, f3: nat)
    requires (q == 0 || q == 2) && (f3 == 1 || f3 == 5)
    ensures Clear(T.Pattern(0xE003, q + 0x2000 * f3, true))
  {
    hide Bits, Decode, T.Within;
    var p := T.Pattern(0xE003, q + 0x2000 * f3, true);
    OwnFields(q, 0, 0, 0, f3, 0, 0, 0, 0);
    T.AndWithin(p.match_, p.mask);
    forall inst: nat | inst < 0x1_0000 && Matches(p, inst) ensures inst % 4 != 3 ==> Decode(inst).None? {
      NarrowFields(inst, 3, Upper(0, 0, 7), q, Upper(0, 0, f3));
      LowerFields(inst % 0x400, 0, 0, q, 0);
      UpperFields(inst / 0x400, 0, 0, 0, 0, f3);
      InstParts(inst);
      FloatWord(inst);
    }
  }

  lemma FloatWord(inst: nat)
    requires (inst % 4 == 0 || inst % 4 == 2) && (CFunct3(inst) == 1 || CFunct3(inst) == 5)
    ensures Decode(inst).None?
  {
  }

  lemma ClearBreakpoint()
    ensures Clear(BREAKPOINT)
  {
    hide Bits, Decode, T.Within;
    AllBits(0x9002, 0xFFFF, 0x9002);
    T.AndWithin(0x9002, 0xFFFF);
    forall inst: nat | inst < 0x1_0000 && Matches(BREAKPOINT, inst) ensures inst % 4 != 3 ==> Decode(inst).None? {
      AllBits(inst, 0xFFFF, 0x9002);
      Breakpoint(inst);
    }
  }

  lemma SystemPatterns()
    ensures T.PatternOk(T.Pattern(0xFFFF_FFFF, 0x73, false)) && T.PatternOk(T.Pattern(0xFFFF_FFFF, 0x10_0073, false))
    ensures T.PatternOk(T.Pattern(0xF00F_FFFF, 0x0F, false))
  {
    Pow2At64();
    hide Pow2, T.Within;
    T.LowAll(0x73, 32);
    T.LowAll(0x10_0073, 32);
    FenceBits(0x0F, 0xF00F_FFFF);
  }

  lemma FenceBits(v: nat, m: nat)
    requires v == 0x0F && m == 0xF00F_FFFF
    ensures T.Within(v, m)
  {
    hide T.Within;
    T.WithinHalf(v, m);
    T.WithinHalf(7, m / 2);
    T.WithinHalf(3, m / 4);
    T.WithinHalf(1, m / 8);
    EmptyWithin(m / 16);
  }

  lemma EmptyWithin(m: nat)
    ensures T.Within(0, m)
  {
  }

  lemma RestClear()
    ensures forall p | p in REST :: Clear(p)
  {
    hide Clear, T.PatternOk;
    SystemPatterns();
    ClearOpcode(REST[0]);
    ClearOpcode(REST[1]);
    ClearOpcode(REST[2]);
    ClearBreakpoint();
    ClearFloats(0, 1);
    ClearFloats(0, 5);
    ClearFloats(2, 1);
    ClearFloats(2, 5);
  }

  /** Lists a set in some order. */
  method Arrange(forms: set<Insn>) returns (ops: seq<Insn>)
    ensures forall op :: op in ops <==> op in forms
  {
    var left := forms;
    ops := [];
    while left != {}
      invariant forall op :: op in forms <==> op in ops || op in left
    {
      var op :| op in left;
      ops, left := ops + [op], left - {op};
    }
  }

  lemma Prepared(ops: seq<Insn>)
    requires forall op :: op in ops <==> op in ALL
    ensures Kept(ops, REST) && forall p | p in Catalogue(ops, REST) :: T.PatternOk(p)
  {
    hide ALL, Clear, T.PatternOk, PatternOf, IsRegistered;
    forall op ensures op in ops <==> IsRegistered(op) { Listed(op); }
    RestClear();
    assert REST[3] == BREAKPOINT;
    forall i | 0 <= i < |ops| ensures T.PatternOk(PatternOf(ops[i])) { PatternFits(ops[i]); }
    forall p | p in REST ensures T.PatternOk(p) { ClearFits(p); }
  }

  lemma ClearFits(p: T.Pattern)
    requires Clear(p)
    ensures T.PatternOk(p)
  {
  }

  /** init_all_instrs and build_lut: whatever the order of registration, every word then finds the
      handler of the instruction it stands for. */
  method Init() returns (ops: seq<Insn>, lut: array<int>, lut16: array<int>)
    ensures Built(ops, REST, lut[..], lut16[..])
    ensures forall inst: nat | inst < M32 ::
              Agrees(ops, Chosen(Catalogue(ops, REST), lut[..], lut16[..], inst), Unit(inst))
  {
    hide ALL, REST, Kept, T.Table, T.Pop, Pow2, Chosen, Agrees, T.PatternOk, PatternOf, IsRegistered;
    ops := Arrange(ALL);
    Prepared(ops);
    KeptOps(ops, REST);
    lut, lut16 := T.BuildLut(Catalogue(ops, REST));
    forall inst: nat | inst < M32
      ensures Agrees(ops, Chosen(Catalogue(ops, REST), lut[..], lut16[..], inst), Unit(inst))
    {
      TablesDecode(ops, REST, lut[..], lut16[..], inst);
    }
  }

  lemma KeptOps(ops: seq<Insn>, others: seq<T.Pattern>)
    requires Kept(ops, others)
    ensures forall op | op in ops :: IsRegistered(op)
  {
  }
}
