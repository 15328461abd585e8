/** The 64-byte TLB entry shared by the walker, the interpreter and the generated
    code, and the lookup that decides whether an entry serves an access. */
module TlbEntries {
  import opened Words
  import opened Options

  datatype Access = LOAD | STORE | EXEC

  datatype Privilege = User | Supervisor | Machine

  const SIZE: nat := 0x20000

  /** The 16-bit name of an address space. */
  type Asid = n: int | 0 <= n < 0x1_0000

  /** `perm` is the R W X U A D bit set, R in bit 0. */
  datatype Entry = Entry(
    maskInv: Word,
    vbase: Word,
    generation: Word,
    hostPtr: Word,
    pbase: Word,
    asid: Asid,
    pageBits: nat,
    perm: Byte,
    global: bool)

  predicate CanRead(p: Byte) { p % 2 == 1 }
  predicate CanWrite(p: Byte) { p / 2 % 2 == 1 }
  predicate CanExec(p: Byte) { p / 4 % 2 == 1 }
  predicate IsUser(p: Byte) { p / 8 % 2 == 1 }
  predicate IsDirty(p: Byte) { p / 32 % 2 == 1 }

  function Index(va: Word): (i: nat)
    ensures i < SIZE
  {
    (va / 0x1000) % SIZE
  }

  /** The offset of `va` inside a page of 2^bits bytes, and the page's base. */
  function Offset(va: Word, bits: nat): Word
  {
    ModBound(va, Pow2(bits));
    va % Pow2(bits)
  }

  function PageBase(va: Word, bits: nat): Word
  {
    ModBound(va, Pow2(bits));
    va - va % Pow2(bits)
  }

  /** What an entry lets through for one access type, mode, MXR and SUM. */
  predicate Grants(p: Byte, access: Access, mode: Privilege, mxr: bool, sum: bool)
  {
    && (match access
        case STORE => CanWrite(p) && IsDirty(p)
        case EXEC => CanExec(p) && !(mode == Supervisor && IsUser(p))
        case LOAD => CanRead(p) || (CanExec(p) && mxr))
    && (mode == User ==> IsUser(p))
    && (mode == Supervisor ==> !IsUser(p) || sum)
  }

  /** TLB::lookup. */
  function Lookup(entries: seq<Entry>, generation: Word, va: Word, access: Access, asid: Asid, mode: Privilege,
                  mxr: bool, sum: bool): Option<Word>
    requires |entries| == SIZE
  {
    var e := entries[Index(va)];
    if e.generation != generation then None
    else if PageBase(va, e.pageBits) != e.vbase then None
    else if !e.global && e.asid != asid then None
    else if !Grants(e.perm, access, mode, mxr, sum) then None
    else Some(BitW(Or, e.pbase, Offset(va, e.pageBits)))
  }

  /** The shape every resident entry has once `insert` has filled it. */
  predicate WellFormed(e: Entry)
  {
    && (e.pageBits == 12 || e.pageBits == 21 || e.pageBits == 30)
    && e.maskInv == M64 - Pow2(e.pageBits)
    && e.vbase % Pow2(e.pageBits) == 0
    && e.pbase % Pow2(e.pageBits) == 0
  }

  /** A resident entry's host pointer is absent or leads to the RAM image of its page,
      which then lies in RAM as a whole. */
  predicate HostMapped(e: Entry, ramBase: Word, ramSize: nat, hostRam: Word)
  {
    e.hostPtr != 0 ==>
      && ramBase <= e.pbase
      && e.pbase - ramBase + Pow2(e.pageBits) <= ramSize
      && e.hostPtr == U64(hostRam + (e.pbase - ramBase) - e.vbase)
  }

  lemma {:induction false} OrDisjoint(a: nat, b: nat, k: nat)
    requires a % Pow2(k) == 0 && b < Pow2(k)
    ensures Bits(Or, a, b) == a + b
    decreases k
  {
    if k == 0 {
      BitsZero(Or, a);
    } else {
      var p := Pow2(k - 1);
      ModStep(a, p);
      OrDisjoint(a / 2, b / 2, k - 1);
      BitsStep(Or, a, b);
    }
  }

  lemma PageSizes()
    ensures Pow2(12) == 0x1000 && Pow2(21) == 0x20_0000 && Pow2(30) == 0x4000_0000
  {
    assert Pow2(9) == 0x200 && Pow2(12) == 0x1000;
    Pow2Adds(9, 12);
    Pow2Adds(9, 21);
  }
}
