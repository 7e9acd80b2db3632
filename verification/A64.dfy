/** The A64 instructions that goloader patches or emits, as a step function.
    Encodings follow the Arm Architecture Reference Manual (DDI 0487), section C6.2: ADRP,
    ADD (immediate), LDR (literal), LDR/STR (immediate, unsigned offset), B, BL and BR. */
module A64 {
  import opened Bytes
  import opened Memory
  import opened Optional

  /** A data access: the opcode bits that say what is transferred, and the address. */
  datatype Access = Access(transfer: int, address: int)

  /** X0 to X30; floating-point registers appear only in the trace of accesses. */
  datatype Machine = Machine(mem: int -> byte, regs: seq<int>, pc: int, trace: seq<Access>)

  ghost predicate Valid(m: Machine) {
    && |m.regs| == 31
    && (forall r :: 0 <= r < 31 ==> 0 <= m.regs[r] < TWO_64)
    && 0 <= m.pc < TWO_64
  }

  /** Sign-extends a `width`-bit immediate, `half` being its sign bit. */
  function Signed(imm: nat, half: nat): int {
    if imm < half then imm else imm - 2 * half
  }

  const PAGE := 0x1000

  predicate IsADRP(w: nat) { w / 0x8000_0000 == 1 && w / 0x100_0000 % 32 == 0x10 }
  predicate IsADD(w: nat) { w / 0x40_0000 == 0x244 }
  predicate IsLoadStore(w: nat) { w / 0x100_0000 % 64 == 0x39 || w / 0x100_0000 % 64 == 0x3D }
  predicate IsLDRLiteral(w: nat) { w / 0x100_0000 == 0x58 }
  predicate IsB(w: nat) { w / 0x400_0000 == 0x05 }
  predicate IsBL(w: nat) { w / 0x400_0000 == 0x25 }
  predicate IsBR(w: nat) { w / 0x400 == 0x35_87C0 && w % 32 == 0 }

  function Rd(w: nat): nat { w % 32 }
  function Rn(w: nat): nat { w / 32 % 32 }
  function Imm12(w: nat): nat { w / 0x400 % 0x1000 }

  /** The 21-bit page count of ADRP: immhi in bits 5 to 23, immlo in bits 29 and 30. */
  function Imm21(w: nat): nat { w / 32 % 0x8_0000 * 4 + w / 0x2000_0000 % 4 }

  /** log2 of the access size of a load or store with unsigned offset. */
  function Scale(w: nat): (s: nat)
    ensures s <= 4
  {
    if w / 0x400_0000 % 2 == 1 && w / 0x80_0000 % 2 == 1 then 4 else w / 0x4000_0000 % 4
  }

  /** A load or store without its offset and base register: what is transferred to where. */
  function Transfer(w: nat): nat { w / 0x40_0000 * 32 + w % 32 }

  /** The 64-bit value of an integer load of `n` bytes, by the opc field. */
  function Loaded(v: nat, n: nat, opc: nat): int {
    var half := Pow256(n) / 2;
    if opc == 1 || v < half then v
    else if opc == 2 then U64(v - Pow256(n))
    else U32(v - Pow256(n))
  }

  /** Writes the `n` low bytes of `v` at `a`. */
  function StoreBytes(mem: int -> byte, a: int, v: nat, n: nat): int -> byte {
    (x: int) => if 0 <= U64(x - a) < n then LE(v, n)[U64(x - a)] else mem(x)
  }

  /** The load or store `w` at address `a`. */
  function Perform(m: Machine, w: nat, a: int): (m': Machine)
    requires |m.regs| == 31
    ensures |m'.regs| == 31 && m'.pc == m.pc
  {
    var vector, opc := w / 0x400_0000 % 2 == 1, w / 0x40_0000 % 4;
    Transferred(m.(trace := m.trace + [Access(Transfer(w), a)]), vector, opc, Pow2(Scale(w)), Rd(w), a)
  }

  /** Its effect on memory and integer registers. */
  function Transferred(m: Machine, vector: bool, opc: nat, n: nat, rt: nat, a: int): (m': Machine)
    requires |m.regs| == 31 && rt < 32
    ensures |m'.regs| == 31 && m'.pc == m.pc
  {
    if vector then m
    else if opc == 0 then m.(mem := StoreBytes(m.mem, a, if rt == 31 then 0 else U64(m.regs[rt]), n))
    else if rt == 31 then m
    else m.(regs := m.regs[rt := Loaded(Load(m.mem, a, n), n, opc)])
  }

  function Fetch(m: Machine): nat { Load32(m.mem, m.pc) }

  /** One instruction; `None` for an encoding outside this subset. */
  function Step(m: Machine): (next: Option<Machine>)
    requires |m.regs| == 31
    ensures next.Some? ==> |next.value.regs| == 31
  {
    if m.pc < 0 || m.pc + 4 > TWO_64 then None else Execute(m, Fetch(m))
  }

  function Execute(m: Machine, w: nat): (next: Option<Machine>)
    requires |m.regs| == 31
    ensures next.Some? ==> |next.value.regs| == 31
  {
    if IsADRP(w) && Rd(w) < 31 then
      Some(m.(regs := m.regs[Rd(w) := U64(m.pc - m.pc % PAGE + Signed(Imm21(w), 0x10_0000) * PAGE)],
              pc := m.pc + 4))
    else if IsADD(w) && Rd(w) < 31 && Rn(w) < 31 then
      Some(m.(regs := m.regs[Rd(w) := U64(m.regs[Rn(w)] + Imm12(w))], pc := m.pc + 4))
    else if IsLoadStore(w) && Rn(w) < 31 then
      Some(Perform(m, w, U64(m.regs[Rn(w)] + Imm12(w) * Pow2(Scale(w)))).(pc := m.pc + 4))
    else if IsLDRLiteral(w) && Rd(w) < 31 then
      Some(m.(regs := m.regs[Rd(w) := Load64(m.mem, U64(m.pc + Signed(w / 32 % 0x8_0000, 0x4_0000) * 4))],
              pc := m.pc + 4))
    else if IsB(w) then Some(m.(pc := U64(m.pc + Signed(w % 0x400_0000, 0x200_0000) * 4)))
    else if IsBL(w) then
      Some(m.(regs := m.regs[30 := m.pc + 4], pc := U64(m.pc + Signed(w % 0x400_0000, 0x200_0000) * 4)))
    else if IsBR(w) && Rn(w) < 31 then Some(m.(pc := m.regs[Rn(w)]))
    else None
  }

  /** Execution of `n` instructions. */
  function Run(m: Machine, n: nat): Option<Machine>
    requires |m.regs| == 31
    decreases n
  {
    if n == 0 then Some(m)
    else match Step(m)
      case None => None
      case Some(m') => Run(m', n - 1)
  }

  lemma RunCons(m: Machine, m': Machine, n: nat)
    requires |m.regs| == 31 && Step(m) == Some(m')
    ensures Run(m, n + 1) == Run(m', n)
  {
    hide Step;
  }

  lemma RunNone(m: Machine)
    requires |m.regs| == 31
    ensures Run(m, 0) == Some(m)
  {
  }

  /** The word `w` is the next instruction. */
  ghost predicate At(m: Machine, w: nat) {
    |m.regs| == 31 && 0 <= m.pc && m.pc + 4 <= TWO_64 && w < TWO_32 && Holds(m.mem, m.pc, LE32(w))
  }

  lemma FetchAt(m: Machine, w: nat)
    requires At(m, w)
    ensures Fetch(m) == w && Step(m) == Execute(m, w)
  {
    hide Execute, LE32, Load;
    Load32Of(m.mem, m.pc, w);
    assert U32(w) == w;
  }
}
