/** The x86-64 instructions that goloader patches or emits, as a step function.
    Encodings follow the Intel SDM volume 2: REX prefixes (section 2.2.1), RIP-relative
    addressing (section 2.2.1.6) and the opcode pages of MOV, LEA, CALL, JMP, PUSH and POP. */
module X86 {
  import opened Bytes
  import opened Memory
  import opened Optional

  /** Byte-addressed memory holding code, data and stack alike; sixteen 64-bit registers. */
  datatype Machine = Machine(mem: int -> byte, regs: seq<int>, rip: int)

  const RAX := 0
  const RSP := 4

  ghost predicate Valid(m: Machine) {
    && |m.regs| == 16
    && (forall r :: 0 <= r < 16 ==> 0 <= m.regs[r] < TWO_64)
    && 0 <= m.rip < TWO_64
  }

  function Push(m: Machine, v: int): Machine
    requires |m.regs| == 16
  {
    var sp := U64(m.regs[RSP] - 8);
    m.(mem := Store64(m.mem, sp, v), regs := m.regs[RSP := sp])
  }

  /** Control transfer to `rip` plus a signed 32-bit displacement. */
  function Rel32(mem: int -> byte, at: int, next: int): int {
    U64(next + S32(Load32(mem, at)))
  }

  function Rel8(d: byte, next: int): int {
    U64(next + if d < 0x80 then d else d - 0x100)
  }

  /** The register field of a ModRM byte, extended by REX.R. */
  function RegField(rex: byte, modrm: byte): (r: nat)
    ensures r < 16
  {
    modrm / 8 % 8 + 8 * (rex / 4 % 2)
  }

  /** ModRM with mod = 00 and rm = 101: the operand is RIP plus disp32. */
  predicate RipRelative(modrm: byte) { modrm / 64 == 0 && modrm % 8 == 5 }

  /** One instruction; `None` for an encoding outside this subset. */
  function Step(m: Machine): (next: Option<Machine>)
    requires |m.regs| == 16
    ensures next.Some? ==> |next.value.regs| == 16
  {
    var b0, b1, b2 := m.mem(m.rip), m.mem(m.rip + 1), m.mem(m.rip + 2);
    if m.rip < 0 || m.rip + 16 > TWO_64 then None
    else if b0 == 0x90 then Some(m.(rip := m.rip + 1))
    else if b0 == 0x50 then Some(Push(m, m.regs[RAX]).(rip := m.rip + 1))
    else if b0 == 0x58 then
      var v := Load64(m.mem, m.regs[RSP]);
      Some(m.(regs := m.regs[RSP := U64(m.regs[RSP] + 8)][RAX := v], rip := m.rip + 1))
    else if b0 == 0xEB then Some(m.(rip := Rel8(b1, m.rip + 2)))
    else if b0 == 0xE9 then Some(m.(rip := Rel32(m.mem, m.rip + 1, m.rip + 5)))
    else if b0 == 0xE8 then Some(Push(m, m.rip + 5).(rip := Rel32(m.mem, m.rip + 1, m.rip + 5)))
    else if b0 == 0xFF && b1 == 0x15 then
      var slot := Rel32(m.mem, m.rip + 2, m.rip + 6);
      Some(Push(m, m.rip + 6).(rip := Load64(m.mem, slot)))
    else if b0 == 0xFF && b1 == 0x25 then
      Some(m.(rip := Load64(m.mem, Rel32(m.mem, m.rip + 2, m.rip + 6))))
    else if 0x48 <= b0 < 0x50 then StepRexW(m, b0, b1, b2)
    else if 0x40 <= b0 < 0x48 then StepRex(m, b0, b1, b2)
    else if b0 == 0x8B && RipRelative(b1) then
      var v := Load32(m.mem, Rel32(m.mem, m.rip + 2, m.rip + 6));
      Some(m.(regs := m.regs[RegField(0, b1) := v], rip := m.rip + 6))
    else None
  }

  /** Instructions with a REX prefix without W: near jumps ignore it, loads are of 32 bits and clear the
      upper half of their register. */
  function StepRex(m: Machine, rex: byte, op: byte, modrm: byte): Option<Machine>
    requires |m.regs| == 16
  {
    if op == 0xE9 then Some(m.(rip := Rel32(m.mem, m.rip + 2, m.rip + 6)))
    else if op == 0x8B && RipRelative(modrm) then
      var v := Load32(m.mem, Rel32(m.mem, m.rip + 3, m.rip + 7));
      Some(m.(regs := m.regs[RegField(rex, modrm) := v], rip := m.rip + 7))
    else None
  }

  /** Instructions with a REX.W prefix; near jumps ignore the prefix. */
  function StepRexW(m: Machine, rex: byte, op: byte, modrm: byte): Option<Machine>
    requires |m.regs| == 16
  {
    if op == 0xE9 then Some(m.(rip := Rel32(m.mem, m.rip + 2, m.rip + 6)))
    else if op == 0xB8 && rex == 0x48 then
      Some(m.(regs := m.regs[RAX := Load64(m.mem, m.rip + 2)], rip := m.rip + 10))
    else if op == 0xA1 && rex == 0x48 then
      Some(m.(regs := m.regs[RAX := Load64(m.mem, Load64(m.mem, m.rip + 2))], rip := m.rip + 10))
    else if op == 0x8D && RipRelative(modrm) then
      var target := Rel32(m.mem, m.rip + 3, m.rip + 7);
      Some(m.(regs := m.regs[RegField(rex, modrm) := target], rip := m.rip + 7))
    else if op == 0x8B && RipRelative(modrm) then
      var v := Load64(m.mem, Rel32(m.mem, m.rip + 3, m.rip + 7));
      Some(m.(regs := m.regs[RegField(rex, modrm) := v], rip := m.rip + 7))
    else if op == 0x8B && modrm / 64 == 0 && modrm % 8 == 0 && rex % 2 == 0 then
      var v := Load64(m.mem, m.regs[RAX]);
      Some(m.(regs := m.regs[RegField(rex, modrm) := v], rip := m.rip + 3))
    else None
  }

  /** Execution of `n` instructions. */
  function Run(m: Machine, n: nat): Option<Machine>
    requires |m.regs| == 16
    decreases n
  {
    if n == 0 then Some(m)
    else match Step(m)
      case None => None
      case Some(m') => Run(m', n - 1)
  }

  /** A displacement that fits 32 bits is read back exactly. */
  lemma Rel32Of(mem: int -> byte, at: int, next: int, d: int)
    requires 0 <= at && at + 4 <= TWO_64 && Holds(mem, at, LE32(d))
    requires -TWO_31 <= d < TWO_31
    ensures Rel32(mem, at, next) == U64(next + d)
  {
    Load32Of(mem, at, d);
    SignedWord(d);
  }

  // ----- one lemma per emitted instruction -----

  /** Instructions are fetched below the top of the address space. */
  ghost predicate Fetches(m: Machine, bs: seq<byte>) {
    |m.regs| == 16 && 0 <= m.rip && m.rip + 16 <= TWO_64 && Holds(m.mem, m.rip, bs)
  }

  lemma FirstBytes(m: Machine, bs: seq<byte>)
    requires Fetches(m, bs)
    ensures |bs| > 0 ==> m.mem(m.rip) == bs[0]
    ensures |bs| > 1 ==> m.mem(m.rip + 1) == bs[1]
    ensures |bs| > 2 ==> m.mem(m.rip + 2) == bs[2]
  {
    assert |bs| > 0 ==> m.mem(m.rip + 0) == bs[0];
  }

  /** The displacement or immediate `tail` behind `opcode`. */
  lemma Operand(m: Machine, opcode: seq<byte>, tail: seq<byte>)
    requires Fetches(m, opcode + tail)
    ensures Holds(m.mem, m.rip + |opcode|, tail)
  {
    HoldsPart(m.mem, m.rip, opcode + tail, |opcode|, tail);
  }

  predicate IsInt32(d: int) { -TWO_31 <= d < TWO_31 }

  lemma StepNearJump(m: Machine, d: int)
    requires Fetches(m, [0xE9] + LE32(d)) && IsInt32(d)
    ensures Step(m) == Some(m.(rip := U64(m.rip + 5 + d)))
  {
    hide LE32, LE, Rel32, U64, S32, Load, Load64, Push;
    FirstBytes(m, [0xE9] + LE32(d));
    Operand(m, [0xE9], LE32(d));
    Rel32Of(m.mem, m.rip + 1, m.rip + 5, d);
  }

  /** A near jump behind a REX prefix. */
  lemma StepRexNearJump(m: Machine, rex: byte, d: int)
    requires 0x40 <= rex < 0x50 && Fetches(m, [rex, 0xE9] + LE32(d)) && IsInt32(d)
    ensures Step(m) == Some(m.(rip := U64(m.rip + 6 + d)))
  {
    hide LE32, LE, Rel32, U64, S32, Load, Load64, Push;
    FirstBytes(m, [rex, 0xE9] + LE32(d));
    Operand(m, [rex, 0xE9], LE32(d));
    Rel32Of(m.mem, m.rip + 2, m.rip + 6, d);
  }

  lemma StepShortJump(m: Machine, d: int)
    requires -0x80 <= d < 0 && Fetches(m, [0xEB, d + 0x100])
    ensures Step(m) == Some(m.(rip := U64(m.rip + 2 + d)))
  {
    FirstBytes(m, [0xEB, d + 0x100]);
  }

  lemma StepCall(m: Machine, d: int)
    requires Fetches(m, [0xE8] + LE32(d)) && IsInt32(d)
    ensures Step(m) == Some(Push(m, m.rip + 5).(rip := U64(m.rip + 5 + d)))
  {
    hide LE32, LE, Rel32, U64, S32, Load, Load64, Push;
    FirstBytes(m, [0xE8] + LE32(d));
    Operand(m, [0xE8], LE32(d));
    Rel32Of(m.mem, m.rip + 1, m.rip + 5, d);
  }

  lemma StepIndirectCall(m: Machine, skip: int)
    requires Fetches(m, [0xFF, 0x15] + LE32(skip)) && IsInt32(skip)
    ensures Step(m) == Some(Push(m, m.rip + 6).(rip := Load64(m.mem, U64(m.rip + 6 + skip))))
  {
    hide LE32, LE, Rel32, U64, S32, Load, Load64, Push;
    FirstBytes(m, [0xFF, 0x15] + LE32(skip));
    Operand(m, [0xFF, 0x15], LE32(skip));
    Rel32Of(m.mem, m.rip + 2, m.rip + 6, skip);
  }

  lemma StepIndirectJump(m: Machine, skip: int)
    requires Fetches(m, [0xFF, 0x25] + LE32(skip)) && IsInt32(skip)
    ensures Step(m) == Some(m.(rip := Load64(m.mem, U64(m.rip + 6 + skip))))
  {
    hide LE32, LE, Rel32, U64, S32, Load, Load64, Push;
    FirstBytes(m, [0xFF, 0x25] + LE32(skip));
    Operand(m, [0xFF, 0x25], LE32(skip));
    Rel32Of(m.mem, m.rip + 2, m.rip + 6, skip);
  }

  /** The two RIP-relative forms: LEA forms the address, MOV loads from it. */
  lemma StepRipRelative(m: Machine, rex: byte, op: byte, modrm: byte, d: int)
    requires 0x48 <= rex < 0x50 && RipRelative(modrm) && (op == 0x8D || op == 0x8B) && IsInt32(d)
    requires Fetches(m, [rex, op, modrm] + LE32(d))
    ensures var a := U64(m.rip + 7 + d);
      Step(m) == Some(m.(regs := m.regs[RegField(rex, modrm) := if op == 0x8D then a else Load64(m.mem, a)],
                         rip := m.rip + 7))
  {
    hide LE32, LE, Rel32, U64, S32, Load, Load64, Push;
    FirstBytes(m, [rex, op, modrm] + LE32(d));
    Operand(m, [rex, op, modrm], LE32(d));
    Rel32Of(m.mem, m.rip + 3, m.rip + 7, d);
  }

  /** The same load of 32 bits, behind a REX prefix without W. */
  lemma StepRexHalfLoad(m: Machine, rex: byte, modrm: byte, d: int)
    requires 0x40 <= rex < 0x48 && RipRelative(modrm) && IsInt32(d)
    requires Fetches(m, [rex, 0x8B, modrm] + LE32(d))
    ensures Step(m) == Some(m.(regs := m.regs[RegField(rex, modrm) := Load32(m.mem, U64(m.rip + 7 + d))],
                               rip := m.rip + 7))
  {
    hide LE32, LE, Rel32, U64, S32, Load, Load64, Load32, Push;
    FirstBytes(m, [rex, 0x8B, modrm] + LE32(d));
    Operand(m, [rex, 0x8B, modrm], LE32(d));
    Rel32Of(m.mem, m.rip + 3, m.rip + 7, d);
  }

  /** And without a prefix. */
  lemma StepHalfLoad(m: Machine, modrm: byte, d: int)
    requires RipRelative(modrm) && IsInt32(d) && Fetches(m, [0x8B, modrm] + LE32(d))
    ensures Step(m) == Some(m.(regs := m.regs[RegField(0, modrm) := Load32(m.mem, U64(m.rip + 6 + d))],
                               rip := m.rip + 6))
  {
    hide LE32, LE, Rel32, U64, S32, Load, Load64, Load32, Push;
    FirstBytes(m, [0x8B, modrm] + LE32(d));
    Operand(m, [0x8B, modrm], LE32(d));
    Rel32Of(m.mem, m.rip + 2, m.rip + 6, d);
  }

  lemma StepMovImmediate(m: Machine, imm: seq<byte>)
    requires |imm| == WORD && Fetches(m, [0x48, 0xB8] + imm)
    ensures Step(m) == Some(m.(regs := m.regs[RAX := Val(imm)], rip := m.rip + 10))
  {
    hide Rel32, U64, S32, Load, Val, Push;
    FirstBytes(m, [0x48, 0xB8] + imm);
    Operand(m, [0x48, 0xB8], imm);
    LoadVal(m.mem, m.rip + 2, imm);
  }

  lemma StepMovAbsolute(m: Machine, imm: seq<byte>)
    requires |imm| == WORD && Fetches(m, [0x48, 0xA1] + imm)
    ensures Step(m) == Some(m.(regs := m.regs[RAX := Load64(m.mem, Val(imm))], rip := m.rip + 10))
  {
    hide Rel32, U64, S32, Load, Val, Push;
    FirstBytes(m, [0x48, 0xA1] + imm);
    Operand(m, [0x48, 0xA1], imm);
    LoadVal(m.mem, m.rip + 2, imm);
  }

  /** MOV of register `dst` from the address in RAX. */
  lemma StepMovThroughRAX(m: Machine, dst: nat)
    requires dst < 16 && Fetches(m, [0x48 + 4 * (dst / 8), 0x8B, 8 * (dst % 8)])
    ensures Step(m) == Some(m.(regs := m.regs[dst := Load64(m.mem, m.regs[RAX])], rip := m.rip + 3))
  {
    hide Rel32, U64, S32, Load, Load64, Push;
    FirstBytes(m, [0x48 + 4 * (dst / 8), 0x8B, 8 * (dst % 8)]);
  }

  lemma StepPush(m: Machine)
    requires Fetches(m, [0x50])
    ensures Step(m) == Some(Push(m, m.regs[RAX]).(rip := m.rip + 1))
  {
    hide Rel32, U64, S32, Load, Load64, Push;
    FirstBytes(m, [0x50]);
  }

  lemma StepPop(m: Machine)
    requires Fetches(m, [0x58])
    ensures Step(m) == Some(m.(regs := m.regs[RSP := U64(m.regs[RSP] + 8)][RAX := Load64(m.mem, m.regs[RSP])],
                               rip := m.rip + 1))
  {
    hide Rel32, U64, S32, Load, Load64, Push;
    FirstBytes(m, [0x58]);
  }

  /** A run is its first instruction and the rest. */
  lemma RunCons(m: Machine, m': Machine, n: nat)
    requires |m.regs| == 16 && Step(m) == Some(m')
    ensures Run(m, n + 1) == Run(m', n)
  {
  }

  lemma RunNone(m: Machine)
    requires |m.regs| == 16
    ensures Run(m, 0) == Some(m)
  {
  }

  /** Runs compose. */
  lemma {:induction false} RunPlus(m: Machine, n: nat, k: nat)
    requires |m.regs| == 16
    requires Run(m, n).Some?
    ensures |Run(m, n).value.regs| == 16
    ensures Run(m, n + k) == Run(Run(m, n).value, k)
    decreases n
  {
    hide Step;
    if n > 0 {
      RunPlus(Step(m).value, n - 1, k);
    }
  }
}
