/** The instructions the recovery ROM is made of: their encoders, the fields the
    interpreter cuts out of a word, and the effect of one step. */
module Rv64 {
  import Bits

  const W64: nat := 0x1_0000_0000_0000_0000
  const W32: nat := 0x1_0000_0000
  const ROM_BASE: nat := 0x10000
  const ROM_WORDS: nat := 0x800

  datatype Option<T> = None | Some(value: T)

  // ----- encoders

  function CreateCsrrw(rs: nat, csrn: nat): nat { 0x1073 + csrn % 0x1000 * 0x10_0000 + rs % 32 * 0x8000 }

  function CreateCsrrs(rd: nat, csrn: nat): nat { 0x2073 + csrn % 0x1000 * 0x10_0000 + rd % 32 * 0x80 }

  function CreateAuipc(rd: nat, addr: nat): nat
  {
    var a := if addr / 0x800 % 2 == 1 then (addr + 0x800) % W32 else addr;
    0x17 + rd % 32 * 0x80 + a / 0x1000 * 0x1000
  }

  function CreateAddi(rd: nat, addr: nat): nat { 0x13 + rd % 32 * 0x80 + rd % 32 * 0x8000 + addr % 0x1000 * 0x10_0000 }

  function CreateSeti(rd: nat, data: nat): nat { 0x13 + rd % 32 * 0x80 + data % 0x1000 * 0x10_0000 }

  function CreateLd(rd: nat, rs1: nat): nat { 3 + rd % 32 * 0x80 + 3 * 0x1000 + rs1 % 32 * 0x8000 }

  function CreateSd(rs1: nat, rs2: nat): nat { 0x23 + rs2 % 32 * 0x10_0000 + 3 * 0x1000 + rs1 % 32 * 0x8000 }

  function CreateFld(rd: nat, rs1: nat): nat { 7 + rd % 32 * 0x80 + 3 * 0x1000 + rs1 % 32 * 0x8000 }

  // ----- fields

  function Opcode(w: nat): nat { w % 0x80 }
  function Rd(w: nat): (r: nat) ensures r < 32 { w / 0x80 % 32 }
  function Funct3(w: nat): nat { w / 0x1000 % 8 }
  function Rs1(w: nat): (r: nat) ensures r < 32 { w / 0x8000 % 32 }
  function Rs2(w: nat): (r: nat) ensures r < 32 { w / 0x10_0000 % 32 }
  function Top12(w: nat): (r: nat) ensures r < 0x1000 { w / 0x10_0000 % 0x1000 }

  /** insn & 0xfffff000 as a signed 32-bit number */
  function UpperImm(w: nat): int
  {
    var u := w / 0x1000 * 0x1000 % W32;
    if u < 0x8000_0000 then u else u - W32
  }

  function Sext12(i: nat): int
    requires i < 0x1000
  {
    if i < 0x800 then i else i - 0x1000
  }

  /** (insn >> 20) & 0xfe0 with the low five bits from rd */
  function StoreImm(w: nat): int
  {
    Sext12(Top12(w) / 32 * 32 + Rd(w))
  }

  /** The branch offset, a multiple of two between -4096 and 4094. */
  function BranchImm(w: nat): int
  {
    var u := w / 0x8000_0000 % 2 * 0x1000 + w / 0x80 % 2 * 0x800 + w / 0x200_0000 % 0x40 * 0x20 + w / 0x100 % 0x10 * 2;
    if u < 0x1000 then u else u - 0x2000
  }

  function IType(op: nat, rd: nat, f3: nat, rs1: nat, top: nat): nat
  {
    op + rd * 0x80 + f3 * 0x1000 + rs1 * 0x8000 + top * 0x10_0000
  }

  /** The fields of a word are what it was put together from. */
  lemma Fields(op: nat, rd: nat, f3: nat, rs1: nat, top: nat)
    requires op < 0x80 && rd < 32 && f3 < 8 && rs1 < 32 && top < 0x1000
    ensures var w := IType(op, rd, f3, rs1, top);
            Opcode(w) == op && Rd(w) == rd && Funct3(w) == f3 && Rs1(w) == rs1 && Top12(w) == top && w < W32
  {
    var w := IType(op, rd, f3, rs1, top);
    Bits.DivUnique(w, 0x80, rd + f3 * 32 + rs1 * 256 + top * 8192, op);
    Bits.DivUnique(rd + f3 * 32 + rs1 * 256 + top * 8192, 32, f3 + rs1 * 8 + top * 256, rd);
    Bits.DivUnique(w, 0x1000, f3 + rs1 * 8 + top * 256, op + rd * 0x80);
    Bits.DivUnique(f3 + rs1 * 8 + top * 256, 8, rs1 + top * 32, f3);
    Bits.DivUnique(w, 0x8000, rs1 + top * 32, op + rd * 0x80 + f3 * 0x1000);
    Bits.DivUnique(rs1 + top * 32, 32, top, rs1);
    Bits.DivUnique(w, 0x10_0000, top, op + rd * 0x80 + f3 * 0x1000 + rs1 * 0x8000);
  }

  // ----- the hart

  /** Constants of the machine: the hart id, the C extension, and 2 to the
      width of physical addresses. */
  datatype Cfg = Cfg(hartid: nat, rvc: bool, physSize: nat)

  /** The state the ROM rebuilds, without the program counter. csr holds the
      CSRs of Tracked; the others are accepted and not modelled, but for the FS
      field of mstatus, which decides if floating-point instructions run. io is what
      was stored outside the ROM. */
  datatype Core = Core(x: seq<nat>, csr: map<nat, nat>, fs: nat, priv: nat, debug: bool, io: seq<(nat, nat)>)

  predicate Tracked(csr: nat)
  {
    csr in {0x105, 0x140, 0x141, 0x142, 0x143, 0x180, 0x302, 0x303, 0x305, 0x340, 0x341, 0x342, 0x343,
            0x7b0, 0x7b1, 0x7b2}
  }

  predicate Accepted(csr: nat)
  {
    || csr in {0x001, 0x002, 0x003, 0x106, 0x300, 0x301, 0x304, 0x306, 0x320, 0x344, 0x3a0, 0x3a2, 0x7a0, 0xb00, 0xb02}
    || 0x323 <= csr <= 0x33f || 0x3b0 <= csr <= 0x3bf || 0xb03 <= csr <= 0xb1f
  }

  function CsrOf(c: Core, csr: nat): nat { if csr in c.csr then c.csr[csr] else 0 }

  /** csr_read goes through. */
  predicate Readable(c: Core, csr: nat, willWrite: bool)
  {
    && !(csr / 0x400 % 4 == 3 && willWrite)
    && c.priv >= csr / 0x100 % 4
    && (Tracked(csr) || Accepted(csr) || csr == 0xf14)
    && (csr in {0x001, 0x002, 0x003} ==> c.fs != 0)
    && (csr in {0x7b0, 0x7b1, 0x7b2} ==> c.debug)
  }

  /** (old & ~mask) | (val & mask) */
  function Field(prev: nat, val: nat, mask: nat): nat
  {
    prev - Bits.And(prev, mask) + Bits.And(val, mask)
  }

  /** A trap vector: mode bit 1 is zero, and a vectored base is 256-byte aligned. */
  function Vector(v: nat): nat { if v % 2 == 1 then v / 256 * 256 + 1 else v / 4 * 4 }

  /** Sign extension from bit 48. */
  function Canonical49(v: nat): nat
  {
    var low := v % 0x2_0000_0000_0000;
    if low < 0x1_0000_0000_0000 then low else low + 0xFFFE_0000_0000_0000
  }

  function EpcAlign(cfg: Cfg): (n: nat) ensures n == 2 || n == 4 { if cfg.rvc then 2 else 4 }

  /** The value a tracked CSR takes when val is written over old. */
  function Legal(cfg: Cfg, csr: nat, prev: nat, val: nat): nat
    requires cfg.physSize > 0
  {
    if csr == 0x105 then Vector(val)
    else if csr == 0x305 then Vector(val) % cfg.physSize
    else if csr == 0x141 || csr == 0x341 then Canonical49(val / EpcAlign(cfg) * EpcAlign(cfg))
    else if csr == 0x142 then Bits.And(val, 0x8000_0000_0000_001F)
    else if csr == 0x342 then Bits.And(val, 0x8000_0000_0000_00FF)
    else if csr == 0x143 || csr == 0x343 then Canonical49(val)
    else if csr == 0x180 then
      (if val / SATP_MODE % 16 in {0, 8, 9} then val / SATP_MODE % 16 * SATP_MODE + val % 0x1000_0000_0000 else prev)
    else if csr == 0x302 then Field(prev, val, 0xB109)
    else if csr == 0x303 then Field(prev, val, 0x222)
    else if csr == 0x7b0 then Field(prev, val, 0x603)
    else if csr == 0x7b1 then val / EpcAlign(cfg) * EpcAlign(cfg)
    else val
  }

  const SATP_MODE: nat := 0x1000_0000_0000_0000

  /** A value that a CSR can hold: writing it to the CSR after reset gives it back. */
  predicate Holds(cfg: Cfg, csr: nat, v: nat)
    requires cfg.physSize > 0
  {
    Legal(cfg, csr, 0, v) == v
  }

  predicate ValidCfg(cfg: Cfg) { cfg.hartid < W64 && cfg.physSize > 0 && cfg.physSize % 256 == 0 }

  /** Every write leaves a value of that kind. dcsr is left out: it has bits that
      are set at reset and cannot be written. */
  lemma WriteHolds(cfg: Cfg, csr: nat, prev: nat, val: nat)
    requires ValidCfg(cfg) && csr != 0x7b0 && Holds(cfg, csr, prev)
    ensures Holds(cfg, csr, Legal(cfg, csr, prev, val))
  {
    hide Vector, EpcAlign, Canonical49, Bits.And;
    if csr == 0x105 {
      VectorHolds(val);
    } else if csr == 0x305 {
      WrappedVectorHolds(val, cfg.physSize);
    } else if csr == 0x141 || csr == 0x341 {
      EpcHolds(val, EpcAlign(cfg));
    } else if csr == 0x142 {
      Bits.AndIdem(val, 0x8000_0000_0000_001F);
    } else if csr == 0x342 {
      Bits.AndIdem(val, 0x8000_0000_0000_00FF);
    } else if csr == 0x143 || csr == 0x343 {
      TvalHolds(val);
    } else if csr == 0x180 {
      SatpHolds(val);
    } else if csr == 0x302 {
      FieldHolds(prev, val, 0xB109);
    } else if csr == 0x303 {
      FieldHolds(prev, val, 0x222);
    } else if csr == 0x7b1 {
      AlignHolds(val, EpcAlign(cfg));
    }
  }

  /** The cause register: bit 63 marks an interrupt. */
  function CauseWord(cause: nat, interrupt: bool): nat
  {
    cause + if interrupt then 0x8000_0000_0000_0000 else 0
  }

  /** A trap, too, leaves values of that kind: an aligned pc, a cause within the mask
      of its register with or without the interrupt bit, and any tval. */
  lemma TrapHolds(cfg: Cfg, pc: nat, cause: nat, interrupt: bool, tval: nat)
    requires ValidCfg(cfg) && pc % EpcAlign(cfg) == 0
    ensures Holds(cfg, 0x141, Canonical49(pc)) && Holds(cfg, 0x341, Canonical49(pc))
    ensures Holds(cfg, 0x143, Canonical49(tval)) && Holds(cfg, 0x343, Canonical49(tval))
    ensures var w := CauseWord(cause, interrupt);
            (cause < 32 ==> Holds(cfg, 0x142, w)) && (cause < 256 ==> Holds(cfg, 0x342, w))
  {
    hide EpcAlign, Canonical49, Bits.And;
    AlignExact(pc, EpcAlign(cfg));
    EpcHolds(pc, EpcAlign(cfg));
    TvalHolds(tval);
    if cause < 32 {
      CauseHolds(cause, interrupt, 5);
    }
    if cause < 256 {
      CauseHolds(cause, interrupt, 8);
    }
  }

  /** A mask of bit 63 and the low n bits keeps a cause of n bits. */
  lemma CauseHolds(cause: nat, interrupt: bool, n: nat)
    requires n <= 63 && cause < Bits.P(n)
    ensures Bits.P(63) == 0x8000_0000_0000_0000
    ensures Bits.And(CauseWord(cause, interrupt), Bits.P(63) + Bits.P(n) - 1) == CauseWord(cause, interrupt)
  {
    hide Bits.And, Bits.P, Bits.Shl;
    Bits.DoublePowers();
    var q := Bits.P(63 - n);
    var p := if interrupt then q else 0;
    Bits.ShlP(63 - n, n);
    Bits.ShlNone(0, n);
    Bits.AndSplit(p, q, n, cause, Bits.P(n) - 1);
    Bits.AndSelf(q);
    Bits.AndStep(0, q);
    Bits.AndStep(0, q / 2);
    Bits.AndMask(cause, n);
    Bits.Small(cause, n);
  }

  lemma AlignHolds(v: nat, n: nat)
    requires n > 0
    ensures v / n * n / n * n == v / n * n
  {
    Bits.DivUnique(v / n * n, n, v / n, 0);
  }

  lemma FieldHolds(prev: nat, val: nat, mask: nat)
    requires Field(0, prev, mask) == prev
    ensures Field(0, Field(prev, val, mask), mask) == Field(prev, val, mask)
  {
    Bits.AndIdem(val, mask);
  }

  lemma SatpHolds(val: nat)
    ensures var v := val / SATP_MODE % 16 * SATP_MODE + val % 0x1000_0000_0000;
            v / SATP_MODE % 16 == val / SATP_MODE % 16 && v % 0x1000_0000_0000 == val % 0x1000_0000_0000
  {
    var m, p := val / SATP_MODE % 16, val % 0x1000_0000_0000;
    Bits.DivUnique(m * SATP_MODE + p, SATP_MODE, m, p);
    Bits.DivUnique(m * SATP_MODE + p, 0x1000_0000_0000, m * 0x1_0000, p);
  }

  lemma TvalHolds(v: nat)
    ensures Canonical49(Canonical49(v)) == Canonical49(v)
  {
    var low := v % 0x2_0000_0000_0000;
    assert Canonical49(v) == low || Canonical49(v) == low + 0x7FFF * 0x2_0000_0000_0000;
    Bits.DivUnique(low + 0x7FFF * 0x2_0000_0000_0000, 0x2_0000_0000_0000, 0x7FFF, low);
    Bits.DivUnique(low, 0x2_0000_0000_0000, 0, low);
  }

  lemma EpcHolds(v: nat, n: nat)
    requires n == 2 || n == 4
    ensures Canonical49(Canonical49(v / n * n) / n * n) == Canonical49(v / n * n)
  {
    var a := v / n * n;
    TvalHolds(a);
    CanonicalAligned(a, n);
    AlignExact(Canonical49(a), n);
  }

  lemma AlignExact(a: nat, n: nat)
    requires n > 0 && a % n == 0
    ensures a / n * n == a
  {
  }

  lemma CanonicalAligned(a: nat, n: nat)
    requires (n == 2 || n == 4) && a % n == 0
    ensures Canonical49(a) % n == 0
  {
    var q, low := a / 0x2_0000_0000_0000, a % 0x2_0000_0000_0000;
    assert a == q * 0x2_0000_0000_0000 + low;
    var k := a / n - q * (0x2_0000_0000_0000 / n);
    MultipleOf(low, n, k);
    MultipleOf(low + 0xFFFE_0000_0000_0000, n, k + 0xFFFE_0000_0000_0000 / n);
  }

  lemma MultipleOf(a: nat, n: nat, k: int)
    requires n > 0 && a == n * k
    ensures a % n == 0
  {
    Bits.DivUnique(a, n, k, 0);
  }

  lemma VectorHolds(v: nat)
    ensures Vector(Vector(v)) == Vector(v)
  {
    if v % 2 == 1 {
      Bits.DivUnique(v / 256 * 256 + 1, 256, v / 256, 1);
      Bits.DivUnique(v / 256 * 256 + 1, 2, v / 256 * 128, 1);
    } else {
      Bits.DivUnique(v / 4 * 4, 4, v / 4, 0);
      Bits.DivUnique(v / 4 * 4, 2, v / 4 * 2, 0);
    }
  }

  lemma WrappedVectorHolds(v: nat, size: nat)
    requires size > 0 && size % 256 == 0
    ensures Vector(Vector(v) % size) % size == Vector(v) % size
  {
    var a := Vector(v);
    var k, q := size / 256, a / size;
    var r := a % size;
    assert size == 256 * k && a == q * size + r;
    assert a - r == 256 * (q * k) by { MulMul(q, k); }
    VectorHolds(v);
    VectorFixed(r, a, q * k);
    assert r % size == r by { Bits.DivUnique(r, size, 0, r); }
  }

  lemma MulMul(q: int, k: int)
    ensures q * (256 * k) == 256 * (q * k)
  {
  }

  lemma VectorFixed(r: nat, a: nat, j: int)
    requires Vector(a) == a
    requires a - r == 256 * j
    ensures Vector(r) == r
  {
    if a % 2 == 1 {
      var k := a / 256 - j;
      assert r == 256 * k + 1;
      Bits.DivUnique(r, 256, k, 1);
      Bits.DivUnique(r, 2, 128 * k, 1);
    } else {
      var k := a / 4 - 64 * j;
      assert r == 4 * k;
      Bits.DivUnique(r, 4, k, 0);
      Bits.DivUnique(r, 2, 2 * k, 0);
    }
  }

  /** csr_write, for a CSR that csr_read let through. */
  function CsrWrite(cfg: Cfg, c: Core, csr: nat, val: nat): Core
    requires cfg.physSize > 0
  {
    if Tracked(csr) then c.(csr := c.csr[csr := Legal(cfg, csr, CsrOf(c, csr), val)])
    else if csr == 0x300 then c.(fs := val / 0x2000 % 4)
    else c
  }

  function SetX(c: Core, rd: nat, val: nat): Core
    requires rd < |c.x|
  {
    if rd == 0 then c else c.(x := c.x[rd := val])
  }

  predicate ValidCore(c: Core)
  {
    && |c.x| == 32 && c.x[0] == 0
    && forall i :: 0 <= i < 32 ==> c.x[i] < W64
  }

  function Load64(rom: seq<nat>, addr: nat): Option<nat>
  {
    if addr % 8 == 0 && ROM_BASE <= addr && (addr - ROM_BASE) / 4 + 1 < |rom|
    then Some(rom[(addr - ROM_BASE) / 4] + W32 * rom[(addr - ROM_BASE) / 4 + 1])
    else None
  }

  /** A store outside the ROM is recorded. */
  function Store64(rom: seq<nat>, pc: nat, c: Core, addr: nat, val: nat): Option<(nat, Core)>
  {
    if addr % 8 == 0 && addr >= ROM_BASE + 4 * |rom| then Some((pc + 4, c.(io := c.io + [(addr, val)]))) else None
  }

  /** One instruction; None outside this subset and where the interpreter traps. */
  function Step(cfg: Cfg, rom: seq<nat>, pc: nat, c: Core): Option<(nat, Core)>
    requires ValidCore(c) && cfg.physSize > 0
  {
    if pc < ROM_BASE || pc % 4 != 0 || (pc - ROM_BASE) / 4 >= |rom| then None
    else
      var w := rom[(pc - ROM_BASE) / 4];
      var op, f3, rd, rs1 := Opcode(w), Funct3(w), Rd(w), Rs1(w);
      if op == 0x17 then Some((pc + 4, SetX(c, rd, (pc + UpperImm(w)) % W64)))
      else if op == 0x13 && f3 == 0 then Some((pc + 4, SetX(c, rd, (c.x[rs1] + Sext12(Top12(w))) % W64)))
      else if op == 0x03 && f3 == 3 then
        match Load64(rom, (c.x[rs1] + Sext12(Top12(w))) % W64)
        case Some(v) => Some((pc + 4, SetX(c, rd, v % W64)))
        case None => None
      else if op == 0x07 && f3 == 3 then
        if c.fs != 0 && Load64(rom, (c.x[rs1] + Sext12(Top12(w))) % W64).Some? then Some((pc + 4, c)) else None
      else if op == 0x23 && f3 == 3 then
        Store64(rom, pc, c, (c.x[rs1] + StoreImm(w)) % W64, c.x[Rs2(w)])
      else if op == 0x63 && f3 == 0 then
        var to := if c.x[rs1] == c.x[Rs2(w)] then pc + BranchImm(w) else pc + 4;
        if to >= 0 then Some((to, c)) else None
      else if op == 0x73 then System(cfg, pc, c, w)
      else None
  }

  /** csrrw, csrrs and dret */
  function System(cfg: Cfg, pc: nat, c: Core, w: nat): Option<(nat, Core)>
    requires ValidCore(c) && cfg.physSize > 0
  {
    var f3, rd, rs1, csr := Funct3(w), Rd(w), Rs1(w), Top12(w);
    if f3 == 1 then
      if Readable(c, csr, true) && rd == 0 then Some((pc + 4, CsrWrite(cfg, c, csr, c.x[rs1]))) else None
    else if f3 == 2 then
      if Readable(c, csr, rs1 != 0) && rs1 == 0 && (Tracked(csr) || csr == 0xf14)
      then Some((pc + 4, SetX(c, rd, if csr == 0xf14 then cfg.hartid else CsrOf(c, csr))))
      else None
    else if f3 == 0 && csr == 0x7b2 && rd == 0 && rs1 == 0 && c.debug && c.priv == 3 then
      Some((CsrOf(c, 0x7b1), c.(debug := false, priv := CsrOf(c, 0x7b0) % 4)))
    else None
  }

  /** n steps. */
  function Run(cfg: Cfg, rom: seq<nat>, pc: nat, c: Core, n: nat): Option<(nat, Core)>
    requires ValidCore(c) && cfg.physSize > 0
    decreases n
  {
    if n == 0 then Some((pc, c))
    else match Step(cfg, rom, pc, c)
      case None => None
      case Some(s) => if ValidCore(s.1) then Run(cfg, rom, s.0, s.1, n - 1) else None
  }

  lemma {:induction false} RunRun(cfg: Cfg, rom: seq<nat>, pc: nat, c: Core, m: nat, n: nat, pc': nat, c': Core)
    requires ValidCore(c) && cfg.physSize > 0 && Run(cfg, rom, pc, c, m) == Some((pc', c'))
    ensures ValidCore(c') && Run(cfg, rom, pc, c, m + n) == Run(cfg, rom, pc', c', n)
    decreases m
  {
    hide Step, ValidCore;
    if m > 0 {
      var s := Step(cfg, rom, pc, c).value;
      RunRun(cfg, rom, s.0, s.1, m - 1, n, pc', c');
    }
  }

  // ----- auipc and addi together

  lemma AuipcFields(rd: nat, off: nat)
    requires off < 0x7FFF_F800 && rd < 32
    ensures var w, u := CreateAuipc(rd, off), (off + 0x800) / 0x1000;
            Opcode(w) == 0x17 && Rd(w) == rd && w < W32 && UpperImm(w) == u * 0x1000
  {
    var w := CreateAuipc(rd, off);
    var u := (off + 0x800) / 0x1000;
    UpperPart(off);
    assert w == 0x17 + rd * 0x80 + u * 0x1000;
    Bits.DivUnique(w, 0x80, rd + u * 32, 0x17);
    Bits.DivUnique(rd + u * 32, 32, u, rd);
    Bits.DivUnique(w, 0x1000, u, 0x17 + rd * 0x80);
  }

  lemma AddiFields(rd: nat, off: nat)
    requires rd < 32
    ensures var v := CreateAddi(rd, off);
            && Opcode(v) == 0x13 && Funct3(v) == 0 && Rd(v) == rd && Rs1(v) == rd && v < W32
            && Top12(v) == off % 0x1000
  {
    hide Opcode, Rd, Rs1, Top12, Funct3;
    Fields(0x13, rd, 0, rd, off % 0x1000);
    assert CreateAddi(rd, off) == IType(0x13, rd, 0, rd, off % 0x1000);
  }

  /** The upper part carries when the low twelve bits are negative, so the pair
      adds exactly the offset. */
  lemma PcRelative(pc: nat, off: nat, rd: nat)
    requires off < 0x7FFF_F800 && rd < 32
    ensures var w, v := CreateAuipc(rd, off), CreateAddi(rd, off);
            && Opcode(w) == 0x17 && Rd(w) == rd
            && Opcode(v) == 0x13 && Funct3(v) == 0 && Rd(v) == rd && Rs1(v) == rd
            && w < W32 && v < W32
            && ((pc + UpperImm(w)) % W64 + Sext12(Top12(v))) % W64 == (pc + off) % W64
  {
    hide Opcode, Rd, Rs1, Top12, Funct3, UpperImm, CreateAuipc, CreateAddi;
    AuipcFields(rd, off);
    AddiFields(rd, off);
    UpperPart(off);
    AddMod(pc + (off + 0x800) / 0x1000 * 0x1000, Sext12(off % 0x1000));
  }

  lemma UpperPart(off: nat)
    requires off < 0x7FFF_F800
    ensures var a := if off / 0x800 % 2 == 1 then (off + 0x800) % W32 else off;
            a / 0x1000 == (off + 0x800) / 0x1000
    ensures (off + 0x800) / 0x1000 * 0x1000 + Sext12(off % 0x1000) == off
  {
    var q, r := off / 0x1000, off % 0x1000;
    assert off == q * 0x1000 + r;
    if r < 0x800 {
      Bits.DivUnique(off, 0x800, 2 * q, r);
      Bits.DivUnique(off + 0x800, 0x1000, q, r + 0x800);
    } else {
      Bits.DivUnique(off, 0x800, 2 * q + 1, r - 0x800);
      Bits.DivUnique(off + 0x800, 0x1000, q + 1, r - 0x800);
    }
  }

  lemma AddMod(a: nat, b: int)
    ensures (a % W64 + b) % W64 == (a + b) % W64
  {
    var q := a / W64;
    assert a + b == a % W64 + b + q * W64;
    var s := a % W64 + b;
    var t := s / W64;
    assert a + b == (t + q) * W64 + s % W64;
    assert 0 <= s % W64 < W64;
    assert (a + b) / W64 == t + q;
  }
}
