/** What create_boot_rom puts into the recovery ROM, and what running it does. */
module BootRom {
  import opened Rv64

  const DATA_START: nat := 0x2C0   // 0xB00 / 4
  const DRET: nat := 0x7b20_0073

  /** One recovery step: what one create_ call emits. SaveX1 and LoadX1 are the
      two single instructions around the satp restore. */
  datatype Item =
    | Hang
    | Csr64(csr: nat, val: nat)
    | Csr12(csr: nat, val: nat)
    | Reg(rn: nat, val: nat)
    | Fp(rn: nat, val: nat)
    | Io64(addr: nat, val: nat)
    | SaveX1
    | LoadX1

  function Halves(v: nat): seq<nat> { [v % W32, v / W32 % W32] }

  function Data(item: Item): seq<nat>
  {
    match item
    case Csr64(_, v) => Halves(v)
    case Reg(_, v) => Halves(v)
    case Fp(_, v) => Halves(v)
    case Io64(a, v) => Halves(a) + Halves(v)
    case _ => []
  }

  /** sizeof(uint32_t) * (data_pos - code_pos), in 32 bits */
  function Off(p: nat, d: nat): nat { 4 * (d - p) % W32 }

  lemma OffForward(p: nat, d: nat)
    requires p <= d < ROM_WORDS
    ensures Off(p, d) == 4 * (d - p)
  {
  }

  /** Load the 64-bit constant at word d into a register, from word p on. */
  function LoadWords(rn: nat, p: nat, d: nat): seq<nat>
  {
    [CreateAuipc(rn, Off(p, d)), CreateAddi(rn, Off(p, d)), CreateLd(rn, rn)]
  }

  function Code(item: Item, p: nat, d: nat): seq<nat>
  {
    match item
    case Hang => [0xf140_2573, 0x0005_0663, 0x1050_0073, 0xffdf_f06f]
    case Csr64(csr, _) => LoadWords(1, p, d) + [CreateCsrrw(1, csr)]
    case Csr12(csr, v) => [CreateSeti(1, v % 0x1000), CreateCsrrw(1, csr)]
    case Reg(rn, _) => LoadWords(rn, p, d)
    case Fp(rn, _) => [CreateAuipc(1, Off(p, d)), CreateAddi(1, Off(p, d)), CreateFld(rn, 1)]
    case Io64(_, _) => LoadWords(1, p, d) + LoadWords(2, p + 3, d + 2) + [CreateSd(1, 2)]
    case SaveX1 => [CreateCsrrw(1, 0x7b2)]
    case LoadX1 => [CreateCsrrs(1, 0x7b2)]
  }

  function CodeLen(item: Item): nat
  {
    match item
    case Hang => 4
    case Csr64(_, _) => 4
    case Csr12(_, _) => 2
    case Reg(_, _) => 3
    case Fp(_, _) => 3
    case Io64(_, _) => 7
    case _ => 1
  }

  function DataLen(item: Item): nat
  {
    match item
    case Io64(_, _) => 4
    case Csr64(_, _) => 2
    case Reg(_, _) => 2
    case Fp(_, _) => 2
    case _ => 0
  }

  lemma Lengths(item: Item, p: nat, d: nat)
    ensures |Code(item, p, d)| == CodeLen(item) && |Data(item)| == DataLen(item)
  {
  }

  /** Steps the item takes: the hart with id 0 branches over the wait loop. */
  function Steps(item: Item): nat { if item.Hang? then 2 else CodeLen(item) }

  function Imm12(v: nat): nat { Sext12(v % 0x1000) % W64 }

  /** What the item does to the hart; d is where its data is. */
  function Effect(cfg: Cfg, item: Item, d: nat, c: Core): (c': Core)
    requires cfg.physSize > 0 && |c.x| == 32
    requires item.Reg? ==> item.rn < 32
    ensures |c'.x| == 32
  {
    match item
    case Hang => SetX(c, 10, cfg.hartid)
    case Csr64(csr, v) => CsrWrite(cfg, SetX(c, 1, v), csr, v)
    case Csr12(csr, v) => CsrWrite(cfg, SetX(c, 1, Imm12(v)), csr, Imm12(v))
    case Reg(rn, v) => SetX(c, rn, v)
    case Fp(_, _) => SetX(c, 1, ROM_BASE + 4 * d)
    case Io64(a, v) => SetX(SetX(c, 1, a), 2, v).(io := c.io + [(a, v)])
    case SaveX1 => CsrWrite(cfg, c, 0x7b2, c.x[1])
    case LoadX1 => SetX(c, 1, CsrOf(c, 0x7b2))
  }

  predicate Writable(csr: nat, fs: nat)
  {
    && csr < 0x1000 && csr / 0x400 % 4 != 3 && (Tracked(csr) || Accepted(csr))
    && (csr in {0x001, 0x002, 0x003} ==> fs != 0)
  }

  /** The item can run on a hart whose FS field is fs. */
  predicate ItemOk(cfg: Cfg, item: Item, fs: nat)
  {
    match item
    case Hang => cfg.hartid == 0
    case Csr64(csr, v) => Writable(csr, fs) && v < W64
    case Csr12(csr, v) => Writable(csr, fs)
    case Reg(rn, v) => 0 < rn < 32 && v < W64
    case Fp(rn, v) => rn < 32 && fs != 0 && v < W64
    case Io64(a, v) => a % 8 == 0 && ROM_BASE + 4 * ROM_WORDS <= a < W64 && v < W64
    case SaveX1 => true
    case LoadX1 => true
  }

  predicate InDebug(c: Core) { ValidCore(c) && c.priv == 3 && c.debug && CsrOf(c, 0x7b2) < W64 }

  // ----- running one item

  lemma Fetched(p: nat)
    ensures (ROM_BASE + 4 * p) % 4 == 0 && (ROM_BASE + 4 * p - ROM_BASE) / 4 == p
  {
  }

  lemma OneStep(cfg: Cfg, rom: seq<nat>, pc: nat, c: Core, pc': nat, c': Core)
    requires ValidCore(c) && cfg.physSize > 0 && Step(cfg, rom, pc, c) == Some((pc', c')) && ValidCore(c')
    ensures Run(cfg, rom, pc, c, 1) == Some((pc', c'))
  {
    hide Step, ValidCore;
    assert Run(cfg, rom, pc', c', 0) == Some((pc', c'));
  }

  /** auipc and addi leave the address of the constant. */
  lemma PairRuns(cfg: Cfg, rom: seq<nat>, rn: nat, p: nat, off: nat, c: Core)
    requires ValidCore(c) && cfg.physSize > 0 && 0 < rn < 32 && p + 1 < |rom| && |rom| <= ROM_WORDS && off < 0x1_0000
    requires rom[p] == CreateAuipc(rn, off) && rom[p + 1] == CreateAddi(rn, off)
    ensures ValidCore(SetX(c, rn, ROM_BASE + 4 * p + off))
    ensures Run(cfg, rom, ROM_BASE + 4 * p, c, 2) == Some((ROM_BASE + 4 * (p + 2), SetX(c, rn, ROM_BASE + 4 * p + off)))
  {
    hide Opcode, Rd, Rs1, Rs2, Top12, Funct3, UpperImm, CreateAuipc, CreateAddi, System, Run, Load64, StoreImm,
         BranchImm, Sext12;
    var pc := ROM_BASE + 4 * p;
    Fetched(p);
    Fetched(p + 1);
    PcRelative(pc, off, rn);
    var a := (pc + UpperImm(rom[p])) % W64;
    var c1 := SetX(c, rn, a);
    OneStep(cfg, rom, pc, c, pc + 4, c1);
    var c2 := SetX(c, rn, pc + off);
    assert SetX(c1, rn, pc + off) == c2 by { assert c1.x[rn := pc + off] == c.x[rn := pc + off]; }
    OneStep(cfg, rom, pc + 4, c1, pc + 8, c2);
    RunRun(cfg, rom, pc, c, 1, 1, pc + 4, c1);
  }

  lemma LdFields(rd: nat, rs1: nat)
    requires rd < 32 && rs1 < 32
    ensures var w := CreateLd(rd, rs1);
            Opcode(w) == 0x03 && Funct3(w) == 3 && Rd(w) == rd && Rs1(w) == rs1 && Top12(w) == 0
    ensures var w := CreateFld(rd, rs1);
            Opcode(w) == 0x07 && Funct3(w) == 3 && Rd(w) == rd && Rs1(w) == rs1 && Top12(w) == 0
  {
    hide Opcode, Rd, Rs1, Top12, Funct3;
    Fields(0x03, rd, 3, rs1, 0);
    assert CreateLd(rd, rs1) == IType(0x03, rd, 3, rs1, 0);
    Fields(0x07, rd, 3, rs1, 0);
    assert CreateFld(rd, rs1) == IType(0x07, rd, 3, rs1, 0);
  }

  lemma CsrFields(r: nat, csr: nat)
    requires r < 32 && csr < 0x1000
    ensures var w := CreateCsrrw(r, csr);
            Opcode(w) == 0x73 && Funct3(w) == 1 && Rd(w) == 0 && Rs1(w) == r && Top12(w) == csr
    ensures var w := CreateCsrrs(r, csr);
            Opcode(w) == 0x73 && Funct3(w) == 2 && Rd(w) == r && Rs1(w) == 0 && Top12(w) == csr
  {
    hide Opcode, Rd, Rs1, Top12, Funct3;
    Fields(0x73, 0, 1, r, csr);
    assert CreateCsrrw(r, csr) == IType(0x73, 0, 1, r, csr);
    Fields(0x73, r, 2, 0, csr);
    assert CreateCsrrs(r, csr) == IType(0x73, r, 2, 0, csr);
  }

  lemma SetiFields(rd: nat, v: nat)
    requires rd < 32 && v < 0x1000
    ensures var w := CreateSeti(rd, v);
            Opcode(w) == 0x13 && Funct3(w) == 0 && Rd(w) == rd && Rs1(w) == 0 && Top12(w) == v
  {
    hide Opcode, Rd, Rs1, Top12, Funct3;
    Fields(0x13, rd, 0, 0, v);
    assert CreateSeti(rd, v) == IType(0x13, rd, 0, 0, v);
  }

  lemma SdFields(rs1: nat, rs2: nat)
    requires rs1 < 32 && rs2 < 32
    ensures var w := CreateSd(rs1, rs2); Opcode(w) == 0x23 && Funct3(w) == 3 && Rs1(w) == rs1 && StoreImm(w) == 0
    ensures Rs2(CreateSd(rs1, rs2)) == rs2
  {
    hide Opcode, Rd, Rs1, Rs2, Top12, Funct3;
    Fields(0x23, 0, 3, rs1, rs2);
    assert CreateSd(rs1, rs2) == IType(0x23, 0, 3, rs1, rs2);
    Rs2InTop(CreateSd(rs1, rs2));
  }

  lemma Rs2InTop(w: nat)
    ensures Rs2(w) == Top12(w) % 32
  {
  }

  lemma Registers(c: Core)
    requires ValidCore(c)
    ensures |c.x| == 32 && c.x[1] < W64 && c.x[2] < W64 && forall io :: ValidCore(c.(io := io))
  {
  }

  lemma Stored(rom: seq<nat>, pc: nat, c: Core)
    requires |c.x| == 32 && c.x[1] % 8 == 0 && ROM_BASE + 4 * |rom| <= c.x[1]
    ensures Store64(rom, pc, c, c.x[1], c.x[2]) == Some((pc + 4, c.(io := c.io + [(c.x[1], c.x[2])])))
  {
  }

  /** The store of x2 to the address in x1. */
  lemma SdRuns(cfg: Cfg, rom: seq<nat>, p: nat, c: Core)
    requires ValidCore(c) && cfg.physSize > 0 && p < |rom| <= ROM_WORDS && rom[p] == CreateSd(1, 2)
    requires c.x[1] % 8 == 0 && ROM_BASE + 4 * |rom| <= c.x[1]
    ensures var c' := c.(io := c.io + [(c.x[1], c.x[2])]);
            ValidCore(c') && Run(cfg, rom, ROM_BASE + 4 * p, c, 1) == Some((ROM_BASE + 4 * p + 4, c'))
  {
    hide CreateSd, Run, Opcode, Rd, Rs1, Rs2, Top12, Funct3, System, StoreImm, Load64, Store64, UpperImm, BranchImm,
         Sext12,
         ValidCore, SetX;
    SdFields(1, 2);
    Fetched(p);
    Registers(c);
    assert (c.x[1] + 0) % W64 == c.x[1];
    assert Store64(rom, ROM_BASE + 4 * p, c, c.x[1], c.x[2]) ==
           Some((ROM_BASE + 4 * p + 4, c.(io := c.io + [(c.x[1], c.x[2])]))) by { Stored(rom, ROM_BASE + 4 * p, c); }
    OneStep(cfg, rom, ROM_BASE + 4 * p, c, ROM_BASE + 4 * p + 4, c.(io := c.io + [(c.x[1], c.x[2])]));
  }

  lemma HalvesLoad(rom: seq<nat>, d: nat, v: nat)
    requires d % 2 == 0 && d + 2 <= |rom| && rom[d..d + 2] == Halves(v) && v < W64
    ensures Load64(rom, ROM_BASE + 4 * d) == Some(v)
  {
    Fetched(d);
    assert rom[d] == rom[d..d + 2][0] && rom[d + 1] == rom[d..d + 2][1];
    assert (ROM_BASE + 4 * d) % 8 == 0;
    assert v / W32 < W32;
  }

  /** The three instructions that load a constant. */
  lemma LoadRuns(cfg: Cfg, rom: seq<nat>, rn: nat, p: nat, d: nat, c: Core, v: nat)
    requires ValidCore(c) && cfg.physSize > 0 && 0 < rn < 32 && |rom| == ROM_WORDS
    requires p + 3 <= d && d % 2 == 0 && d + 2 <= |rom|
    requires rom[p..p + 3] == LoadWords(rn, p, d) && rom[d..d + 2] == Halves(v) && v < W64
    ensures ValidCore(SetX(c, rn, v))
    ensures Run(cfg, rom, ROM_BASE + 4 * p, c, 3) == Some((ROM_BASE + 4 * (p + 3), SetX(c, rn, v)))
  {
    hide Opcode, Rd, Rs1, Rs2, Top12, Funct3, CreateAuipc, CreateAddi, CreateLd, System, Run, Halves, Load64, UpperImm,
         StoreImm, BranchImm;
    var pc, off := ROM_BASE + 4 * p, 4 * (d - p);
    OffForward(p, d);
    assert rom[p] == rom[p..p + 3][0] && rom[p + 1] == rom[p..p + 3][1] && rom[p + 2] == rom[p..p + 3][2];
    PairRuns(cfg, rom, rn, p, off, c);
    var c1 := SetX(c, rn, pc + off);
    LdFields(rn, rn);
    Fetched(p + 2);
    HalvesLoad(rom, d, v);
    var c2 := SetX(c, rn, v);
    assert SetX(c1, rn, v) == c2 by { assert c1.x[rn := v] == c.x[rn := v]; }
    OneStep(cfg, rom, pc + 8, c1, pc + 12, c2);
    RunRun(cfg, rom, pc, c, 2, 1, pc + 8, c1);
  }

  lemma CanWrite(c: Core, csr: nat)
    requires c.priv == 3 && c.debug && Writable(csr, c.fs)
    ensures Readable(c, csr, true) && csr < 0x1000
  {
    hide Tracked, Accepted;
    assert csr / 0x100 % 4 <= 3;
  }

  lemma CsrrwRuns(cfg: Cfg, rom: seq<nat>, p: nat, csr: nat, c: Core)
    requires InDebug(c) && cfg.physSize > 0 && p < |rom| && rom[p] == CreateCsrrw(1, csr) && Writable(csr, c.fs)
    ensures ValidCore(CsrWrite(cfg, c, csr, c.x[1]))
    ensures Run(cfg, rom, ROM_BASE + 4 * p, c, 1) == Some((ROM_BASE + 4 * (p + 1), CsrWrite(cfg, c, csr, c.x[1])))
  {
    hide Opcode, Rd, Rs1, Rs2, Top12, Funct3, CreateCsrrw, Run, Legal, Tracked, Readable, Writable, Load64, StoreImm,
         BranchImm, Sext12, UpperImm;
    CanWrite(c, csr);
    CsrFields(1, csr);
    Fetched(p);
    var pc := ROM_BASE + 4 * p;
    OneStep(cfg, rom, pc, c, pc + 4, CsrWrite(cfg, c, csr, c.x[1]));
  }

  /** The words of the item are in the ROM, its data too. */
  predicate Laid(rom: seq<nat>, item: Item, p: nat, d: nat)
  {
    && |rom| == ROM_WORDS && p + 8 <= d && d % 2 == 0 && d + 4 <= |rom|
    && rom[p..p + CodeLen(item)] == Code(item, p, d)
    && rom[d..d + DataLen(item)] == Data(item)
  }

  /** An item that is laid out does what Effect says, and falls through. */
  lemma ItemRuns(cfg: Cfg, rom: seq<nat>, item: Item, p: nat, d: nat, c: Core)
    requires InDebug(c) && cfg.physSize > 0 && Laid(rom, item, p, d) && ItemOk(cfg, item, c.fs)
    ensures ValidCore(Effect(cfg, item, d, c))
    ensures Run(cfg, rom, ROM_BASE + 4 * p, c, Steps(item)) ==
              Some((ROM_BASE + 4 * (p + CodeLen(item)), Effect(cfg, item, d, c)))
  {
    hide Run, Laid, CsrWrite, Writable, ValidCore, Imm12;
    assert |c.x| == 32 by { CoreLen(c); }
    match item
    case Hang => HangRuns(cfg, rom, p, d, c);
    case Csr64(csr, v) => Csr64Runs(cfg, rom, csr, v, p, d, c);
    case Csr12(csr, v) => Csr12Runs(cfg, rom, csr, v, p, d, c);
    case Reg(rn, v) => RegRuns(cfg, rom, rn, v, p, d, c);
    case Fp(rn, v) => FpRuns(cfg, rom, rn, v, p, d, c);
    case Io64(a, v) => Io64Runs(cfg, rom, a, v, p, d, c);
    case SaveX1 => SaveX1Runs(cfg, rom, p, d, c);
    case LoadX1 => LoadX1Runs(cfg, rom, p, d, c);
  }

  lemma CoreLen(c: Core)
    requires ValidCore(c)
    ensures |c.x| == 32
  {
  }

  lemma RegRuns(cfg: Cfg, rom: seq<nat>, rn: nat, v: nat, p: nat, d: nat, c: Core)
    requires InDebug(c) && cfg.physSize > 0 && Laid(rom, Reg(rn, v), p, d) && 0 < rn < 32 && v < W64
    ensures ValidCore(SetX(c, rn, v))
    ensures Run(cfg, rom, ROM_BASE + 4 * p, c, 3) == Some((ROM_BASE + 4 * (p + 3), SetX(c, rn, v)))
  {
    hide Run;
    LoadRuns(cfg, rom, rn, p, d, c, v);
  }

  lemma SaveX1Runs(cfg: Cfg, rom: seq<nat>, p: nat, d: nat, c: Core)
    requires InDebug(c) && cfg.physSize > 0 && Laid(rom, SaveX1, p, d)
    ensures var c' := CsrWrite(cfg, c, 0x7b2, c.x[1]);
            ValidCore(c') && Run(cfg, rom, ROM_BASE + 4 * p, c, 1) == Some((ROM_BASE + 4 * (p + 1), c'))
  {
    hide Run, CsrWrite;
    assert rom[p] == rom[p..p + 1][0];
    CsrrwRuns(cfg, rom, p, 0x7b2, c);
  }

  /** csrr a0, mhartid and beqz a0, 1f */
  lemma HangFields()
    ensures var w := 0xf140_2573; Opcode(w) == 0x73 && Funct3(w) == 2 && Rd(w) == 10 && Rs1(w) == 0 && Top12(w) == 0xf14
    ensures var b := 0x0005_0663;
            Opcode(b) == 0x63 && Funct3(b) == 0 && Rs1(b) == 10 && Rs2(b) == 0 && BranchImm(b) == 12
  {
  }

  lemma HangRuns(cfg: Cfg, rom: seq<nat>, p: nat, d: nat, c: Core)
    requires InDebug(c) && cfg.physSize > 0 && Laid(rom, Hang, p, d) && cfg.hartid == 0
    ensures ValidCore(SetX(c, 10, 0))
    ensures Run(cfg, rom, ROM_BASE + 4 * p, c, 2) == Some((ROM_BASE + 4 * (p + 4), SetX(c, 10, 0)))
  {
    hide Run, Opcode, Rd, Rs1, Rs2, Top12, Funct3, BranchImm, Sext12, UpperImm, StoreImm, Load64, Tracked, Accepted;
    var pc := ROM_BASE + 4 * p;
    assert rom[p] == rom[p..p + 4][0] && rom[p + 1] == rom[p..p + 4][1];
    Fetched(p);
    Fetched(p + 1);
    HangFields();
    var c1 := SetX(c, 10, 0);
    OneStep(cfg, rom, pc, c, pc + 4, c1);
    OneStep(cfg, rom, pc + 4, c1, pc + 16, c1);
    RunRun(cfg, rom, pc, c, 1, 1, pc + 4, c1);
  }

  lemma Csr64Runs(cfg: Cfg, rom: seq<nat>, csr: nat, v: nat, p: nat, d: nat, c: Core)
    requires InDebug(c) && cfg.physSize > 0 && Laid(rom, Csr64(csr, v), p, d) && Writable(csr, c.fs) && v < W64
    ensures var c' := CsrWrite(cfg, SetX(c, 1, v), csr, v);
            ValidCore(c') && Run(cfg, rom, ROM_BASE + 4 * p, c, 4) == Some((ROM_BASE + 4 * (p + 4), c'))
  {
    hide CreateCsrrw, Run, CsrWrite, LoadWords, Writable, Halves;
    var words := rom[p..p + 4];
    assert words == LoadWords(1, p, d) + [CreateCsrrw(1, csr)];
    LoadWordsLen(1, p, d);
    assert rom[p..p + 3] == words[..3] && rom[p + 3] == words[3];
    LoadRuns(cfg, rom, 1, p, d, c, v);
    var c1 := SetX(c, 1, v);
    CsrrwRuns(cfg, rom, p + 3, csr, c1);
    RunRun(cfg, rom, ROM_BASE + 4 * p, c, 3, 1, ROM_BASE + 4 * (p + 3), c1);
  }

  lemma LoadWordsLen(rn: nat, p: nat, d: nat)
    ensures |LoadWords(rn, p, d)| == 3
  {
  }

  lemma Csr12Runs(cfg: Cfg, rom: seq<nat>, csr: nat, v: nat, p: nat, d: nat, c: Core)
    requires InDebug(c) && cfg.physSize > 0 && Laid(rom, Csr12(csr, v), p, d) && Writable(csr, c.fs)
    ensures var c' := CsrWrite(cfg, SetX(c, 1, Imm12(v)), csr, Imm12(v));
            ValidCore(c') && Run(cfg, rom, ROM_BASE + 4 * p, c, 2) == Some((ROM_BASE + 4 * (p + 2), c'))
  {
    hide CreateCsrrw, CreateSeti, Run, CsrWrite, Writable, Opcode, Rd, Rs1, Rs2, Top12, Funct3, System, Load64,
         StoreImm, BranchImm, UpperImm;
    var pc := ROM_BASE + 4 * p;
    assert rom[p] == rom[p..p + 2][0] && rom[p + 1] == rom[p..p + 2][1];
    SetiFields(1, v % 0x1000);
    Fetched(p);
    var c1 := SetX(c, 1, Imm12(v));
    OneStep(cfg, rom, pc, c, pc + 4, c1);
    CsrrwRuns(cfg, rom, p + 1, csr, c1);
    RunRun(cfg, rom, pc, c, 1, 1, pc + 4, c1);
  }

  lemma FpRuns(cfg: Cfg, rom: seq<nat>, rn: nat, v: nat, p: nat, d: nat, c: Core)
    requires InDebug(c) && cfg.physSize > 0 && Laid(rom, Fp(rn, v), p, d) && rn < 32 && c.fs != 0 && v < W64
    ensures var c' := SetX(c, 1, ROM_BASE + 4 * d);
            ValidCore(c') && Run(cfg, rom, ROM_BASE + 4 * p, c, 3) == Some((ROM_BASE + 4 * (p + 3), c'))
  {
    hide CreateAuipc, CreateAddi, CreateFld, Run, Opcode, Rd, Rs1, Rs2, Top12, Funct3, System, Halves, Load64, UpperImm,
         StoreImm, BranchImm;
    var pc, off := ROM_BASE + 4 * p, 4 * (d - p);
    OffForward(p, d);
    assert rom[p] == rom[p..p + 3][0] && rom[p + 1] == rom[p..p + 3][1] && rom[p + 2] == rom[p..p + 3][2];
    PairRuns(cfg, rom, 1, p, off, c);
    var c1 := SetX(c, 1, pc + off);
    LdFields(rn, 1);
    Fetched(p + 2);
    HalvesLoad(rom, d, v);
    OneStep(cfg, rom, pc + 8, c1, pc + 12, c1);
    RunRun(cfg, rom, pc, c, 2, 1, pc + 8, c1);
  }

  lemma Io64Laid(rom: seq<nat>, a: nat, v: nat, p: nat, d: nat)
    requires Laid(rom, Io64(a, v), p, d)
    ensures |rom| == ROM_WORDS && p + 7 <= d && d + 4 <= |rom| && d % 2 == 0
    ensures rom[p..p + 3] == LoadWords(1, p, d) && rom[p + 3..p + 6] == LoadWords(2, p + 3, d + 2)
    ensures rom[p + 6] == CreateSd(1, 2) && rom[d..d + 2] == Halves(a) && rom[d + 2..d + 4] == Halves(v)
  {
    hide CreateSd, Halves, LoadWords;
    var words, data := rom[p..p + 7], rom[d..d + 4];
    LoadWordsLen(1, p, d);
    LoadWordsLen(2, p + 3, d + 2);
    HalvesLen(a);
    HalvesLen(v);
    SubSlice(rom, p, 7, 0, 3);
    SubSlice(rom, p, 7, 3, 6);
    assert rom[p + 6] == words[6];
    SubSlice(rom, d, 4, 0, 2);
    SubSlice(rom, d, 4, 2, 4);
    assert words[0..3] == LoadWords(1, p, d) && words[3..6] == LoadWords(2, p + 3, d + 2);
    assert data[0..2] == Halves(a) && data[2..4] == Halves(v);
  }

  lemma Io64Runs(cfg: Cfg, rom: seq<nat>, a: nat, v: nat, p: nat, d: nat, c: Core)
    requires InDebug(c) && cfg.physSize > 0 && Laid(rom, Io64(a, v), p, d) && ItemOk(cfg, Io64(a, v), c.fs)
    ensures var c' := SetX(SetX(c, 1, a), 2, v).(io := c.io + [(a, v)]);
            ValidCore(c') && Run(cfg, rom, ROM_BASE + 4 * p, c, 7) == Some((ROM_BASE + 4 * (p + 7), c'))
  {
    hide CreateSd, Run, Step, Halves, LoadWords, Laid, SetX, ValidCore;
    var pc := ROM_BASE + 4 * p;
    Io64Laid(rom, a, v, p, d);
    TwoSet(c, a, v);
    LoadRuns(cfg, rom, 1, p, d, c, a);
    var c1 := SetX(c, 1, a);
    LoadRuns(cfg, rom, 2, p + 3, d + 2, c1, v);
    var c2 := SetX(c1, 2, v);
    SdRuns(cfg, rom, p + 6, c2);
    RunRun(cfg, rom, pc + 12, c1, 3, 1, pc + 24, c2);
    RunRun(cfg, rom, pc, c, 3, 4, pc + 12, c1);
  }

  lemma TwoSet(c: Core, a: nat, v: nat)
    requires ValidCore(c)
    ensures |c.x| == 32 && |SetX(c, 1, a).x| == 32
    ensures var c2 := SetX(SetX(c, 1, a), 2, v); |c2.x| == 32 && c2.x[1] == a && c2.x[2] == v && c2.io == c.io
  {
  }

  lemma SubSlice(s: seq<nat>, p: nat, n: nat, i: nat, j: nat)
    requires i <= j <= n && p + n <= |s|
    ensures s[p..p + n][i..j] == s[p + i..p + j]
  {
    var t := s[p..p + n];
    var u, v := t[i..j], s[p + i..p + j];
    forall k | 0 <= k < |u|
      ensures u[k] == v[k]
    {
      assert u[k] == t[i + k] == s[p + (i + k)];
    }
  }

  lemma HalvesLen(v: nat)
    ensures |Halves(v)| == 2
  {
  }

  lemma LoadX1Runs(cfg: Cfg, rom: seq<nat>, p: nat, d: nat, c: Core)
    requires InDebug(c) && cfg.physSize > 0 && Laid(rom, LoadX1, p, d)
    ensures var c' := SetX(c, 1, CsrOf(c, 0x7b2));
            ValidCore(c') && Run(cfg, rom, ROM_BASE + 4 * p, c, 1) == Some((ROM_BASE + 4 * (p + 1), c'))
  {
    hide CreateCsrrs, Run, Opcode, Rd, Rs1, Rs2, Top12, Funct3, Load64, StoreImm, BranchImm, Sext12, UpperImm;
    assert rom[p] == rom[p..p + 1][0];
    CsrFields(1, 0x7b2);
    Fetched(p);
    OneStep(cfg, rom, ROM_BASE + 4 * p, c, ROM_BASE + 4 * (p + 1), SetX(c, 1, CsrOf(c, 0x7b2)));
  }
}
