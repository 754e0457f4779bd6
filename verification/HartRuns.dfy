/** Runs of the hart that end in a wrong cache hit: protection finer than a page,
    for data and for code, and a change of MPP under MPRV, by mret and by a trap. */
module HartRuns {
  import opened Bits
  import opened Pmp
  import opened Paging
  import opened Tlb
  import opened HartPort

  /** Without translation only the PMP and the memory map matter. */
  lemma BareReference(v: View, env: Env, mem: Memory, access: Access, vaddr: nat, size: nat)
    requires ValidView(v) && IsSize(size) && vaddr % size == 0 && !Translated(v, access)
    ensures Reference(v, env, mem, access, vaddr, size) == Checked(v, env, access, vaddr, size)
  {
    hide P, ValidRegs, Checked, SatpMode, Walk, Canonical;
    assert vaddr == PG * (vaddr / PG) + vaddr % PG;
  }

  // ----- protection finer than a page

  /** The bytes of a register that holds one byte. */
  lemma OneByte(b: nat)
    requires b < 256
    ensures ByteOf(b, 0) == b
    ensures forall i: nat :: 0 < i < 8 ==> ByteOf(b, i) == 0
    ensures forall i: nat :: i < 8 ==> ByteOf(0, i) == 0
  {
    hide P, Shr, Low;
    assert P(8) == 256 by { PZero(); PStep(3); PStep(4); PStep(5); PStep(6); PStep(7); }
    ShrNone(b);
    Small(b, 8);
    forall i: nat | 0 < i < 8
      ensures ByteOf(b, i) == 0
    {
      PMono(8, 8 * i);
      Small(b, 8 * i);
      Small(0, 8);
    }
    forall i: nat | i < 8
      ensures ByteOf(0, i) == 0
    {
      ByteOfZero(i);
    }
  }

  /** The two CSR writes after reset that switch on entry 0 and no other. */
  lemma OneEntry(r1: Regs, r2: Regs, a: nat, cfg: nat)
    requires a < 0x40_0000_0000 && cfg < 256 && ClearReserved(cfg) == cfg
    requires Written(Reset(), WriteAddr(0, a), r1) && Written(r1, WriteCfg(0, cfg), r2)
    ensures |r2.addr| == 16 && r2.addr[0] == a && CfgByte(r2, 0) == cfg
    ensures forall i :: 0 < i < 16 ==> CfgByte(r2, i) == 0
  {
    hide P, ByteOf, Low, ClearReserved, NewByte;
    OneByte(cfg);
    NewFromZero(cfg);
    NewFromZero(0);
    WordPowers();
    Small(a, 38);
  }

  lemma NewFromZero(val: nat)
    requires val < 256
    ensures NewByte(0, val) == ClearReserved(val) && ClearReserved(0) == 0
  {
  }

  /** The two CSR writes that switch the four-byte entry on. */
  lemma FineWrites(r1: Regs, r2: Regs)
    requires Written(Reset(), WriteAddr(0, 0x400), r1) && Written(r1, WriteCfg(0, 0x17), r2)
    ensures IsFine(r2)
  {
    hide Written, CfgByte;
    OneEntry(r1, r2, 0x400, 0x17);
  }

  /** A user-mode hart with that entry and empty caches. */
  method FineHart(env: Env, mem: Memory) returns (h: Hart)
    requires env.physLen >= 16
    ensures fresh(h) && fresh(h.tlbRead) && fresh(h.tlbWrite) && fresh(h.tlbCode)
    ensures h.Valid() && !h.stale && h.Empty() && h.env == env && h.mem == mem
    ensures IsFine(h.regs) && h.priv == 0 && !h.mstatus.mprv && h.satp == 0
  {
    hide Written, IsFine, ValidView, Coherent, Decoded;
    h := new Hart(env, mem);
    h.WritePmpAddr(0, 0x400);
    ghost var r1 := h.regs;
    h.WritePmpCfg(0, 0x17);
    FineWrites(r1, h.regs);
    h.HandleMret();
  }

  lemma FineReference(v: View, env: Env, mem: Memory, access: Access, size: nat)
    requires ValidView(v) && IsFine(v.regs) && v.dataPriv == 0 && v.codePriv == 0 && v.satp == 0
    requires env.physLen >= 16 && env.region(1) == Ram && (size == 2 || size == 4)
    ensures Reference(v, env, mem, access, 0x1000, size) == InRam(0x1000)
    ensures Reference(v, env, mem, access, 0x1004, size) == AccessFaulted
    ensures Caches(v, env, access, 0x1000)
  {
    hide P, ValidView, Reference, Allowed, SatpMode, IsFine, PageGranular;
    Hart.ZeroSatp();
    assert |v.regs.addr| == 16 by { Hart.ViewAddr(v); }
    BareReference(v, env, mem, access, 0x1000, size);
    BareReference(v, env, mem, access, 0x1004, size);
    FinePmpSplitsPage(v.regs, env.physLen, PermOf(access), size);
  }

  /** User mode may load at 0x1000 and not at 0x1004. After the first load the
      second one hits: the reference faults, the hart reads. */
  method FineReadRun(env: Env, mem: Memory) returns (h: Hart, first: Outcome, second: Outcome)
    requires env.physLen >= 16 && env.region(1) == Ram
    ensures fresh(h) && h.Valid() && !h.stale && h.env == env
    ensures first == InRam(0x1000) && second == InRam(0x1004)
    ensures Reference(h.TheView(), env, h.mem, Read, 0x1004, 4) == AccessFaulted
  {
    hide IsFine, ValidView, Coherent, Decoded, Reference, Allowed, PageGranular, Caches, Filled;
    h := FineHart(env, mem);
    ghost var v := h.TheView();
    FineReference(v, env, mem, Read, 4);
    var val;
    ghost var t := h.tlbRead[..];
    assert !Hit(t, 0x1000, 4) by { EmptyMisses(h, Read, 0x1000, 4); }
    first, val := h.TargetRead(0x1000, 4);
    FilledHits(h.tlbRead[..], 0x1000, 0x1000, 0x1004, 4);
    second, val := h.TargetRead(0x1004, 4);
  }

  lemma EmptyMisses(h: Hart, access: Access, vaddr: nat, size: nat)
    requires h.Arrays() && h.Empty() && IsSize(size)
    ensures !Hit(h.TlbOf(access)[..], vaddr, size)
  {
    if vaddr % size == 0 {
      Hart.NotInvalid(vaddr, size);
    }
  }

  /** The same for two fetches: the test of the whole page passes although most of
      the page may not be executed. */
  method FineFetchRun(env: Env, mem: Memory) returns (h: Hart, first: Outcome, second: Outcome)
    requires env.physLen >= 16 && env.region(1) == Ram
    ensures fresh(h) && h.Valid() && !h.stale && h.env == env
    ensures first == InRam(0x1000) && second == InRam(0x1004)
    ensures Reference(h.TheView(), env, h.mem, Code, 0x1004, 2) == AccessFaulted
  {
    hide IsFine, ValidView, Coherent, Decoded, Reference, Allowed, PageGranular, Caches, Filled;
    h := FineHart(env, mem);
    ghost var v := h.TheView();
    FineReference(v, env, mem, Code, 2);
    var insn;
    ghost var t := h.tlbCode[..];
    assert !Hit(t, 0x1000, 2) by { EmptyMisses(h, Code, 0x1000, 2); }
    first, insn := h.FetchU16(0x1000);
    FilledHits(h.tlbCode[..], 0x1000, 0x1000, 0x1004, 2);
    second, insn := h.FetchU16(0x1004);
  }

  // ----- MPP under MPRV

  lemma NoEntry(paddr: nat, size: nat)
    ensures |Reset().addr| == 16
    ensures forall i: nat :: !Matches(Reset(), i, paddr, size)
  {
    hide ByteOf;
    forall i: nat | i < 16
      ensures !Matches(Reset(), i, paddr, size)
    {
      ByteOfZero(if i < 8 then i else i - 8);
    }
  }

  /** With no PMP entry, machine mode may read RAM and user mode may not. */
  lemma NoEntryReference(v: View, env: Env, mem: Memory, vaddr: nat)
    requires ValidView(v) && v.regs == Reset() && v.satp == 0
    requires vaddr < P(env.physLen) && env.region(vaddr / PG) == Ram
    ensures Reference(v, env, mem, Read, vaddr, 1) == if v.dataPriv == 3 then InRam(vaddr) else AccessFaulted
  {
    hide P, ValidView, Reference, Matches, Reset, SatpMode;
    Hart.ZeroSatp();
    BareReference(v, env, mem, Read, vaddr, 1);
    NoEntry(vaddr, 1);
  }

  /** Machine mode reads with MPRV set and MPP machine mode. mret from machine mode
      to machine mode makes MPP user mode and flushes nothing: the next read hits
      although user mode may not read. For every readable address. */
  method MretRun(env: Env, mem: Memory, vaddr: nat) returns (h: Hart, first: Outcome, second: Outcome)
    requires 12 <= env.physLen <= 64 && vaddr < P(env.physLen) && env.region(vaddr / PG) == Ram
    ensures fresh(h) && h.Valid() && h.stale && h.env == env
    ensures first == InRam(vaddr) && second == InRam(vaddr)
    ensures Reference(h.TheView(), env, h.mem, Read, vaddr, 1) == AccessFaulted
  {
    hide ValidView, Coherent, Decoded, Reference, Allowed, PageGranular, Filled, P;
    Word64();
    PMono(env.physLen, 64);
    h := new Hart(env, mem);
    h.SetMstatus(h.mstatus.(mprv := true, mpp := 3));
    NoEntryReference(h.TheView(), env, mem, vaddr);
    var val;
    ghost var t := h.tlbRead[..];
    assert !Hit(t, vaddr, 1) by { EmptyMisses(h, Read, vaddr, 1); }
    first, val := h.TargetRead(vaddr, 1);
    FilledHits(h.tlbRead[..], vaddr, vaddr, vaddr, 1);
    h.HandleMret();
    NoEntryReference(h.TheView(), env, mem, vaddr);
    second, val := h.TargetRead(vaddr, 1);
  }

  /** The same by a trap, for every hart: machine mode, MPRV set, another MPP, and a
      page that translation moves elsewhere. The trap makes MPP machine mode and
      flushes nothing, so the next read still goes where MPP used to lead. */
  method TrapRun(h: Hart, vaddr: nat, cause: nat, ghost pa: nat) returns (first: Outcome, second: Outcome)
    requires h.Valid() && h.priv == 3 && h.mstatus.mprv && h.mstatus.mpp != 3 && vaddr < WORD && pa < WORD && cause < 64
    requires Reference(h.TheView(), h.env, h.mem, Read, vaddr, 1) == InRam(pa) && pa != vaddr
    requires !Hit(h.tlbRead[..], vaddr, 1)
    modifies h, h.tlbRead, h.tlbWrite, h.tlbCode
    ensures h.Valid() && h.stale && h.priv == 3
    ensures first == InRam(pa) && second == InRam(pa)
    ensures Reference(h.TheView(), h.env, h.mem, Read, vaddr, 1) != second
  {
    hide ValidView, Coherent, Decoded, Reference, Allowed, PageGranular, Filled, P, TrapVector;
    var val;
    first, val := h.TargetRead(vaddr, 1);
    FilledHits(h.tlbRead[..], vaddr, pa, vaddr, 1);
    h.RaiseException(cause, false, 0);
    MachineReference(h.TheView(), h.env, h.mem, vaddr);
    second, val := h.TargetRead(vaddr, 1);
  }

  lemma MachineReference(v: View, env: Env, mem: Memory, vaddr: nat)
    requires ValidView(v) && v.dataPriv == 3
    ensures var r := Reference(v, env, mem, Read, vaddr, 1); r.InRam? ==> r.pa == vaddr
  {
    hide ValidView, Reference, Allowed;
    BareReference(v, env, mem, Read, vaddr, 1);
  }

  // ----- a hart that TrapRun applies to

  /** Entry 0 opens the whole physical address space to every access. */
  ghost predicate IsOpen(r: Regs)
  {
    |r.addr| == 16 && CfgByte(r, 0) == 0x1F && r.addr[0] == P(PMPADDR_BITS) - 1
  }

  lemma OpenWrites(r1: Regs, r2: Regs)
    requires Written(Reset(), WriteAddr(0, P(PMPADDR_BITS) - 1), r1) && Written(r1, WriteCfg(0, 0x1F), r2)
    ensures IsOpen(r2)
  {
    hide P, Written, CfgByte;
    WordPowers();
    OneEntry(r1, r2, P(PMPADDR_BITS) - 1, 0x1F);
  }

  lemma OpenAllowed(r: Regs, physLen: nat, priv: nat, perm: Perm, paddr: nat, size: nat)
    requires IsOpen(r) && physLen <= 41 && paddr < P(physLen) && size > 0
    ensures Allowed(r, physLen, priv, perm, paddr, size)
  {
    hide P, CfgByte, RangeOf, IsOn;
    OpenRange(r);
    PMono(physLen, 41);
    assert Matches(r, 0, paddr, size) && IsLowest(r, 0, paddr, size);
    assert Lets(CfgByte(r, 0), priv, perm);
  }

  lemma OpenRange(r: Regs)
    requires IsOpen(r)
    ensures IsOn(r, 0) && RangeOf(r, 0) == Range(0, P(41))
  {
    hide P, NapotRange, CfgByte, Shl, TrailingOnes;
    NapotRegion(0, PMPADDR_BITS);
    ShlNone(0, PMPADDR_BITS + 1);
  }

  /** A user read-write-execute leaf for the gigabyte at 0x8000_0000. */
  const LEAF: nat := 0x2000_00DF

  lemma LeafFacts(v: View)
    requires v.dataPriv == 0
    ensures LEAF % 2 == 1 && Xwr(LEAF) == 7 && LeafPermits(v, Read, 0, LEAF, 2)
    ensures LeafBase(LEAF, 1, 2) == 0x8000_1000
    ensures PteAddr(0x2000, 1, 2) == 0x2000
  {
    hide P, Shl, Shr, Low;
    assert P(30) == 0x4000_0000 by { Half16(); PAdd(16, 14); PStep(14); PStep(15); }
    PZero();
    assert PteBase(LEAF) == 0x8000_0000;
    assert Shl(2, 30) == 0x8000_0000 by { ShlNone(2, 0); ShlP(1, 30); PStep(30); }
    ShrShl(2, 30);
    Half16();
    PMono(16, 18);
    Small(1, 18);
    Small(0, 9);
    assert Low(0x8_0000, 2) == 0 by { ShlShl(0x2_0000, 1, 1); ShlOne(0x2_0000); ShlOne(0x4_0000); ShrShl(0x2_0000, 2); }
  }

  lemma SuperpageReference(v: View, env: Env, mem: Memory)
    requires ValidView(v) && IsOpen(v.regs) && v.dataPriv == 0 && SatpMode(v.satp) == 8 && Root(v.satp) == 0x2000
    requires 32 <= env.physLen <= 41 && env.region(2) == Ram && env.region(0x8_0001) == Ram
    requires Load(mem, 0x2000, 8) == LEAF
    ensures Reference(v, env, mem, Read, 0x1000, 1) == InRam(0x8000_1000)
  {
    hide P, ValidRegs, IsOpen, Allowed, SatpMode, Root, LeafPermits, LeafBase, Xwr, PteAddr, Load;
    assert |v.regs.addr| == 16 by { Hart.ViewAddr(v); }
    assert P(32) == 0x1_0000_0000 by { Half16(); PAdd(16, 16); }
    PMono(32, env.physLen);
    OpenAllowed(v.regs, env.physLen, 0, R, 0x2000, 8);
    OpenAllowed(v.regs, env.physLen, 0, R, 0x8000_1000, 1);
    LeafFacts(v);
    assert Canonical(1, 3) by { PMono(1, 26); PZero(); }
    assert Walk(v, env, mem, Read, 1, 2, 0x2000) == Paddr(0x8000_1000);
    assert PageBase(v, env, mem, Read, 1) == Paddr(0x8000_1000);
  }

  /** TrapRun on a concrete machine: the read goes to 0x8000_1000 although machine
      mode reads 0x1000. */
  method SuperpageRun(env: Env, mem: Memory) returns (h: Hart, second: Outcome)
    requires 32 <= env.physLen <= 41 && env.region(2) == Ram && env.region(0x8_0001) == Ram
    requires Load(mem, 0x2000, 8) == LEAF
    ensures fresh(h) && h.Valid() && h.stale && h.env == env && second == InRam(0x8000_1000)
    ensures Reference(h.TheView(), env, h.mem, Read, 0x1000, 1) != second
  {
    hide ValidView, Coherent, Decoded, Reference, Allowed, Written, IsOpen, P, SatpMode, MaskSatp, Root, Load;
    h := new Hart(env, mem);
    h.WritePmpAddr(0, P(PMPADDR_BITS) - 1);
    ghost var r1 := h.regs;
    h.WritePmpCfg(0, 0x1F);
    OpenWrites(r1, h.regs);
    SatpFields();
    MaskSatpKeeps(SATP);
    var illegal := h.WriteSatp(SATP);
    h.SetMstatus(h.mstatus.(mprv := true));
    SuperpageReference(h.TheView(), env, mem);
    assert !Hit(h.tlbRead[..], 0x1000, 1) by { EmptyMisses(h, Read, 0x1000, 1); }
    var first;
    first, second := TrapRun(h, 0x1000, 2, 0x8000_1000);
  }

  /** Sv39 with its root table at 0x2000. */
  const SATP: nat := 0x8000_0000_0000_0002

  lemma SatpFields()
    ensures SatpMode(SATP) == 8 && Root(SATP) == 0x2000
  {
    hide P, Shl, Shr, Low;
    assert P(60) == 0x1000_0000_0000_0000 by { Word64(); PStep(60); PStep(61); PStep(62); PStep(63); }
    assert Shl(8, 60) == 0x8000_0000_0000_0000 by { ShlP(3, 60); PZero(); PStep(60); PStep(61); PStep(62); }
    SplitUnique(SATP, 60, 8, 2);
    PZero();
    PStep(3);
    Small(8, 4);
    ShlShl(8, 16, 44);
    PMono(2, 44);
    SplitUnique(SATP, 44, Shl(8, 16), 2);
  }
}
