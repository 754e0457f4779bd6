/** Runs of the hart from reset that show which bit of a PMP entry and of a page-table
    entry, and which privilege, decides over a load, a store and a fetch. */
module PermissionRuns {
  import opened Bits
  import opened Pmp
  import opened Paging
  import opened Tlb
  import opened HartPort
  import opened PortBits
  import opened HartRuns

  /** A load, a fetch and a store at one address, by a hart with empty caches, have
      the outcomes of the reference. */
  method Try(h: Hart, vaddr: nat, size: nat) returns (load: Outcome, store: Outcome, fetch: Outcome)
    requires h.Valid() && h.Empty() && !h.stale && IsSize(size) && vaddr < WORD
    modifies h`mem, h`stale, h`tables, h.tlbRead, h.tlbWrite, h.tlbCode
    ensures h.Valid()
    ensures load == Reference(old(h.TheView()), h.env, old(h.mem), Read, vaddr, size)
    ensures store == Reference(old(h.TheView()), h.env, old(h.mem), Write, vaddr, size)
    ensures fetch == Reference(old(h.TheView()), h.env, old(h.mem), Code, vaddr, 2)
  {
    hide ValidView, Coherent, Decoded, Reference, Allowed, PageGranular, Caches, Filled;
    EmptyMisses(h, Read, vaddr, size);
    EmptyMisses(h, Write, vaddr, size);
    EmptyMisses(h, Code, vaddr, 2);
    ghost var r, w, c := h.tlbRead[..], h.tlbWrite[..], h.tlbCode[..];
    assert !Hit(r, vaddr, size) && !Hit(w, vaddr, size) && !Hit(c, vaddr, 2);
    var val, insn;
    load, val := h.TargetRead(vaddr, size);
    fetch, insn := h.FetchU16(vaddr);
    store := h.TargetWrite(vaddr, size, 0);
  }

  // ----- the memory map

  lemma MachineReference(v: View, env: Env, mem: Memory, access: Access, vaddr: nat, size: nat)
    requires ValidView(v) && v.regs == Reset() && v.satp == 0 && v.dataPriv == 3 && v.codePriv == 3
    requires IsSize(size) && vaddr % size == 0
    ensures Reference(v, env, mem, access, vaddr, size) ==
              if vaddr >= P(env.physLen) then AccessFaulted
              else if env.region(vaddr / PG) == Ram then InRam(vaddr)
              else if access == Code then AccessFaulted
              else Outside(vaddr)
  {
    hide P, ValidView, Reference, Matches, Reset, SatpMode;
    Hart.ZeroSatp();
    BareReference(v, env, mem, access, vaddr, size);
    NoEntry(vaddr, size);
  }

  /** After reset machine mode reaches RAM and devices below the physical limit by loads
      and stores, and only RAM by fetches. */
  method ResetRun(env: Env, mem: Memory, vaddr: nat, size: nat)
    returns (h: Hart, load: Outcome, store: Outcome, fetch: Outcome)
    requires env.physLen >= 12 && IsSize(size) && vaddr < WORD && vaddr % size == 0 && vaddr % 2 == 0
    ensures fresh(h) && h.Valid() && h.priv == 3
    ensures load == store
    ensures vaddr >= P(env.physLen) <==> load == AccessFaulted
    ensures vaddr < P(env.physLen) && env.region(vaddr / PG) == Ram <==> load == InRam(vaddr)
    ensures vaddr < P(env.physLen) && env.region(vaddr / PG) != Ram <==> load == Outside(vaddr)
    ensures fetch == if load == InRam(vaddr) then InRam(vaddr) else AccessFaulted
  {
    hide ValidView, Coherent, Decoded, Reference, Allowed, PageGranular, Filled, P, Caches;
    h := new Hart(env, mem);
    ghost var v := h.TheView();
    MachineReference(v, env, mem, Read, vaddr, size);
    MachineReference(v, env, mem, Write, vaddr, size);
    MachineReference(v, env, mem, Code, vaddr, 2);
    load, store, fetch := Try(h, vaddr, size);
  }

  // ----- one permission bit at a time

  /** Only entry 0 is on: the 16 KiB at address 0. */
  ghost predicate IsLone(r: Regs, cfg: nat)
  {
    && |r.addr| == 16 && CfgByte(r, 0) == cfg && r.addr[0] == 0x7FF
    && forall i :: 0 < i < 16 ==> CfgByte(r, i) == 0
  }

  lemma LoneWrites(r1: Regs, r2: Regs, cfg: nat)
    requires cfg in {0x19, 0x1A, 0x1C}
    requires Written(Reset(), WriteAddr(0, 0x7FF), r1) && Written(r1, WriteCfg(0, cfg), r2)
    ensures IsLone(r2, cfg)
  {
    hide Written, CfgByte;
    OneEntry(r1, r2, 0x7FF, cfg);
  }

  lemma LoneRange(r: Regs, cfg: nat)
    requires |r.addr| == 16 && CfgByte(r, 0) == cfg && r.addr[0] == 0x7FF && cfg in {0x19, 0x1A, 0x1C}
    ensures IsOn(r, 0) && RangeOf(r, 0) == Range(0, 0x4000)
  {
    hide P, NapotRange, CfgByte, Shl, TrailingOnes;
    SmallPowers();
    NapotRegion(0, 11);
    ShlNone(0, 12);
  }

  lemma LoneMatches(r: Regs, cfg: nat, paddr: nat, size: nat)
    requires IsLone(r, cfg) && cfg in {0x19, 0x1A, 0x1C} && paddr + size <= 0x4000 && size > 0
    ensures IsLowest(r, 0, paddr, size)
  {
    hide CfgByte, RangeOf, IsOn;
    LoneRange(r, cfg);
  }

  lemma LoneReference(v: View, env: Env, mem: Memory, cfg: nat, access: Access, size: nat)
    requires ValidView(v) && IsLone(v.regs, cfg) && cfg in {0x19, 0x1A, 0x1C}
    requires v.dataPriv == 0 && v.codePriv == 0 && v.satp == 0
    requires env.physLen >= 16 && env.region(1) == Ram && (size == 2 || size == 4)
    ensures Reference(v, env, mem, access, 0x1000, size) ==
              if And(cfg, Needed(access)) == Needed(access) then InRam(0x1000) else AccessFaulted
  {
    hide P, ValidView, Reference, Allowed, SatpMode, IsLone, And;
    Hart.ZeroSatp();
    assert |v.regs.addr| == 16 && CfgByte(v.regs, 0) == cfg by { LoneCfg(v.regs, cfg); }
    Half16();
    PMono(16, env.physLen);
    BareReference(v, env, mem, access, 0x1000, size);
    LoneMatches(v.regs, cfg, 0x1000, size);
    EntryDecides(v.regs, env.physLen, 0, access, 0x1000, size, 0);
  }

  lemma LoneCfg(r: Regs, cfg: nat)
    requires IsLone(r, cfg)
    ensures |r.addr| == 16 && CfgByte(r, 0) == cfg
  {
  }

  method LoneHart(env: Env, mem: Memory, cfg: nat) returns (h: Hart)
    requires env.physLen >= 16 && cfg in {0x19, 0x1A, 0x1C}
    ensures fresh(h) && fresh(h.tlbRead) && fresh(h.tlbWrite) && fresh(h.tlbCode)
    ensures h.Valid() && !h.stale && h.Empty() && h.env == env && h.mem == mem
    ensures IsLone(h.regs, cfg) && h.priv == 0 && !h.mstatus.mprv && h.satp == 0
  {
    hide Written, IsLone, ValidView, Coherent, Decoded;
    h := new Hart(env, mem);
    h.WritePmpAddr(0, 0x7FF);
    ghost var r1 := h.regs;
    h.WritePmpCfg(0, cfg);
    LoneWrites(r1, h.regs, cfg);
    h.HandleMret();
  }

  /** User mode under one NAPOT entry with one permission bit: 0x19 lets it load,
      0x1A store and 0x1C fetch, and nothing else. */
  method OneBitRun(env: Env, mem: Memory, cfg: nat)
      returns (h: Hart, load: Outcome, store: Outcome, fetch: Outcome)
    requires env.physLen >= 16 && env.region(1) == Ram && cfg in {0x19, 0x1A, 0x1C}
    ensures fresh(h) && h.Valid() && h.priv == 0
    ensures load == if cfg == 0x19 then InRam(0x1000) else AccessFaulted
    ensures store == if cfg == 0x1A then InRam(0x1000) else AccessFaulted
    ensures fetch == if cfg == 0x1C then InRam(0x1000) else AccessFaulted
  {
    hide IsLone, ValidView, Coherent, Decoded, Reference, And;
    h := LoneHart(env, mem, cfg);
    ghost var v := h.TheView();
    LoneReference(v, env, mem, cfg, Read, 4);
    LoneReference(v, env, mem, cfg, Write, 4);
    LoneReference(v, env, mem, cfg, Code, 2);
    OneBit(cfg);
    load, store, fetch := Try(h, 0x1000, 4);
  }

  lemma OneBit(cfg: nat)
    requires cfg in {0x19, 0x1A, 0x1C}
    ensures And(cfg, 1) == 1 <==> cfg == 0x19
    ensures And(cfg, 2) == 2 <==> cfg == 0x1A
    ensures And(cfg, 4) == 4 <==> cfg == 0x1C
  {
  }

  // ----- top of range

  /** Entry 1 is on, from 0x1000 up to 0x2000. */
  ghost predicate IsTor(r: Regs)
  {
    && |r.addr| == 16 && CfgByte(r, 1) == 0x0F && r.addr[0] == 0x400 && r.addr[1] == 0x800
    && forall i :: 0 <= i < 16 && i != 1 ==> CfgByte(r, i) == 0
  }

  /** The bytes of a register that holds two bytes. */
  lemma TwoBytes(w: nat, b: nat, c: nat)
    requires w == b + 256 * c && b < 256 && c < 256
    ensures ByteOf(w, 0) == b && ByteOf(w, 1) == c
    ensures forall i: nat :: 1 < i < 8 ==> ByteOf(w, i) == 0
  {
    hide P, Shr, Low, ByteOf;
    FirstByte(b, c);
    OneByte(c);
    forall i: nat | 0 < i < 8
      ensures ByteOf(w, i) == ByteOf(c, i - 1)
    {
      NextByte(b, c, i);
    }
  }

  lemma NextByte(b: nat, c: nat, i: nat)
    requires b < 256 && i > 0
    ensures ByteOf(b + 256 * c, i) == ByteOf(c, i - 1)
  {
    hide P, Shr, Low;
    FirstByte(b, c);
    ShrShr(b + 256 * c, 8, 8 * (i - 1));
  }

  /** The three CSR writes after reset that switch on entries 0 and 1, or one of them,
      and no other. */
  lemma TwoEntries(r1: Regs, r2: Regs, r3: Regs, a0: nat, a1: nat, b: nat, c: nat)
    requires a0 < 0x40_0000_0000 && a1 < 0x40_0000_0000
    requires b < 256 && c < 256 && ClearReserved(b) == b && ClearReserved(c) == c
    requires Written(Reset(), WriteAddr(0, a0), r1) && Written(r1, WriteAddr(1, a1), r2)
    requires Written(r2, WriteCfg(0, b + 256 * c), r3)
    ensures |r3.addr| == 16 && r3.addr[0] == a0 && r3.addr[1] == a1 && CfgByte(r3, 0) == b && CfgByte(r3, 1) == c
    ensures forall i :: 1 < i < 16 ==> CfgByte(r3, i) == 0
  {
    hide P, ByteOf, Low, ClearReserved, NewByte;
    TwoBytes(b + 256 * c, b, c);
    OneByte(0);
    NewFromZero(b);
    NewFromZero(c);
    NewFromZero(0);
    WordPowers();
    Small(a0, 38);
    Small(a1, 38);
  }

  lemma TorWrites(r1: Regs, r2: Regs, r3: Regs)
    requires Written(Reset(), WriteAddr(0, 0x400), r1) && Written(r1, WriteAddr(1, 0x800), r2)
    requires Written(r2, WriteCfg(0, 0x0F00), r3)
    ensures IsTor(r3)
  {
    hide Written, CfgByte;
    TwoEntries(r1, r2, r3, 0x400, 0x800, 0, 0x0F);
  }

  lemma TorMatches(r: Regs, paddr: nat)
    requires IsTor(r)
    ensures forall i: nat :: Matches(r, i, paddr, 4) <==> i == 1 && 0x1000 <= paddr + 3 && paddr < 0x2000
  {
    hide CfgByte, NapotRange;
    assert RangeOf(r, 1) == Range(0x1000, 0x2000);
    forall i: nat | i < 16 && i != 1
      ensures !Matches(r, i, paddr, 4)
    {
      assert CfgByte(r, i) == 0;
    }
  }

  lemma TorReference(v: View, env: Env, mem: Memory, vaddr: nat)
    requires ValidView(v) && IsTor(v.regs) && v.dataPriv == 0 && v.satp == 0 && vaddr % 4 == 0 && vaddr < 0x4000
    requires env.physLen >= 16 && env.region(vaddr / PG) == Ram
    ensures Reference(v, env, mem, Read, vaddr, 4) == if 0x1000 <= vaddr < 0x2000 then InRam(vaddr) else AccessFaulted
  {
    hide P, ValidView, Reference, SatpMode, IsTor, Matches;
    Hart.ZeroSatp();
    assert |v.regs.addr| == 16 && CfgByte(v.regs, 1) == 0x0F by { TorCfg(v.regs); }
    Half16();
    PMono(16, env.physLen);
    BareReference(v, env, mem, Read, vaddr, 4);
    TorMatches(v.regs, vaddr);
    if 0x1000 <= vaddr < 0x2000 {
      assert IsLowest(v.regs, 1, vaddr, 4) && Lets(0x0F, 0, R);
    }
  }

  lemma TorCfg(r: Regs)
    requires IsTor(r)
    ensures |r.addr| == 16 && CfgByte(r, 1) == 0x0F
  {
  }

  /** User mode under one TOR entry loads from 0x1000 on and below 0x2000. */
  method TorRun(env: Env, mem: Memory, vaddr: nat) returns (h: Hart, load: Outcome)
    requires env.physLen >= 16 && vaddr % 4 == 0 && vaddr < 0x4000 && env.region(vaddr / PG) == Ram
    ensures fresh(h) && h.Valid() && h.priv == 0
    ensures load == if 0x1000 <= vaddr < 0x2000 then InRam(vaddr) else AccessFaulted
  {
    hide Written, IsTor, ValidView, Coherent, Decoded, Reference, Allowed, PageGranular, Caches, Filled;
    h := new Hart(env, mem);
    h.WritePmpAddr(0, 0x400);
    ghost var r1 := h.regs;
    h.WritePmpAddr(1, 0x800);
    ghost var r2 := h.regs;
    h.WritePmpCfg(0, 0x0F00);
    TorWrites(r1, r2, h.regs);
    h.HandleMret();
    TorReference(h.TheView(), env, mem, vaddr);
    assert !Hit(h.tlbRead[..], vaddr, 4) by { EmptyMisses(h, Read, vaddr, 4); }
    var val;
    load, val := h.TargetRead(vaddr, 4);
  }

  // ----- two entries

  /** Entry 0 forbids the four bytes at 0x1000, entry 1 opens 16 KiB. */
  ghost predicate IsLayered(r: Regs)
  {
    && |r.addr| == 16 && CfgByte(r, 0) == 0x10 && CfgByte(r, 1) == 0x1F && r.addr[0] == 0x400 && r.addr[1] == 0x7FF
  }

  lemma LayeredRanges(r: Regs)
    requires IsLayered(r)
    ensures IsOn(r, 0) && RangeOf(r, 0) == Range(0x1000, 0x1004)
    ensures IsOn(r, 1) && RangeOf(r, 1) == Range(0, 0x4000)
  {
    hide P, NapotRange, CfgByte, Shl, TrailingOnes;
    SmallPowers();
    NapotRegion(0, 11);
    ShlNone(0, 12);
  }

  lemma LayeredLowest(r: Regs, vaddr: nat)
    requires IsLayered(r) && vaddr % 4 == 0 && vaddr < 0x4000
    ensures IsLowest(r, if vaddr == 0x1000 then 0 else 1, vaddr, 4)
  {
    hide CfgByte, RangeOf, IsOn;
    LayeredRanges(r);
  }

  lemma LayeredReference(v: View, env: Env, mem: Memory, vaddr: nat)
    requires ValidView(v) && IsLayered(v.regs) && v.dataPriv == 0 && v.satp == 0 && vaddr % 4 == 0 && vaddr < 0x4000
    requires env.physLen >= 16 && env.region(vaddr / PG) == Ram
    ensures Reference(v, env, mem, Read, vaddr, 4) == if vaddr == 0x1000 then AccessFaulted else InRam(vaddr)
  {
    hide P, ValidView, Reference, SatpMode, Allowed, And, CfgByte;
    Hart.ZeroSatp();
    SmallPowers();
    PMono(16, env.physLen);
    BareReference(v, env, mem, Read, vaddr, 4);
    LayeredLowest(v.regs, vaddr);
    EntryDecides(v.regs, env.physLen, 0, Read, vaddr, 4, if vaddr == 0x1000 then 0 else 1);
    assert And(0x10, 1) == 0 && And(0x1F, 1) == 1 by { AndPower(0x10, 0); AndPower(0x1F, 0); }
  }

  /** The lower entry wins: user mode may not load at 0x1000 and may around it. */
  method PriorityRun(env: Env, mem: Memory, vaddr: nat) returns (h: Hart, load: Outcome)
    requires env.physLen >= 16 && vaddr % 4 == 0 && vaddr < 0x4000 && env.region(vaddr / PG) == Ram
    ensures fresh(h) && h.Valid() && h.priv == 0
    ensures load == if vaddr == 0x1000 then AccessFaulted else InRam(vaddr)
  {
    hide Written, ValidView, Coherent, Decoded, Reference, Allowed, PageGranular, Caches, Filled, CfgByte;
    h := new Hart(env, mem);
    h.WritePmpAddr(0, 0x400);
    ghost var r1 := h.regs;
    h.WritePmpAddr(1, 0x7FF);
    ghost var r2 := h.regs;
    h.WritePmpCfg(0, 0x1F10);
    TwoEntries(r1, r2, h.regs, 0x400, 0x7FF, 0x10, 0x1F);
    h.HandleMret();
    LayeredReference(h.TheView(), env, mem, vaddr);
    assert !Hit(h.tlbRead[..], vaddr, 4) by { EmptyMisses(h, Read, vaddr, 4); }
    var val;
    load, val := h.TargetRead(vaddr, 4);
  }

  // ----- MPRV and fetches

  lemma NoEntryFetch(v: View, env: Env, mem: Memory, vaddr: nat)
    requires ValidView(v) && v.regs == Reset() && v.satp == 0 && vaddr % 2 == 0
    requires vaddr < P(env.physLen) && env.region(vaddr / PG) == Ram
    ensures Reference(v, env, mem, Code, vaddr, 2) == if v.codePriv == 3 then InRam(vaddr) else AccessFaulted
  {
    hide P, ValidView, Reference, Matches, Reset, SatpMode;
    Hart.ZeroSatp();
    BareReference(v, env, mem, Code, vaddr, 2);
    NoEntry(vaddr, 2);
  }

  /** Machine mode with MPRV set and MPP user mode, and no PMP entry: it fetches as
      machine mode and loads as user mode. */
  method MprvFetchRun(env: Env, mem: Memory, vaddr: nat) returns (h: Hart, load: Outcome, fetch: Outcome)
    requires 12 <= env.physLen <= 64 && vaddr < P(env.physLen) && vaddr % 2 == 0 && env.region(vaddr / PG) == Ram
    ensures fresh(h) && h.Valid() && h.priv == 3 && h.mstatus.mprv && h.mstatus.mpp == 0
    ensures fetch == InRam(vaddr) && load == AccessFaulted
  {
    hide ValidView, Coherent, Decoded, Reference, Allowed, PageGranular, Filled, P, Caches;
    Word64();
    PMono(env.physLen, 64);
    h := new Hart(env, mem);
    h.SetMstatus(h.mstatus.(mprv := true, mpp := 0));
    ghost var v := h.TheView();
    NoEntryReference(v, env, mem, vaddr);
    NoEntryFetch(v, env, mem, vaddr);
    var store;
    load, store, fetch := Try(h, vaddr, 1);
  }

  // ----- page-table entries

  /** A leaf for the gigabyte at 0x8000_0000 with the given low byte. */
  function LeafWord(flags: nat): nat { 0x2000_0000 + flags }

  /** The low byte of an entry can be looked at alone. */
  lemma LowByteBits(q: nat, flags: nat, mask: nat)
    requires flags < 256 && mask < 256
    ensures And(256 * q + flags, mask) == And(flags, mask)
  {
    assert P(8) == 256;
    assert Shl(q, 8) == 256 * q;
    hide P, And, Shl;
    ShlNone(0, 8);
    AndSplit(q, 0, 8, flags, mask);
    AndNone(q);
  }

  /** Which of the three accesses a leaf allows: 0xD3 is a user page to read, 0xD9 one
      to execute, and 0xC7 a supervisor page to read and write. */
  predicate Opens(flags: nat, priv: nat, access: Access)
  {
    match access
    case Read => (priv == 0 && flags == 0xD3) || (priv == 1 && flags == 0xC7)
    case Write => priv == 1 && flags == 0xC7
    case Code => priv == 0 && flags == 0xD9
  }

  lemma FlagBits(flags: nat)
    requires flags in {0xD3, 0xD9, 0xC7}
    ensures And(flags, 0x01) == 0x01 && And(flags, 0x40) == 0x40 && And(flags, 0x80) == 0x80
    ensures And(flags, 0x02) == 0x02 <==> flags != 0xD9
    ensures And(flags, 0x04) == 0x04 <==> flags == 0xC7
    ensures And(flags, 0x08) == 0x08 <==> flags == 0xD9
    ensures And(flags, 0x10) == 0x10 <==> flags != 0xC7
    ensures And(flags, 0xF) != 1
  {
    hide And, P, Xwr;
    SmallPowers();
    AndPower(flags, 0);
    AndPower(flags, 1);
    AndPower(flags, 2);
    AndPower(flags, 3);
    AndPower(flags, 4);
    AndPower(flags, 6);
    AndPower(flags, 7);
    NextTableBits(flags);
    XwrBits(flags);
  }

  lemma LeafOpens(v: View, access: Access, priv: nat, flags: nat)
    requires flags in {0xD3, 0xD9, 0xC7} && priv <= 1 && !v.sum && !v.mxr
    ensures LeafBits(v, access, priv, LeafWord(flags), 2) <==> Opens(flags, priv, access)
    ensures And(LeafWord(flags), 0xF) != 1
  {
    hide And, P, Low, Shr, Shl;
    var q := 0x20_0000;
    LowByteBits(q, flags, 0x01);
    LowByteBits(q, flags, 0x02);
    LowByteBits(q, flags, 0x04);
    LowByteBits(q, flags, 0x08);
    LowByteBits(q, flags, 0x10);
    LowByteBits(q, flags, 0x40);
    LowByteBits(q, flags, 0x80);
    LowByteBits(q, flags, 0xF);
    FlagBits(flags);
    AlignmentBits(LeafWord(flags), 2);
    assert Low(0x8_0000, 2) == 0 by { LowIs(0x8_0000, 2); SmallPowers(); }
  }

  lemma LeafPlace(flags: nat, vpn: nat)
    requires flags < 256 && vpn < 0x4_0000
    ensures LeafBase(LeafWord(flags), vpn, 2) == 0x8000_0000 + 0x1000 * vpn && And(Shr(vpn, 18), 0x1FF) == 0
  {
    hide And, P, Low, Shr, Shl, LeafBase, PteBase;
    Eighteen();
    PteFields(0x8_0000, flags, vpn, 2);
    DivUnique(0x8_0000, 0x4_0000, 2, 0);
    Small(vpn, 18);
    AndNone(0x1FF);
  }

  lemma Eighteen()
    ensures P(18) == 0x4_0000 && 0x8_0000 < P(52) && P(26) > 0x4_0000
  {
    hide P;
    Half16();
    PStep(16);
    PStep(17);
    PStep(18);
    PStep(19);
    PMono(20, 52);
    PMono(19, 26);
  }

  lemma LeafReference(v: View, env: Env, mem: Memory, flags: nat, p: nat, access: Access, vaddr: nat, size: nat)
    requires ValidView(v) && IsOpen(v.regs) && v.dataPriv == p && v.codePriv == p && p <= 1 && !v.sum && !v.mxr
    requires SatpMode(v.satp) == 8 && Root(v.satp) == 0x2000
    requires vaddr < 0x4000_0000 && (size == 1 || size == 2) && vaddr % 2 == 0
    requires 32 <= env.physLen <= 41 && env.region(2) == Ram && env.region(0x8_0000 + vaddr / PG) == Ram
    requires Load(mem, 0x2000, 8) == LeafWord(flags) && flags in {0xD3, 0xD9, 0xC7}
    ensures Reference(v, env, mem, access, vaddr, size) ==
              if Opens(flags, p, access) then InRam(0x8000_0000 + vaddr) else PageFaulted
  {
    hide P, ValidRegs, IsOpen, Allowed, SatpMode, Root, Walk, LeafBits, LeafBase, PteAddr, Load, Opens, And, Shr,
         LeafWord, Canonical;
    assert |v.regs.addr| == 16 by { Hart.ViewAddr(v); }
    var vpn := vaddr / PG;
    WordPowers();
    PMono(32, env.physLen);
    OpenAllowed(v.regs, env.physLen, p, R, 0x2000, 8);
    OpenAllowed(v.regs, env.physLen, p, PermOf(access), 0x8000_0000 + vaddr, size);
    WalkStep(v, env, mem, access, vpn, 2, 0x2000);
    LeafPlace(flags, vpn);
    LeafOpens(v, access, p, flags);
    assert Canonical(vpn, 3) by { LowHalf(vpn); }
    assert (0x8000_0000 + vaddr) / PG == 0x8_0000 + vpn;
  }

  lemma LowHalf(vpn: nat)
    requires vpn < 0x4_0000
    ensures Canonical(vpn, 3)
  {
    hide P;
    Eighteen();
  }

  /** A hart with that root table, all of memory open to it, in the given mode. */
  method PagedHart(env: Env, mem: Memory, p: nat) returns (h: Hart)
    requires env.physLen >= 12 && p <= 1
    ensures fresh(h) && fresh(h.tlbRead) && fresh(h.tlbWrite) && fresh(h.tlbCode)
    ensures h.Valid() && !h.stale && h.Empty() && h.env == env && h.mem == mem && h.priv == p
    ensures IsOpen(h.regs) && !h.mstatus.mprv && !h.mstatus.sum && !h.mstatus.mxr
    ensures SatpMode(h.satp) == 8 && Root(h.satp) == 0x2000
  {
    hide ValidView, Coherent, Decoded, Allowed, Written, IsOpen, P, SatpMode, MaskSatp, Root;
    h := new Hart(env, mem);
    h.WritePmpAddr(0, P(PMPADDR_BITS) - 1);
    ghost var r1 := h.regs;
    h.WritePmpCfg(0, 0x1F);
    OpenWrites(r1, h.regs);
    SatpFields();
    MaskSatpKeeps(SATP);
    var illegal := h.WriteSatp(SATP);
    h.SetMstatus(h.mstatus.(mpp := p));
    h.HandleMret();
  }

  /** Sv39 from reset, for every address of the first gigabyte: the bits of the leaf
      and the mode decide. */
  method LeafRun(env: Env, mem: Memory, flags: nat, p: nat, vaddr: nat)
      returns (h: Hart, load: Outcome, store: Outcome, fetch: Outcome)
    requires 32 <= env.physLen <= 41 && env.region(2) == Ram && env.region(0x8_0000 + vaddr / PG) == Ram && p <= 1
    requires Load(mem, 0x2000, 8) == 0x2000_0000 + flags && flags in {0xD3, 0xD9, 0xC7}
    requires vaddr < 0x4000_0000 && vaddr % 2 == 0
    ensures fresh(h) && h.Valid() && h.priv == p
    ensures load == if (p == 0 && flags == 0xD3) || (p == 1 && flags == 0xC7) then InRam(0x8000_0000 + vaddr)
                    else PageFaulted
    ensures store == if p == 1 && flags == 0xC7 then InRam(0x8000_0000 + vaddr) else PageFaulted
    ensures fetch == if p == 0 && flags == 0xD9 then InRam(0x8000_0000 + vaddr) else PageFaulted
  {
    hide ValidView, Coherent, Decoded, Reference, Allowed, IsOpen, P, SatpMode, Root, Load;
    h := PagedHart(env, mem, p);
    ghost var v := h.TheView();
    LeafReference(v, env, mem, flags, p, Read, vaddr, 1);
    LeafReference(v, env, mem, flags, p, Write, vaddr, 1);
    LeafReference(v, env, mem, flags, p, Code, vaddr, 2);
    load, store, fetch := Try(h, vaddr, 1);
  }

  // ----- page-table reads under MPRV

  /** Only entry 0 is on: execution in the two gigabytes at 0x8000_0000. */
  ghost predicate IsHigh(r: Regs)
  {
    && |r.addr| == 16 && CfgByte(r, 0) == 0x1C && r.addr[0] == 0x2FFF_FFFF
    && forall i :: 0 < i < 16 ==> CfgByte(r, i) == 0
  }

  lemma HighWrites(r1: Regs, r2: Regs)
    requires Written(Reset(), WriteAddr(0, 0x2FFF_FFFF), r1) && Written(r1, WriteCfg(0, 0x1C), r2)
    ensures IsHigh(r2)
  {
    hide Written, CfgByte;
    OneEntry(r1, r2, 0x2FFF_FFFF, 0x1C);
  }

  lemma HighRange(r: Regs)
    requires |r.addr| == 16 && CfgByte(r, 0) == 0x1C && r.addr[0] == 0x2FFF_FFFF
    ensures IsOn(r, 0) && RangeOf(r, 0) == Range(0x8000_0000, 0x1_0000_0000)
  {
    hide P, NapotRange, CfgByte, Shl, TrailingOnes;
    WordPowers();
    NapotRegion(1, 28);
    ShlP(0, 29);
    PZero();
  }

  lemma HighMatches(r: Regs, paddr: nat, size: nat)
    requires IsHigh(r) && size > 0
    ensures forall i: nat :: Matches(r, i, paddr, size) <==>
              i == 0 && 0x8000_0000 <= paddr + size - 1 && paddr < 0x1_0000_0000
  {
    hide RangeOf, CfgByte;
    HighRange(r);
    forall i: nat | 0 < i < 16
      ensures !Matches(r, i, paddr, size)
    {
      assert CfgByte(r, i) == 0;
    }
  }

  /** The table at 0x2000 may be read by machine mode, and the code above be executed. */
  lemma HighVerdicts(r: Regs, physLen: nat, d: nat)
    requires IsHigh(r) && 32 <= physLen && d <= 3
    ensures |r.addr| == 16
    ensures Allowed(r, physLen, d, R, 0x2000, 8) <==> d == 3
    ensures Allowed(r, physLen, 0, X, 0x8000_1000, 2)
  {
    hide P, Matches;
    WordPowers();
    PMono(32, physLen);
    HighMatches(r, 0x2000, 8);
    HighMatches(r, 0x8000_1000, 2);
    assert IsLowest(r, 0, 0x8000_1000, 2);
  }

  lemma HighReference(v: View, env: Env, mem: Memory)
    requires ValidView(v) && IsHigh(v.regs) && v.codePriv == 0 && !v.sum && !v.mxr
    requires SatpMode(v.satp) == 8 && Root(v.satp) == 0x2000
    requires 32 <= env.physLen && env.region(2) == Ram && env.region(0x8_0001) == Ram
    requires Load(mem, 0x2000, 8) == LeafWord(0xD9)
    ensures Reference(v, env, mem, Code, 0x1000, 2) == if v.dataPriv == 3 then InRam(0x8000_1000) else AccessFaulted
  {
    hide P, ValidRegs, IsHigh, Allowed, SatpMode, Root, Walk, LeafBits, LeafBase, PteAddr, Load, And, Shr, LeafWord;
    HighVerdicts(v.regs, env.physLen, v.dataPriv);
    WalkStep(v, env, mem, Code, 1, 2, 0x2000);
    LeafPlace(0xD9, 1);
    LeafOpens(v, Code, 0, 0xD9);
    LowHalf(1);
  }

  method HighHart(env: Env, mem: Memory) returns (h: Hart)
    requires env.physLen >= 12
    ensures fresh(h) && fresh(h.tlbRead) && fresh(h.tlbWrite) && fresh(h.tlbCode)
    ensures h.Valid() && !h.stale && h.env == env && h.mem == mem && h.priv == 3 && h.dcsr == 0
    ensures IsHigh(h.regs) && h.mstatus == Mstatus(false, false, false, false, 0, 0, false, false, false, false)
    ensures SatpMode(h.satp) == 8 && Root(h.satp) == 0x2000
  {
    hide ValidView, Coherent, Decoded, Allowed, Written, IsHigh, P, SatpMode, MaskSatp, Root;
    h := new Hart(env, mem);
    h.WritePmpAddr(0, 0x2FFF_FFFF);
    ghost var r1 := h.regs;
    h.WritePmpCfg(0, 0x1C);
    HighWrites(r1, h.regs);
    SatpFields();
    MaskSatpKeeps(SATP);
    var illegal := h.WriteSatp(SATP);
  }

  /** Two ways into user mode, the same page table: after mret the fetch faults, for
      user mode may not read the table. After dret with MPRV set and MPP machine mode
      the table is read as machine mode, and the fetch goes through. */
  method TableReadRun(env: Env, mem: Memory, debug: bool) returns (h: Hart, fetch: Outcome)
    requires 32 <= env.physLen && env.region(2) == Ram && env.region(0x8_0001) == Ram
    requires Load(mem, 0x2000, 8) == 0x2000_00D9
    ensures fresh(h) && h.Valid() && h.priv == 0
    ensures fetch == if debug then InRam(0x8000_1000) else AccessFaulted
  {
    hide ValidView, Coherent, Decoded, Reference, Allowed, IsHigh, P, SatpMode, Root, Load, Caches, Filled,
         PageGranular;
    h := HighHart(env, mem);
    if debug {
      h.SetMstatus(h.mstatus.(mprv := true, mpp := 3));
      h.HandleDret();
    } else {
      h.HandleMret();
    }
    HighReference(h.TheView(), env, mem);
    assert !Hit(h.tlbCode[..], 0x1000, 2) by { EmptyMisses(h, Code, 0x1000, 2); }
    var insn;
    fetch, insn := h.FetchU16(0x1000);
  }
}
