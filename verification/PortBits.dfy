/** The registers and words of the memory port bit by bit: what each mask of a PMP
    configuration byte, of a page-table entry and of satp does, with the masks
    written out, and the byte order of memory. */
module PortBits {
  import opened Bits
  import opened Pmp
  import opened Paging
  import opened Tlb
  import opened HartPort

  // ----- memory

  /** Byte i of what is loaded is the byte at that distance: little-endian. */
  lemma {:induction false} LoadedByte(mem: Memory, a: nat, n: nat, i: nat)
    requires i < n && forall b: nat :: ByteAt(mem, b) < 256
    ensures ByteOf(Load(mem, a, n), i) == ByteAt(mem, a + i)
    decreases n
  {
    hide P, Shr, Low, ByteAt;
    var b, rest := ByteAt(mem, a), Load(mem, a + 1, n - 1);
    FirstByte(b, rest);
    if i > 0 {
      ShrShr(b + 256 * rest, 8, 8 * (i - 1));
      LoadedByte(mem, a + 1, n - 1, i - 1);
    }
  }

  lemma FirstByte(b: nat, rest: nat)
    requires b < 256
    ensures ByteOf(b + 256 * rest, 0) == b && Shr(b + 256 * rest, 8) == rest
  {
    assert P(8) == 256;
    hide P, Shr, Low;
    ShrNone(b + 256 * rest);
    SplitUnique(b + 256 * rest, 8, rest, b);
  }

  /** A store puts byte i at that distance. */
  lemma {:induction false} StoredByte(mem: Memory, a: nat, n: nat, v: nat, i: nat)
    requires i < n
    ensures ByteAt(Store(mem, a, n, v), a + i) == ByteOf(v, i)
    decreases n
  {
    hide P, Shr, Low, ByteAt;
    var mem' := mem[a := v % 256];
    FirstByte(v % 256, v / 256);
    if i == 0 {
      StoreFrame(mem', a + 1, n - 1, v / 256, a);
      Stored(mem, a, v % 256);
    } else {
      StoredByte(mem', a + 1, n - 1, v / 256, i - 1);
      ShrShr(v, 8, 8 * (i - 1));
    }
  }

  lemma Stored(mem: Memory, a: nat, b: nat)
    ensures ByteAt(mem[a := b], a) == b
  {
  }

  // ----- PMP configuration bytes

  /** R, W and X are bits 0, 1 and 2, the mode is 0x18, the lock 0x80, and 0x60 is
      reserved. */
  lemma CfgBits(cfg: nat)
    requires cfg < 256
    ensures Grants(cfg, R) <==> And(cfg, 1) == 1
    ensures Grants(cfg, W) <==> And(cfg, 2) == 2
    ensures Grants(cfg, X) <==> And(cfg, 4) == 4
    ensures Locked(cfg) <==> And(cfg, 0x80) == 0x80
    ensures var m := And(cfg, 0x18);
            ModeOf(cfg) == if m == 0 then Off else if m == 8 then Tor else if m == 0x10 then Na4 else Napot
    ensures ClearReserved(cfg) == And(cfg, 0x9F)
  {
    assert P(0) == 1 && P(1) == 2 && P(2) == 4 && P(3) == 8 && P(5) == 32 && P(7) == 0x80;
    hide P, Shl, Shr, Low, And;
    AndPower(cfg, 0);
    AndPower(cfg, 1);
    AndPower(cfg, 2);
    AndPower(cfg, 7);
    CfgMode(cfg);
    CfgReserved(cfg);
  }

  lemma CfgMode(cfg: nat)
    ensures And(cfg, 0x18) == 8 * (cfg / 8 % 4)
  {
    assert P(2) == 4 && P(3) == 8;
    AndField(cfg, 3, 2);
  }

  lemma CfgReserved(cfg: nat)
    requires cfg < 256
    ensures And(cfg, 0x9F) == cfg / 0x80 * 0x80 + cfg % 0x20
  {
    hide P, And, Shl, Low, Shr;
    SmallPowers();
    var q, x := cfg / 0x80, cfg % 0x80;
    TimesEighty(q);
    TimesEighty(1);
    TimesEighty(And(q, 1));
    AndSplit(q, 1, 7, x, 31);
    AndMask(x, 5);
    AndMask(q, 1);
    Small(q, 1);
    LowIs(x, 5);
  }

  lemma TimesEighty(a: nat)
    ensures Shl(a, 7) == 0x80 * a
  {
    SmallPowers();
  }

  /** The byte of entry i in pmpcfg0. */
  lemma CfgByteBits(r: Regs, i: nat)
    requires i < 8
    ensures CfgByte(r, i) == And(Shr(r.cfg0, 8 * i), 0xFF)
  {
    assert P(8) == 256;
    AndMask(Shr(r.cfg0, 8 * i), 8);
  }

  /** A pmpcfg write: a locked byte stays, any other takes the written one without
      its reserved bits. */
  lemma CfgWriteBits(r: Regs, val: nat, r': Regs, i: nat)
    requires ValidRegs(r) && Written(r, WriteCfg(0, val), r') && i < 8
    ensures CfgByte(r', i) ==
              if And(CfgByte(r, i), 0x80) == 0x80 then CfgByte(r, i) else And(And(Shr(val, 8 * i), 0xFF), 0x9F)
  {
    assert P(8) == 256;
    hide P, And, Shr, Low, Locked, ClearReserved, Grants, ModeOf;
    AndMask(Shr(val, 8 * i), 8);
    assert ByteOf(val, i) == And(Shr(val, 8 * i), 0xFF);
    CfgBits(CfgByte(r, i));
    CfgBits(ByteOf(val, i));
  }

  /** A pmpaddr write: 38 bits, to one of eight registers, unless its entry is locked
      or it bounds a locked TOR entry from below. */
  lemma AddrWriteBits(r: Regs, i: nat, val: nat, r': Regs)
    requires ValidRegs(r) && Written(r, WriteAddr(i, val), r')
    ensures r' ==
              if i < 8 && And(CfgByte(r, i), 0x80) == 0
                 && !(i < 7 && And(CfgByte(r, i + 1), 0x80) == 0x80 && And(CfgByte(r, i + 1), 0x18) == 8)
              then r.(addr := r.addr[i := And(val, 0x3F_FFFF_FFFF)]) else r
  {
    hide P, And, Shr, Low, ByteOf, ClearReserved, Grants;
    CfgBits(CfgByte(r, i));
    SmallPowers();
    AndPower(CfgByte(r, i), 7);
    CfgMode(CfgByte(r, if i < 15 then i + 1 else 0));
    CfgBits(CfgByte(r, if i < 15 then i + 1 else 0));
    AddressBits(val);
  }

  lemma AddressBits(val: nat)
    ensures Low(val, 38) == And(val, 0x3F_FFFF_FFFF)
  {
    hide P, And, Low;
    WordPowers();
    AndMask(val, 38);
  }

  /** The bit of pmpcfg that an access needs. */
  function Needed(access: Access): nat
  {
    match access
    case Read => 1
    case Write => 2
    case Code => 4
  }

  /** The lowest matching entry decides by its raw bits: it grants what its bit
      grants, and machine mode anything unless it is locked. */
  lemma EntryDecides(r: Regs, physLen: nat, priv: nat, access: Access, paddr: nat, size: nat, i: nat)
    requires |r.addr| == 16 && priv <= 3 && IsLowest(r, i, paddr, size)
    ensures Allowed(r, physLen, priv, PermOf(access), paddr, size) <==>
              && paddr < P(physLen)
              && (|| And(CfgByte(r, i), Needed(access)) == Needed(access)
                  || (priv == 3 && And(CfgByte(r, i), 0x80) == 0))
  {
    hide P, And, Grants, ModeOf, ClearReserved, Locked, RangeOf, CfgByte, IsOn, Touches;
    CfgBits(CfgByte(r, i));
    SmallPowers();
    AndPower(CfgByte(r, i), 7);
    assert forall j: nat :: IsLowest(r, j, paddr, size) ==> j == i;
  }

  /** User and supervisor mode are alike to the PMP. */
  lemma LowPrivileges(r: Regs, physLen: nat, p: nat, q: nat, perm: Perm, paddr: nat, size: nat)
    requires |r.addr| == 16 && p < 3 && q < 3
    ensures Allowed(r, physLen, p, perm, paddr, size) <==> Allowed(r, physLen, q, perm, paddr, size)
  {
    hide P, Matches, Grants, Locked;
  }

  // ----- satp

  /** Mode in bits 60 to 63, root page number in bits 0 to 43. */
  lemma SatpBits(satp: nat)
    requires satp < P(64)
    ensures SatpMode(satp) == Shr(satp, 60) && Root(satp) == 0x1000 * And(satp, 0xFFF_FFFF_FFFF)
  {
    hide P, Shl, Shr, Low, And;
    SmallPowers();
    DoublePowers();
    ShrLt(satp, 60, 16);
    ShlP(4, 60);
    Small(Shr(satp, 60), 4);
    AndMask(satp, 44);
  }

  /** A write keeps just these bits. */
  lemma SatpWriteBits(val: nat)
    ensures MaskSatp(val) == And(val, 0xF000_0FFF_FFFF_FFFF)
  {
    assert Shl(15, 60) == 15 * P(60);
    hide P, Shl, Shr, Low, And;
    SmallPowers();
    DoublePowers();
    ShrShr(val, 44, 16);
    Split(val, 44);
    ShlShl(15, 16, 44);
    AndSplit(Shr(val, 44), Shl(15, 16), 44, Low(val, 44), P(44) - 1);
    AndMask(Low(val, 44), 44);
    Small(Low(val, 44), 44);
    AndField(Shr(val, 44), 16, 4);
    ShlShl(Low(Shr(val, 60), 4), 16, 44);
  }

  // ----- page-table entries

  /** The page-number bits of a leaf that the code tests at each level. */
  function AlignmentMask(j: nat): nat
    requires j < 4
  {
    [0, 0x400, 0xC00, 0x1C00][j]
  }

  /** A valid leaf that permits the access, by its bits: V 0x01, R 0x02, W 0x04,
      X 0x08, U 0x10, A 0x40 and D 0x80; W without R is reserved. */
  predicate LeafBits(v: View, access: Access, priv: nat, pte: nat, j: nat)
    requires j < 4
  {
    && And(pte, 0x01) == 0x01 && And(pte, 0x40) == 0x40
    && (And(pte, 0x04) == 0x04 ==> And(pte, 0x02) == 0x02)
    && (match access
        case Read => And(pte, 0x02) == 0x02 || (v.mxr && And(pte, 0x08) == 0x08)
        case Write => And(pte, 0x04) == 0x04 && And(pte, 0x80) == 0x80
        case Code => And(pte, 0x08) == 0x08)
    && (if priv == 1 then And(pte, 0x10) == 0x10 ==> v.sum else And(pte, 0x10) == 0x10)
    && And(pte, AlignmentMask(j)) == 0
  }

  lemma LeafLaw(v: View, access: Access, priv: nat, pte: nat, j: nat)
    requires j < 4
    ensures LeafBits(v, access, priv, pte, j) <==>
              pte % 2 == 1 && Xwr(pte) != 0 && LeafPermits(v, access, priv, pte, j)
  {
    hide P, Shl, Shr, Low, And, AlignmentMask;
    SmallPowers();
    AndPower(pte, 0);
    AndPower(pte, 1);
    AndPower(pte, 2);
    AndPower(pte, 3);
    AndPower(pte, 4);
    AndPower(pte, 6);
    AndPower(pte, 7);
    XwrBits(pte);
    AlignmentBits(pte, j);
  }

  lemma XwrBits(pte: nat)
    ensures var x := Xwr(pte);
            && x % 2 == pte / 2 % 2 && x / 2 % 2 == pte / 4 % 2 && x / 4 == pte / 8 % 2 && x / 4 <= 1
            && (x == 2 || x == 6 <==> pte / 4 % 2 == 1 && pte / 2 % 2 == 0)
            && (x == 0 <==> pte / 2 % 2 == 0 && pte / 4 % 2 == 0 && pte / 8 % 2 == 0)
  {
    var x := pte / 2 % 8;
    assert pte / 4 == pte / 2 / 2 && pte / 8 == pte / 2 / 4;
    var y := pte / 2;
    assert y == 8 * (y / 8) + x;
    assert y / 2 == 4 * (y / 8) + x / 2 && y / 4 == 2 * (y / 8) + x / 4;
  }

  lemma AlignmentBits(pte: nat, j: nat)
    requires j < 4
    ensures And(pte, AlignmentMask(j)) == 0 <==> Low(pte / 1024, j) == 0
  {
    assert P(0) == 1 && P(1) == 2 && P(2) == 4 && P(3) == 8 && P(10) == 1024;
    assert AlignmentMask(j) == Shl(P(j) - 1, 10);
    assert Shr(pte, 10) == pte / 1024;
    hide P, Shl, Shr, Low, And;
    AndField(pte, 10, j);
    ShlCmp(0, Low(pte / 1024, j), 10);
    ShlNone(0, 10);
  }

  /** An entry is its page number times 0x400 and its flags. */
  lemma PteFields(ppn: nat, flags: nat, vpn: nat, j: nat)
    requires ppn < P(52) && flags < 0x400
    ensures var pte := ppn * 0x400 + flags;
            && PteBase(pte) == 0x1000 * ppn
            && LeafBase(pte, vpn, j) == 0x1000 * (ppn - ppn % P(9 * j) + vpn % P(9 * j))
  {
    hide P, Shl, Shr, Low;
    var pte := ppn * 0x400 + flags;
    DivUnique(pte, 0x400, ppn, flags);
    assert P(64) == 0x1000 * P(52) by { ShlP(52, 12); Pages(P(52)); }
    Word64();
    DivUnique(0x1000 * ppn, WORD, 0, 0x1000 * ppn);
    Pages(ppn);
    ShrShr(Shl(ppn, 12), 12, 9 * j);
    ShrShl(ppn, 12);
    var q := Shr(ppn, 9 * j);
    ShlShl(q, 9 * j, 12);
    Pages(Shl(q, 9 * j));
    Split(ppn, 9 * j);
    LowIs(ppn, 9 * j);
    LowIs(vpn, 9 * j);
  }

  lemma LowIs(a: nat, n: nat)
    ensures Low(a, n) == a % P(n)
  {
  }

  /** One step of the walk, by the bits of the entry in memory. */
  lemma WalkStep(v: View, env: Env, mem: Memory, access: Access, vpn: nat, j: nat, table: nat)
    requires |v.regs.addr| == 16 && j < 4
    ensures var a := table + 8 * And(Shr(vpn, 9 * j), 0x1FF);
            var pte := Load(mem, a, 8);
            Walk(v, env, mem, access, vpn, j, table) ==
              if !(Allowed(v.regs, env.physLen, v.dataPriv, R, a, 8) && env.region(a / 0x1000) == Ram) then AccessFault
              else if LeafBits(v, access, if access == Code then v.codePriv else v.dataPriv, pte, j)
              then Paddr(LeafBase(pte, vpn, j))
              else if And(pte, 0xF) == 1 && j > 0 then Walk(v, env, mem, access, vpn, j - 1, PteBase(pte))
              else PageFault
  {
    hide P, Shl, Shr, Low, And, LeafBits, LeafPermits, LeafBase, PteBase, Allowed, Xwr, Load;
    SmallPowers();
    AndMask(Shr(vpn, 9 * j), 9);
    var pte := Load(mem, PteAddr(table, vpn, j), 8);
    LeafLaw(v, access, PrivOf(v, PermOf(access)), pte, j);
    LeafLaw(v, access, if access == Code then v.codePriv else v.dataPriv, pte, j);
    NextTableBits(pte);
  }

  lemma NextTableBits(pte: nat)
    ensures And(pte, 0xF) == 1 <==> pte % 2 == 1 && Xwr(pte) == 0
  {
    assert P(4) == 16;
    LowIs(pte, 4);
    hide P, And, Low, Shr;
    AndMask(pte, 4);
    var y := pte / 2;
    DivUnique(pte, 16, y / 8, pte % 2 + 2 * (y % 8));
  }

  // ----- which privilege counts

  /** Loads and stores do not depend on the privilege of code. */
  lemma {:induction false} DataWalk(v: View, c: nat, env: Env, mem: Memory, access: Access, vpn: nat, j: nat,
                                    table: nat)
    requires |v.regs.addr| == 16 && access != Code
    ensures Walk(v.(codePriv := c), env, mem, access, vpn, j, table) == Walk(v, env, mem, access, vpn, j, table)
  {
    hide Allowed, Xwr, LeafBase, PteBase, Load, Low, Shr, P;
    if j > 0 {
      DataWalk(v, c, env, mem, access, vpn, j - 1, PteBase(Load(mem, PteAddr(table, vpn, j), 8)));
    }
  }

  lemma DataPrivilege(v: View, c: nat, env: Env, mem: Memory, access: Access, vaddr: nat, size: nat)
    requires ValidView(v) && IsSize(size) && access != Code && c <= 3
    ensures Reference(v.(codePriv := c), env, mem, access, vaddr, size) == Reference(v, env, mem, access, vaddr, size)
  {
    hide Allowed, ValidRegs, Walk, SatpMode, Root, Canonical, P;
    assert |v.regs.addr| == 16 by { Hart.ViewAddr(v); }
    if Translated(v, access) {
      DataWalk(v, c, env, mem, access, vaddr / PG, SatpMode(v.satp) - 6, Root(v.satp));
    }
  }

  /** Fetches depend on the privilege of data only through the PMP check of the
      page-table words, where only machine mode is different. */
  lemma {:induction false} FetchWalk(v: View, d: nat, env: Env, mem: Memory, vpn: nat, j: nat, table: nat)
    requires |v.regs.addr| == 16 && v.dataPriv < 3 && d < 3
    ensures Walk(v.(dataPriv := d), env, mem, Code, vpn, j, table) == Walk(v, env, mem, Code, vpn, j, table)
  {
    hide Allowed, Xwr, LeafBase, PteBase, Load, Low, Shr, P;
    LowPrivileges(v.regs, env.physLen, v.dataPriv, d, R, PteAddr(table, vpn, j), 8);
    if j > 0 {
      FetchWalk(v, d, env, mem, vpn, j - 1, PteBase(Load(mem, PteAddr(table, vpn, j), 8)));
    }
  }

  lemma FetchPrivilege(v: View, d: nat, env: Env, mem: Memory, vaddr: nat, size: nat)
    requires ValidView(v) && IsSize(size) && d <= 3
    requires v.codePriv == 3 || SatpMode(v.satp) == 0 || (v.dataPriv < 3 && d < 3)
    ensures Reference(v.(dataPriv := d), env, mem, Code, vaddr, size) == Reference(v, env, mem, Code, vaddr, size)
  {
    hide Allowed, ValidRegs, Walk, SatpMode, Root, Canonical, P;
    assert |v.regs.addr| == 16 by { Hart.ViewAddr(v); }
    if Translated(v, Code) {
      FetchWalk(v, d, env, mem, vaddr / PG, SatpMode(v.satp) - 6, Root(v.satp));
    }
  }

  /** A hart's loads and stores are those of MPP when MPRV is set, and of its own
      privilege otherwise. */
  lemma HartData(h: Hart, access: Access, vaddr: nat, size: nat)
    requires h.Valid() && IsSize(size) && access != Code
    ensures var p := if h.mstatus.mprv then h.mstatus.mpp else h.priv;
            var v := View(p, p, h.mstatus.sum, h.mstatus.mxr, h.satp, h.regs);
            && ValidView(v)
            && Reference(h.TheView(), h.env, h.mem, access, vaddr, size) == Reference(v, h.env, h.mem, access, vaddr,
               size)
  {
    hide Reference, ValidRegs, SatpMode, P, Decoded, Coherent;
    var p := if h.mstatus.mprv then h.mstatus.mpp else h.priv;
    DataPrivilege(h.TheView(), p, h.env, h.mem, access, vaddr, size);
  }

  /** A hart's fetches are those of its own privilege, whatever MPRV and MPP are;
      unless a fetch below machine mode is translated and MPRV makes the page-table
      reads those of machine mode. */
  lemma HartFetch(h: Hart, vaddr: nat)
    requires h.Valid()
    requires h.priv == 3 || SatpMode(h.satp) == 0 || !h.mstatus.mprv || h.mstatus.mpp < 3
    ensures var v := View(h.priv, h.priv, h.mstatus.sum, h.mstatus.mxr, h.satp, h.regs);
            && ValidView(v)
            && Reference(h.TheView(), h.env, h.mem, Code, vaddr, 2) == Reference(v, h.env, h.mem, Code, vaddr, 2)
  {
    hide Reference, ValidRegs, SatpMode, P, Decoded, Coherent;
    FetchPrivilege(h.TheView(), h.priv, h.env, h.mem, vaddr, 2);
  }

  // ----- the exception

  /** Every page-table word of the walk may be read. */
  ghost predicate TablesOpen(v: View, env: Env, mem: Memory, vpn: nat, j: nat, table: nat)
    requires |v.regs.addr| == 16
  {
    var a := PteAddr(table, vpn, j);
    var pte := Load(mem, a, 8);
    && Allowed(v.regs, env.physLen, v.dataPriv, R, a, 8)
    && (pte % 2 == 1 && Xwr(pte) == 0 && j > 0 ==> TablesOpen(v, env, mem, vpn, j - 1, PteBase(pte)))
  }

  /** Machine mode may do what the other modes may. */
  lemma MachineMay(r: Regs, physLen: nat, p: nat, perm: Perm, paddr: nat, size: nat)
    requires |r.addr| == 16 && p < 3 && Allowed(r, physLen, p, perm, paddr, size)
    ensures Allowed(r, physLen, 3, perm, paddr, size)
  {
    hide P, Touches, RangeOf, IsOn, Grants, Locked, CfgByte;
    if i: nat :| Matches(r, i, paddr, size) {
      var k: nat :| IsLowest(r, k, paddr, size) && Lets(CfgByte(r, k), p, perm);
      assert Lets(CfgByte(r, k), 3, perm);
    }
  }

  /** Reading the tables with a lower privilege either makes no difference or faults. */
  lemma {:induction false} LowerWalk(v: View, d: nat, env: Env, mem: Memory, vpn: nat, j: nat, table: nat)
    requires |v.regs.addr| == 16 && v.dataPriv == 3 && d < 3
    ensures var w := v.(dataPriv := d);
            Walk(w, env, mem, Code, vpn, j, table) ==
              if TablesOpen(w, env, mem, vpn, j, table) then Walk(v, env, mem, Code, vpn, j, table) else AccessFault
  {
    hide Allowed, Xwr, LeafBase, PteBase, Load, Low, Shr, P;
    var a := PteAddr(table, vpn, j);
    if Allowed(v.regs, env.physLen, d, R, a, 8) {
      MachineMay(v.regs, env.physLen, d, R, a, 8);
    }
    if j > 0 {
      LowerWalk(v, d, env, mem, vpn, j - 1, PteBase(Load(mem, a, 8)));
    }
  }

  /** Below machine mode, with MPRV set and MPP machine mode, a translated fetch is
      that of the hart's own privilege exactly when that may read the tables, or the
      fetch faults anyway. */
  lemma HartFetchExactly(h: Hart, vaddr: nat)
    requires h.Valid() && h.priv < 3 && h.mstatus.mprv && h.mstatus.mpp == 3 && vaddr % 2 == 0
    requires SatpMode(h.satp) != 0 && Canonical(vaddr / PG, SatpMode(h.satp) - 5)
    ensures var v := View(h.priv, h.priv, h.mstatus.sum, h.mstatus.mxr, h.satp, h.regs);
            var made := Reference(h.TheView(), h.env, h.mem, Code, vaddr, 2);
            made == Reference(v, h.env, h.mem, Code, vaddr, 2) <==>
              || made == AccessFaulted
              || TablesOpen(v, h.env, h.mem, vaddr / PG, SatpMode(h.satp) - 6, Root(h.satp))
  {
    hide Allowed, ValidRegs, Walk, TablesOpen, SatpMode, Root, Canonical, P, Decoded, Coherent;
    AddrCount(h.regs);
    LowerWalk(h.TheView(), h.priv, h.env, h.mem, vaddr / PG, SatpMode(h.satp) - 6, Root(h.satp));
  }
}
