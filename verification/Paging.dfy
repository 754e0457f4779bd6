/** Address translation: physical memory, the Sv39/Sv48 walk as coded, the PMP
    check and the memory map together. */
module Paging {
  import opened Bits
  import opened Pmp

  const PG: nat := 0x1000
  const WORD: nat := 0x1_0000_0000_0000_0000
  const PRV_S: nat := 1

  datatype Access = Read | Write | Code

  /** What the memory map has at a page. */
  datatype Region = Ram | Device | Unmapped

  /** The parts of the machine that never change. */
  datatype Env = Env(physLen: nat, region: nat -> Region)

  /** Everything in the hart that translation and protection depend on: the
      privilege for data and for code, SUM, MXR, satp and the PMP registers. */
  datatype View = View(dataPriv: nat, codePriv: nat, sum: bool, mxr: bool, satp: nat, regs: Regs)

  datatype Translation = Paddr(pa: nat) | PageFault | AccessFault

  /** Byte-addressed memory; an address never written reads as zero. */
  type Memory = map<nat, nat>

  function ByteAt(mem: Memory, a: nat): nat { if a in mem then mem[a] else 0 }

  function Load(mem: Memory, a: nat, n: nat): nat
    decreases n
  {
    if n == 0 then 0 else ByteAt(mem, a) + 256 * Load(mem, a + 1, n - 1)
  }

  function Store(mem: Memory, a: nat, n: nat, v: nat): Memory
    decreases n
  {
    if n == 0 then mem else Store(mem[a := v % 256], a + 1, n - 1, v / 256)
  }

  lemma {:induction false} LoadFrame(mem: Memory, mem': Memory, a: nat, n: nat)
    requires forall b: nat :: a <= b < a + n ==> ByteAt(mem, b) == ByteAt(mem', b)
    ensures Load(mem, a, n) == Load(mem', a, n)
    decreases n
  {
    if n > 0 {
      LoadFrame(mem, mem', a + 1, n - 1);
    }
  }

  lemma {:induction false} StoreFrame(mem: Memory, a: nat, n: nat, v: nat, b: nat)
    requires b < a || b >= a + n
    ensures ByteAt(Store(mem, a, n, v), b) == ByteAt(mem, b)
    decreases n
  {
    if n > 0 {
      StoreFrame(mem[a := v % 256], a + 1, n - 1, v / 256, b);
    }
  }

  /** What is stored is what is loaded. */
  lemma {:induction false} LoadStored(mem: Memory, a: nat, n: nat, v: nat)
    requires v < P(8 * n)
    ensures Load(Store(mem, a, n, v), a, n) == v
    decreases n
  {
    if n > 0 {
      assert P(8 * n) == 256 * P(8 * (n - 1)) by {
        assert P(8) == 256;
        PAdd(8, 8 * (n - 1));
      }
      var mem1 := mem[a := v % 256];
      LoadStored(mem1, a + 1, n - 1, v / 256);
      StoreFrame(mem1, a + 1, n - 1, v / 256, a);
    }
  }

  /** A store inside one aligned 8-byte word leaves every other word alone. */
  lemma OtherWord(mem: Memory, a: nat, n: nat, v: nat, w: nat)
    requires n in {1, 2, 4, 8} && a % n == 0 && w != a / 8
    ensures Load(Store(mem, a, n, v), 8 * w, 8) == Load(mem, 8 * w, 8)
  {
    InWord(a, n);
    var mem' := Store(mem, a, n, v);
    forall b: nat | 8 * w <= b < 8 * w + 8
      ensures ByteAt(mem', b) == ByteAt(mem, b)
    {
      StoreFrame(mem, a, n, v, b);
    }
    LoadFrame(mem', mem, 8 * w, 8);
  }

  lemma InWord(a: nat, n: nat)
    requires n in {1, 2, 4, 8} && a % n == 0
    ensures a % 8 + n <= 8
  {
  }

  // ----- the walk

  function PermOf(access: Access): Perm
  {
    match access
    case Read => R
    case Write => W
    case Code => X
  }

  function PrivOf(v: View, perm: Perm): nat { if perm == X then v.codePriv else v.dataPriv }

  ghost predicate ValidView(v: View)
  {
    && ValidRegs(v.regs) && v.dataPriv <= 3 && v.codePriv <= 3
    && v.satp < P(64) && SatpMode(v.satp) in {0, 8, 9}
  }

  function SatpMode(satp: nat): nat { Low(Shr(satp, 60), 4) }

  function Root(satp: nat): nat { PG * Low(satp, 44) }

  function Xwr(pte: nat): nat { pte / 2 % 8 }

  function PteBit(pte: nat, mask: nat): bool
    requires mask > 0
  {
    pte / mask % 2 == 1
  }

  /** (pte >> 10) << PG_SHIFT, in 64 bits */
  function PteBase(pte: nat): (b: nat)
    ensures b < WORD
  {
    pte / 1024 * PG % WORD
  }

  /** Does a leaf permit the access? */
  predicate LeafPermits(v: View, access: Access, priv: nat, pte: nat, j: nat)
  {
    var xwr := Xwr(pte);
    && xwr != 2 && xwr != 6
    && (if priv == PRV_S then PteBit(pte, 0x10) ==> v.sum else PteBit(pte, 0x10))
    && (match access
        case Read => xwr % 2 == 1 || (v.mxr && xwr / 4 == 1)
        case Write => xwr / 2 % 2 == 1
        case Code => xwr / 4 == 1)
    && Low(pte / 1024, j) == 0
    && PteBit(pte, 0x40)
    && (access == Write ==> PteBit(pte, 0x80))
  }

  /** The physical base of the 4 KiB page within a leaf of level j. */
  function LeafBase(pte: nat, vpn: nat, j: nat): nat
  {
    Shl(Shr(PteBase(pte), 12 + 9 * j), 12 + 9 * j) + PG * Low(vpn, 9 * j)
  }

  function PteAddr(table: nat, vpn: nat, j: nat): nat { table + 8 * Low(Shr(vpn, 9 * j), 9) }

  ghost predicate PteReadable(v: View, env: Env, a: nat)
    requires |v.regs.addr| == 16
  {
    Allowed(v.regs, env.physLen, v.dataPriv, R, a, 8) && env.region(a / PG) == Ram
  }

  /** The walk from a table of level j: the base of the physical page. */
  ghost function Walk(v: View, env: Env, mem: Memory, access: Access, vpn: nat, j: nat, table: nat): Translation
    requires |v.regs.addr| == 16
  {
    var a := PteAddr(table, vpn, j);
    if !PteReadable(v, env, a) then AccessFault
    else
      var pte := Load(mem, a, 8);
      if pte % 2 == 0 then PageFault
      else if Xwr(pte) != 0 then
        if LeafPermits(v, access, PrivOf(v, PermOf(access)), pte, j) then Paddr(LeafBase(pte, vpn, j)) else PageFault
      else if j == 0 then PageFault
      else Walk(v, env, mem, access, vpn, j - 1, PteBase(pte))
  }

  /** The 8-byte words the walk reads. */
  ghost function Words(v: View, env: Env, mem: Memory, vpn: nat, j: nat, table: nat): set<nat>
    requires |v.regs.addr| == 16
  {
    var a := PteAddr(table, vpn, j);
    var pte := Load(mem, a, 8);
    {a / 8} + if PteReadable(v, env, a) && pte % 2 == 1 && Xwr(pte) == 0 && j > 0
              then Words(v, env, mem, vpn, j - 1, PteBase(pte)) else {}
  }

  /** All bits of the address above the translated ones equal the top one. */
  predicate Canonical(vpn: nat, levels: nat)
    requires levels == 3 || levels == 4
  {
    vpn < P(9 * levels - 1) || vpn >= P(52) - P(9 * levels - 1)
  }

  ghost predicate Translated(v: View, access: Access)
  {
    PrivOf(v, PermOf(access)) != PRV_M && SatpMode(v.satp) != 0
  }

  /** The physical base of a virtual page. */
  ghost function PageBase(v: View, env: Env, mem: Memory, access: Access, vpn: nat): Translation
    requires ValidView(v)
  {
    if !Translated(v, access) then Paddr(PG * vpn)
    else
      var levels := SatpMode(v.satp) - 5;
      if !Canonical(vpn, levels) then PageFault
      else Walk(v, env, mem, access, vpn, levels - 1, Root(v.satp))
  }

  ghost function PageWords(v: View, env: Env, mem: Memory, access: Access, vpn: nat): set<nat>
    requires ValidView(v)
  {
    if Translated(v, access) && Canonical(vpn, SatpMode(v.satp) - 5)
    then Words(v, env, mem, vpn, SatpMode(v.satp) - 6, Root(v.satp)) else {}
  }

  ghost function Translate(v: View, env: Env, mem: Memory, access: Access, vaddr: nat): Translation
    requires ValidView(v)
  {
    AtOffset(PageBase(v, env, mem, access, vaddr / PG), vaddr % PG)
  }

  function AtOffset(base: Translation, offset: nat): Translation
  {
    if base.Paddr? then Paddr(base.pa + offset) else base
  }

  // ----- the walk as coded

  function SignExtend(x: nat, b: nat): nat
    requires 0 < b <= 64 && x < P(b)
  {
    PMono(b, 64);
    if x < P(b - 1) then x else x + (P(64) - P(b))
  }

  lemma Pages(a: nat)
    ensures Shr(a, 12) == a / PG && Low(a, 12) == a % PG && Shl(a, 12) == PG * a
  {
    assert P(12) == PG;
  }

  lemma CanonicalAsCoded(vaddr: nat, levels: nat)
    requires vaddr < P(64) && (levels == 3 || levels == 4)
    ensures var b := 12 + 9 * levels;
            SignExtend(Low(vaddr, b), b) == vaddr <==> Canonical(vaddr / PG, levels)
  {
    hide P, Shl, Shr, Low;
    var n := 9 * levels;
    var b := 12 + n;
    var q, x := Shr(vaddr, b), Low(vaddr, b);
    Split(vaddr, b);
    PStep(b - 1);
    PStep(n - 1);
    // P(b - 1) == PG * P(n - 1), P(64) == PG * P(52)
    assert P(b - 1) == PG * P(n - 1) by { ShlP(n - 1, 12); Pages(P(n - 1)); }
    assert P(64) == PG * P(52) by { ShlP(52, 12); Pages(P(52)); }
    var top := P(64 - b);
    assert Shl(top, b) == P(64) by { ShlP(64 - b, b); }
    ShlSub(top, 1, b);
    assert Shl(1, b) == P(b) by { ShlNone(1, 0); PZero(); ShlP(0, b); }
    ShlNone(0, b);
    PMono(b, 64);
    if vaddr < P(b - 1) {
      Small(vaddr, b);
    }
    if vaddr >= P(64) - P(b - 1) {
      SplitUnique(vaddr, b, top - 1, vaddr - (P(64) - P(b)));
    }
    assert vaddr < P(b - 1) <==> vaddr / PG < P(n - 1);
    assert vaddr >= P(64) - P(b - 1) <==> vaddr / PG >= P(52) - P(n - 1);
  }

  /** The address bits of level j, the offset below them, and the page. */
  lemma IndexAsCoded(vaddr: nat, j: nat)
    ensures Low(Shr(vaddr, 12 + 9 * j), 9) == Low(Shr(vaddr / PG, 9 * j), 9)
    ensures Low(vaddr, 12 + 9 * j) == PG * Low(vaddr / PG, 9 * j) + vaddr % PG
  {
    hide P, Shl, Shr, Low;
    Pages(vaddr);
    ShrShr(vaddr, 12, 9 * j);
    Pages(Low(vaddr / PG, 9 * j));
  }

  /** riscv_phys_read_u64, for RAM; fail is the second result. */
  method PhysRead64(v: View, env: Env, pmp: seq<Entry>, mem: Memory, a: nat) returns (pte: nat, fail: bool)
    requires ValidView(v) && pmp == Decoded(v.regs, 16)
    ensures fail <==> !PteReadable(v, env, a)
    ensures !fail ==> pte == Load(mem, a, 8)
  {
    hide Allowed, ValidRegs, Decoded;
    assert |v.regs.addr| == 16 by { AddrCount(v.regs); }
    var ok := AccessOk(v.regs, pmp, env.physLen, v.dataPriv, R, a, 8);
    if !ok || env.region(a / PG) != Ram {
      return 0, true;
    }
    return Load(mem, a, 8), false;
  }

  /** The checks on a leaf, in the order of the code. */
  method LeafCheck(v: View, access: Access, priv: nat, pte: nat, j: nat) returns (ok: bool)
    requires j < 4
    ensures ok <==> LeafPermits(v, access, priv, pte, j)
  {
    hide P, Low;
    var xwr := pte / 2 % 8;
    if xwr == 2 || xwr == 6 {
      return false;
    }
    if priv == PRV_S {
      if PteBit(pte, 0x10) && !v.sum {
        return false;
      }
    } else {
      if !PteBit(pte, 0x10) {
        return false;
      }
    }
    if v.mxr && xwr / 4 == 1 && xwr % 2 == 0 {
      xwr := xwr + 1;
    }
    var bit := match access case Read => xwr % 2 case Write => xwr / 2 % 2 case Code => xwr / 4 % 2;
    if bit == 0 {
      return false;
    }
    if Low(pte / 1024, j) != 0 {
      return false;
    }
    if !PteBit(pte, 0x40) {
      return false;
    }
    if access == Write && !PteBit(pte, 0x80) {
      return false;
    }
    return true;
  }

  /** The loop over the levels of the page table. */
  method WalkTables(v: View, env: Env, pmp: seq<Entry>, mem: Memory, vaddr: nat, access: Access, priv: nat, levels: nat)
    returns (r: Translation)
    requires ValidView(v) && pmp == Decoded(v.regs, 16) && 0 < levels <= 4 && priv == PrivOf(v, PermOf(access))
    ensures r == AtOffset(Walk(v, env, mem, access, vaddr / PG, levels - 1, Root(v.satp)), vaddr % PG)
  {
    hide P, Shl, Shr, Low, PteReadable, LeafPermits, Decoded, ValidRegs, PteBase, Xwr, Load, SatpMode, PrivOf;
    assert |v.regs.addr| == 16 by { AddrCount(v.regs); }
    var table: nat := PG * Low(v.satp, 44);
    ghost var vpn := vaddr / PG;
    ghost var goal := Walk(v, env, mem, access, vpn, levels - 1, Root(v.satp));
    for i := 0 to levels
      invariant goal == if i == levels then PageFault else Walk(v, env, mem, access, vpn, levels - 1 - i, table)
    {
      var j: nat := levels - 1 - i;
      IndexAsCoded(vaddr, j);
      var a := table + 8 * Low(Shr(vaddr, 12 + 9 * j), 9);
      var pte, fail := PhysRead64(v, env, pmp, mem, a);
      if fail {
        return AccessFault;
      }
      if pte % 2 == 0 {
        return PageFault;
      }
      var paddr := PteBase(pte);
      if Xwr(pte) != 0 {
        var ok := LeafCheck(v, access, priv, pte, j);
        if !ok {
          return PageFault;
        }
        return Paddr(Shl(Shr(paddr, 12 + 9 * j), 12 + 9 * j) + Low(vaddr, 12 + 9 * j));
      }
      table := paddr;
    }
    r := PageFault;
  }

  /** riscv_cpu_get_phys_addr */
  method GetPhysAddr(v: View, env: Env, pmp: seq<Entry>, mem: Memory, vaddr: nat, access: Access)
      returns (r: Translation)
    requires ValidView(v) && pmp == Decoded(v.regs, 16) && vaddr < P(64)
    ensures r == Translate(v, env, mem, access, vaddr)
  {
    hide P, Shr, Low, Walk, Canonical, Decoded, ValidRegs, SignExtend, Root;
    var priv := if access != Code then v.dataPriv else v.codePriv;
    if priv == PRV_M {
      return Paddr(vaddr);
    }
    var mode := Low(Shr(v.satp, 60), 4);
    if mode == 0 {
      return Paddr(vaddr);
    }
    var levels := mode - 8 + 3;
    CanonicalAsCoded(vaddr, levels);
    if SignExtend(Low(vaddr, 12 + 9 * levels), 12 + 9 * levels) != vaddr {
      return PageFault;
    }
    r := WalkTables(v, env, pmp, mem, vaddr, access, priv, levels);
  }

  // ----- the walk as a path

  /** The entry of table t at level j refers to table t'. */
  ghost predicate Points(v: View, env: Env, mem: Memory, vpn: nat, j: nat, t: nat, t': nat)
    requires |v.regs.addr| == 16
  {
    var a := PteAddr(t, vpn, j);
    var pte := Load(mem, a, 8);
    j > 0 && PteReadable(v, env, a) && pte % 2 == 1 && Xwr(pte) == 0 && PteBase(pte) == t'
  }

  /** The entry of table t at level j is a leaf that permits the access. */
  ghost predicate LeafAt(v: View, env: Env, mem: Memory, access: Access, vpn: nat, j: nat, t: nat, base: nat)
    requires |v.regs.addr| == 16
  {
    var a := PteAddr(t, vpn, j);
    var pte := Load(mem, a, 8);
    && PteReadable(v, env, a) && pte % 2 == 1 && Xwr(pte) != 0
    && LeafPermits(v, access, PrivOf(v, PermOf(access)), pte, j) && base == LeafBase(pte, vpn, j)
  }

  /** A chain of tables, one per level from j down, that ends in such a leaf. */
  ghost predicate IsPath(v: View, env: Env, mem: Memory, access: Access, vpn: nat, j: nat, tables: seq<nat>, base: nat)
    requires |v.regs.addr| == 16
  {
    && 0 < |tables| <= j + 1
    && (forall i :: 0 <= i < |tables| - 1 ==> Points(v, env, mem, vpn, j - i, tables[i], tables[i + 1]))
    && LeafAt(v, env, mem, access, vpn, j + 1 - |tables|, tables[|tables| - 1], base)
  }

  /** A page is mapped exactly when such a chain starts at the table. */
  lemma {:induction false} WalkIffPath(v: View, env: Env, mem: Memory, access: Access, vpn: nat, j: nat, table: nat,
                                       base: nat)
    requires |v.regs.addr| == 16
    ensures Walk(v, env, mem, access, vpn, j, table) == Paddr(base) <==>
              exists tables :: IsPath(v, env, mem, access, vpn, j, tables, base) && tables[0] == table
  {
    hide PteReadable, LeafPermits, LeafBase, Xwr, PteAddr, PteBase, Load;
    var pte := Load(mem, PteAddr(table, vpn, j), 8);
    if Walk(v, env, mem, access, vpn, j, table) == Paddr(base) {
      if Xwr(pte) != 0 {
        assert IsPath(v, env, mem, access, vpn, j, [table], base);
      } else {
        WalkIffPath(v, env, mem, access, vpn, j - 1, PteBase(pte), base);
        var rest :| IsPath(v, env, mem, access, vpn, j - 1, rest, base) && rest[0] == PteBase(pte);
        LongerPath(v, env, mem, access, vpn, j, table, rest, base);
      }
    }
    if exists tables :: IsPath(v, env, mem, access, vpn, j, tables, base) && tables[0] == table {
      var tables :| IsPath(v, env, mem, access, vpn, j, tables, base) && tables[0] == table;
      if |tables| > 1 {
        assert Points(v, env, mem, vpn, j - 0, tables[0], tables[0 + 1]);
        ShorterPath(v, env, mem, access, vpn, j, tables, base);
        WalkIffPath(v, env, mem, access, vpn, j - 1, PteBase(pte), base);
      }
    }
  }

  lemma LongerPath(v: View, env: Env, mem: Memory, access: Access, vpn: nat, j: nat, table: nat, rest: seq<nat>,
                   base: nat)
    requires |v.regs.addr| == 16 && j > 0 && IsPath(v, env, mem, access, vpn, j - 1, rest, base)
    requires Points(v, env, mem, vpn, j, table, rest[0])
    ensures IsPath(v, env, mem, access, vpn, j, [table] + rest, base)
  {
    hide Points, LeafAt;
    var tables := [table] + rest;
    forall i | 0 <= i < |tables| - 1
      ensures Points(v, env, mem, vpn, j - i, tables[i], tables[i + 1])
    {
      if i > 0 {
        assert Points(v, env, mem, vpn, j - 1 - (i - 1), rest[i - 1], rest[i - 1 + 1]);
      }
    }
  }

  lemma ShorterPath(v: View, env: Env, mem: Memory, access: Access, vpn: nat, j: nat, tables: seq<nat>, base: nat)
    requires |v.regs.addr| == 16 && |tables| > 1 && IsPath(v, env, mem, access, vpn, j, tables, base)
    ensures j > 0 && IsPath(v, env, mem, access, vpn, j - 1, tables[1..], base)
  {
    hide Points, LeafAt;
    var rest := tables[1..];
    forall i | 0 <= i < |rest| - 1
      ensures Points(v, env, mem, vpn, j - 1 - i, rest[i], rest[i + 1])
    {
      assert Points(v, env, mem, vpn, j - (i + 1), tables[i + 1], tables[i + 1 + 1]);
    }
  }

  // ----- what the walk depends on

  predicate SameWords(mem: Memory, mem': Memory, words: set<nat>)
  {
    forall w :: w in words ==> Load(mem', 8 * w, 8) == Load(mem, 8 * w, 8)
  }

  lemma PteWord(table: nat, vpn: nat, j: nat)
    requires table % PG == 0
    ensures PteAddr(table, vpn, j) == 8 * (PteAddr(table, vpn, j) / 8)
  {
    hide Low, Shr;
  }

  lemma PteBaseAligned(pte: nat)
    ensures PteBase(pte) % PG == 0
  {
    var x := pte / 1024 * PG;
    assert WORD == PG * 0x10_0000_0000_0000;
    assert x % WORD == x - x / WORD * WORD;
    assert PteBase(pte) == PG * (pte / 1024 - x / WORD * 0x10_0000_0000_0000);
    MultipleOfPage(pte / 1024 - x / WORD * 0x10_0000_0000_0000);
  }

  lemma MultipleOfPage(k: int)
    ensures PG * k % PG == 0
  {
  }

  /** The walk reads nothing but its words. */
  lemma {:induction false} WalkFrame(v: View, env: Env, mem: Memory, mem': Memory, access: Access, vpn: nat, j: nat,
                                     table: nat)
    requires |v.regs.addr| == 16 && table % PG == 0
    requires SameWords(mem, mem', Words(v, env, mem, vpn, j, table))
    ensures Walk(v, env, mem', access, vpn, j, table) == Walk(v, env, mem, access, vpn, j, table)
    ensures Words(v, env, mem', vpn, j, table) == Words(v, env, mem, vpn, j, table)
  {
    hide PteReadable, LeafPermits, LeafBase, Xwr, PteAddr, PteBase, Load;
    var a := PteAddr(table, vpn, j);
    PteWord(table, vpn, j);
    assert a / 8 in Words(v, env, mem, vpn, j, table);
    var pte := Load(mem, a, 8);
    if PteReadable(v, env, a) && pte % 2 == 1 && Xwr(pte) == 0 && j > 0 {
      PteBaseAligned(pte);
      WalkFrame(v, env, mem, mem', access, vpn, j - 1, PteBase(pte));
    }
  }

  lemma PageFrame(v: View, env: Env, mem: Memory, mem': Memory, access: Access, vpn: nat)
    requires ValidView(v)
    requires SameWords(mem, mem', PageWords(v, env, mem, access, vpn))
    ensures PageBase(v, env, mem', access, vpn) == PageBase(v, env, mem, access, vpn)
    ensures PageWords(v, env, mem', access, vpn) == PageWords(v, env, mem, access, vpn)
  {
    hide Low, Shr, P, Canonical, SameWords, Walk, Words, ValidRegs;
    AddrCount(v.regs);
    if Translated(v, access) && Canonical(vpn, SatpMode(v.satp) - 5) {
      MultipleOfPage(Low(v.satp, 44));
      WalkFrame(v, env, mem, mem', access, vpn, SatpMode(v.satp) - 6, Root(v.satp));
    }
  }

  /** A mapped page is a whole page of the 64-bit address space. */
  lemma {:induction false} WalkAligned(v: View, env: Env, mem: Memory, access: Access, vpn: nat, j: nat, table: nat)
    requires |v.regs.addr| == 16 && j < 4
    ensures var r := Walk(v, env, mem, access, vpn, j, table);
            r.Paddr? ==> r.pa % PG == 0 && r.pa < WORD
  {
    hide PteReadable, LeafPermits, LeafBase, Xwr, PteAddr, PteBase, Load;
    var pte := Load(mem, PteAddr(table, vpn, j), 8);
    if Xwr(pte) != 0 {
      LeafAligned(pte, vpn, j);
    } else if j > 0 {
      WalkAligned(v, env, mem, access, vpn, j - 1, PteBase(pte));
    }
  }

  lemma LeafAligned(pte: nat, vpn: nat, j: nat)
    requires j < 4
    ensures LeafBase(pte, vpn, j) % PG == 0 && LeafBase(pte, vpn, j) < WORD
  {
    hide P, Shl, Shr, Low, PteBase;
    var s := 12 + 9 * j;
    var q := Shr(PteBase(pte), s);
    ShlShl(q, 9 * j, 12);
    Pages(Shl(q, 9 * j));
    var x := Low(vpn, 9 * j);
    MultipleOfPage(Shl(q, 9 * j) + x);
    assert WORD == P(64) by { Word64(); }
    Split(PteBase(pte), s);
    ShlP(64 - s, s);
    ShrLt(PteBase(pte), s, P(64 - s));
    ShlCmp(q + 1, P(64 - s), s);
    ShlSucc(q, s);
    ShlP(9 * j, 12);
    Pages(P(9 * j));
  }

  lemma Half16()
    ensures P(16) == 0x1_0000
  {
    PAdd(8, 8);
    assert P(8) == 0x100;
  }

  lemma Word64()
    ensures P(64) == WORD
  {
    hide P;
    Half16();
    PAdd(32, 32);
    PAdd(16, 16);
  }

  lemma PageBaseAligned(v: View, env: Env, mem: Memory, access: Access, vpn: nat)
    requires ValidView(v) && vpn < WORD / PG
    ensures var r := PageBase(v, env, mem, access, vpn);
            r.Paddr? ==> r.pa % PG == 0 && r.pa < WORD
  {
    hide Low, Shr, P, Canonical, Walk, Words, ValidRegs;
    AddrCount(v.regs);
    MultipleOfPage(vpn);
    if Translated(v, access) {
      WalkAligned(v, env, mem, access, vpn, SatpMode(v.satp) - 6, Root(v.satp));
    }
  }
}
