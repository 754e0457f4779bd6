/** Cache entries of the hart's memory port: the reference access without any
    cache, what makes an entry right, and what a hit on a right entry gives. */
module Tlb {
  import opened Bits
  import opened Pmp
  import opened Paging

  const TLB_SIZE: nat := 256
  const INVALID: nat := 0xFFFF_FFFF_FFFF_FFFF

  datatype Mstatus = Mstatus(sie: bool, mie: bool, spie: bool, mpie: bool, spp: nat, mpp: nat,
                             mprv: bool, sum: bool, mxr: bool, tvm: bool)

  datatype TlbEntry = TlbEntry(vaddr: nat, addend: nat)

  /** What becomes of an access: a fault, a RAM address, or an address outside RAM. */
  datatype Outcome = Misaligned | PageFaulted | AccessFaulted | InRam(pa: nat) | Outside(pa: nat)

  predicate IsSize(n: nat) { n in {1, 2, 4, 8} }

  // ----- the reference: an access without any cache

  ghost function Reference(v: View, env: Env, mem: Memory, access: Access, vaddr: nat, size: nat): Outcome
    requires ValidView(v) && IsSize(size)
  {
    if vaddr % size != 0 then Misaligned
    else match Translate(v, env, mem, access, vaddr)
      case PageFault => PageFaulted
      case AccessFault => AccessFaulted
      case Paddr(pa) => Checked(v, env, access, pa, size)
  }

  ghost function Checked(v: View, env: Env, access: Access, pa: nat, size: nat): Outcome
    requires ValidView(v)
  {
    var perm := PermOf(access);
    if !Allowed(v.regs, env.physLen, PrivOf(v, perm), perm, pa, size) then AccessFaulted
    else if env.region(pa / PG) == Ram then InRam(pa)
    else if access == Code then AccessFaulted
    else Outside(pa)
  }

  // ----- page-granular protection

  /** Every range that is switched on starts and ends at a page boundary. */
  ghost predicate PageGranular(r: Regs)
  {
    |r.addr| == 16 && forall i :: 0 <= i < 16 && IsOn(r, i) ==> RangeOf(r, i).lo % PG == 0 && RangeOf(r, i).hi % PG == 0
  }

  /** Two accesses inside one page. */
  predicate SamePage(p: nat, n: nat, q: nat, m: nat)
  {
    p / PG == q / PG && 0 < n && 0 < m && p % PG + n <= PG && q % PG + m <= PG
  }

  lemma TouchesPage(range: Range, p: nat, n: nat, q: nat, m: nat)
    requires range.lo % PG == 0 && range.hi % PG == 0 && SamePage(p, n, q, m)
    ensures Touches(range, p, n) <==> Touches(range, q, m)
  {
    var a, b := range.lo / PG, range.hi / PG;
    assert range.lo == PG * a && range.hi == PG * b;
    assert Touches(range, p, n) <==> a <= p / PG < b;
    assert Touches(range, q, m) <==> a <= q / PG < b;
  }

  /** Page-granular protection gives one verdict per page. */
  lemma PageVerdict(r: Regs, physLen: nat, priv: nat, perm: Perm, p: nat, n: nat, q: nat, m: nat)
    requires |r.addr| == 16 && PageGranular(r) && physLen >= 12 && SamePage(p, n, q, m)
    ensures Allowed(r, physLen, priv, perm, p, n) <==> Allowed(r, physLen, priv, perm, q, m)
  {
    hide P, RangeOf, ModeOf, CfgByte, Lets;
    forall i: nat
      ensures Matches(r, i, p, n) <==> Matches(r, i, q, m)
    {
      if i < 16 && IsOn(r, i) {
        TouchesPage(RangeOf(r, i), p, n, q, m);
      }
    }
    assert forall i: nat :: IsLowest(r, i, p, n) <==> IsLowest(r, i, q, m);
    assert p < P(physLen) <==> q < P(physLen) by {
      ShlP(physLen - 12, 12);
      Pages(P(physLen - 12));
    }
  }

  /** Only entry 0 is on: four bytes at 0x1000, open to every access. */
  ghost predicate IsFine(r: Regs)
  {
    && |r.addr| == 16 && CfgByte(r, 0) == 0x17 && r.addr[0] == 0x400
    && forall i :: 0 < i < 16 ==> CfgByte(r, i) == 0
  }

  lemma FineMatches(r: Regs, paddr: nat, size: nat)
    requires IsFine(r)
    ensures forall i: nat :: Matches(r, i, paddr, size) <==> i == 0 && Touches(Range(0x1000, 0x1004), paddr, size)
  {
    hide NapotRange;
    assert RangeOf(r, 0) == Range(0x1000, 0x1004);
    hide RangeOf, Touches;
    forall i: nat | 0 < i < 16
      ensures !Matches(r, i, paddr, size)
    {
      assert CfgByte(r, i) == 0;
    }
  }

  /** Without page granularity one page can hold both verdicts, and the test of
      the whole page for execution only asks the lowest entry that touches it. */
  lemma FinePmpSplitsPage(r: Regs, physLen: nat, perm: Perm, size: nat)
    requires IsFine(r) && physLen >= 16 && 0 < size <= 4
    ensures !PageGranular(r)
    ensures Allowed(r, physLen, 0, perm, 0x1000, size) && !Allowed(r, physLen, 0, perm, 0x1004, size)
    ensures Allowed(r, physLen, 0, perm, 0x1000, PG)
  {
    hide P, Matches, NapotRange;
    Half16();
    PMono(16, physLen);
    FineMatches(r, 0x1000, size);
    FineMatches(r, 0x1004, size);
    FineMatches(r, 0x1000, PG);
    assert Lets(CfgByte(r, 0), 0, perm);
    assert Touches(Range(0x1000, 0x1004), 0x1000, size) && Touches(Range(0x1000, 0x1004), 0x1000, PG);
    assert !Touches(Range(0x1000, 0x1004), 0x1004, size);
    assert IsLowest(r, 0, 0x1000, size) && IsLowest(r, 0, 0x1000, PG);
    NotGranular(r);
  }

  lemma NotGranular(r: Regs)
    requires IsFine(r)
    ensures !PageGranular(r)
  {
    assert IsOn(r, 0) && RangeOf(r, 0).hi == 0x1004;
  }

  // ----- cache entries

  /** The walk part of an entry: the page is mapped to RAM, and adding the addend
      to an address of the page gives its physical address. */
  ghost predicate Mapped(v: View, env: Env, mem: Memory, access: Access, tables: set<nat>, e: TlbEntry)
    requires ValidView(v)
  {
    var vpn := e.vaddr / PG;
    var base := PageBase(v, env, mem, access, vpn);
    && e.vaddr % PG == 0 && e.vaddr < WORD && e.addend < WORD
    && base.Paddr? && env.region(base.pa / PG) == Ram
    && (e.addend + e.vaddr) % WORD == base.pa
    && PageWords(v, env, mem, access, vpn) <= tables
  }

  /** The PMP part: the page may be accessed. */
  ghost predicate Permitted(v: View, env: Env, mem: Memory, access: Access, e: TlbEntry)
    requires ValidView(v)
  {
    var perm := PermOf(access);
    var base := PageBase(v, env, mem, access, e.vaddr / PG);
    base.Paddr? && Allowed(v.regs, env.physLen, PrivOf(v, perm), perm, base.pa, 1)
  }

  /** An entry is right: the walk part always, the PMP part when protection is
      page granular. */
  ghost predicate EntryOk(v: View, env: Env, mem: Memory, access: Access, tables: set<nat>, e: TlbEntry)
    requires ValidView(v)
  {
    Mapped(v, env, mem, access, tables, e) && (PageGranular(v.regs) ==> Permitted(v, env, mem, access, e))
  }

  ghost predicate Coherent(v: View, env: Env, mem: Memory, access: Access, tables: set<nat>, tlb: seq<TlbEntry>)
    requires ValidView(v)
  {
    forall i :: 0 <= i < |tlb| && tlb[i].vaddr != INVALID ==> EntryOk(v, env, mem, access, tables, tlb[i])
  }

  /** The entry a completed slow access writes. */
  function Filled(vaddr: nat, pa: nat): TlbEntry
  {
    TlbEntry(vaddr / PG * PG, (pa - vaddr) % WORD)
  }

  /** The tag a lookup compares with: the offset bits above the access size are
      masked out. */
  function Tag(vaddr: nat, size: nat): nat
    requires size > 0
  {
    vaddr / PG * PG + vaddr % size
  }

  lemma AddWrap(x: nat, a: nat, o: nat, pa: nat)
    requires (x + a) % WORD == pa && pa + o < WORD
    ensures (x + (a + o)) % WORD == pa + o
  {
    var q := (x + a) / WORD;
    DivUnique(x + (a + o), WORD, q, pa + o);
  }

  lemma InPage(vaddr: nat, size: nat)
    requires IsSize(size) && vaddr % size == 0
    ensures vaddr % PG + size <= PG && Tag(vaddr, size) == vaddr - vaddr % PG
  {
  }

  /** What a hit gives against the reference: the same address, and the same
      verdict exactly when the PMP allows this very access. */
  lemma HitVerdict(v: View, env: Env, mem: Memory, access: Access, tables: set<nat>, e: TlbEntry, vaddr: nat, size: nat)
    requires ValidView(v) && IsSize(size) && vaddr % size == 0 && vaddr < WORD
    requires Mapped(v, env, mem, access, tables, e) && e.vaddr == Tag(vaddr, size)
    ensures var pa, perm := (e.addend + vaddr) % WORD, PermOf(access);
            && pa % size == 0
            && Reference(v, env, mem, access, vaddr, size) ==
                 if Allowed(v.regs, env.physLen, PrivOf(v, perm), perm, pa, size) then InRam(pa) else AccessFaulted
  {
    hide ValidRegs, P, PageBase, PageWords, Allowed, SatpMode;
    InPage(vaddr, size);
    var o := vaddr % PG;
    var vpn := vaddr / PG;
    assert e.vaddr == PG * vpn && e.vaddr / PG == vpn;
    PageBaseAligned(v, env, mem, access, vpn);
    var base := PageBase(v, env, mem, access, vpn);
    SameOffset(base.pa, o, size);
    AddWrap(e.addend, e.vaddr, o, base.pa);
    OffsetAligned(base.pa, vaddr, size);
  }

  /** With page-granular protection a hit is the reference. */
  lemma HitIsReference(v: View, env: Env, mem: Memory, access: Access, tables: set<nat>, e: TlbEntry, vaddr: nat,
                       size: nat)
    requires ValidView(v) && IsSize(size) && vaddr % size == 0 && vaddr < WORD && env.physLen >= 12
    requires PageGranular(v.regs) && EntryOk(v, env, mem, access, tables, e) && e.vaddr == Tag(vaddr, size)
    ensures Reference(v, env, mem, access, vaddr, size) == InRam((e.addend + vaddr) % WORD)
  {
    hide ValidView, P, PageBase, PageWords, Allowed, PageGranular, Reference, SamePage;
    HitVerdict(v, env, mem, access, tables, e, vaddr, size);
    InPage(vaddr, size);
    PageStart(vaddr);
    var o := vaddr % PG;
    PageBaseAligned(v, env, mem, access, vaddr / PG);
    var base := PageBase(v, env, mem, access, vaddr / PG);
    var perm := PermOf(access);
    SameOffset(base.pa, o, size);
    EntryVerdict(v, env, PrivOf(v, perm), perm, base.pa, o, size);
    AddWrap(e.addend, e.vaddr, o, base.pa);
  }

  lemma OffsetAligned(base: nat, vaddr: nat, size: nat)
    requires base % PG == 0 && IsSize(size) && vaddr % size == 0
    ensures (base + vaddr % PG) % size == 0
  {
    var k := base / PG - vaddr / PG;
    assert base + vaddr % PG == vaddr + PG * k;
    var m := if size == 1 then 0x1000 else if size == 2 then 0x800 else if size == 4 then 0x400 else 0x200;
    SizeDivides(vaddr, size, m, k);
  }

  lemma SizeDivides(vaddr: nat, size: nat, m: nat, k: int)
    requires size > 0 && vaddr % size == 0 && size * m == PG
    ensures (vaddr + PG * k) % size == 0
  {
    var q := vaddr / size;
    assert vaddr == q * size;
    MulAssoc(size, m, k);
    DivUnique(vaddr + PG * k, size, q + m * k, 0);
  }

  lemma SameOffset(base: nat, o: nat, size: nat)
    requires base % PG == 0 && o < PG && 0 < size && o + size <= PG && base < WORD
    ensures SamePage(base, 1, base + o, size) && base + o < WORD && (base + o) / PG == base / PG
  {
    assert WORD % PG == 0;
  }

  lemma RamFacts(v: View, env: Env, mem: Memory, access: Access, vaddr: nat, size: nat, pa: nat)
    requires ValidView(v) && IsSize(size) && Reference(v, env, mem, access, vaddr, size) == InRam(pa)
    ensures var perm := PermOf(access);
            && PageBase(v, env, mem, access, vaddr / PG) == Paddr(pa - vaddr % PG)
            && Allowed(v.regs, env.physLen, PrivOf(v, perm), perm, pa, size)
            && env.region(pa / PG) == Ram
  {
    hide ValidRegs, P, PageBase, PageWords, Allowed, SatpMode;
  }

  lemma PageStart(vaddr: nat)
    ensures var s := vaddr - vaddr % PG; s == PG * (vaddr / PG) && s / PG == vaddr / PG && s % PG == 0
  {
  }

  /** A completed slow access makes a right entry. */
  lemma FillIsOk(v: View, env: Env, mem: Memory, access: Access, tables: set<nat>, vaddr: nat, size: nat, pa: nat)
    requires ValidView(v) && IsSize(size) && vaddr % size == 0 && vaddr < WORD && env.physLen >= 12
    requires Reference(v, env, mem, access, vaddr, size) == InRam(pa)
    ensures EntryOk(v, env, mem, access, tables + PageWords(v, env, mem, access, vaddr / PG), Filled(vaddr, pa))
  {
    hide ValidView, P, PageBase, PageWords, Allowed, PageGranular, Reference, SamePage, Tag;
    InPage(vaddr, size);
    PageStart(vaddr);
    RamFacts(v, env, mem, access, vaddr, size, pa);
    var o := vaddr % PG;
    PageBaseAligned(v, env, mem, access, vaddr / PG);
    var base := pa - o;
    SameOffset(base, o, size);
    var perm := PermOf(access);
    if PageGranular(v.regs) {
      EntryVerdict(v, env, PrivOf(v, perm), perm, base, o, size);
    }
    SubWrap(pa, vaddr, o, base);
  }

  lemma EntryVerdict(v: View, env: Env, priv: nat, perm: Perm, base: nat, o: nat, size: nat)
    requires ValidView(v) && PageGranular(v.regs) && env.physLen >= 12 && SamePage(base, 1, base + o, size)
    ensures base / PG == (base + o) / PG
    ensures Allowed(v.regs, env.physLen, priv, perm, base, 1) <==>
              Allowed(v.regs, env.physLen, priv, perm, base + o, size)
  {
    hide ValidRegs, Allowed, PageGranular, SatpMode, P;
    AddrCount(v.regs);
    PageVerdict(v.regs, env.physLen, priv, perm, base, 1, base + o, size);
  }

  lemma SubWrap(pa: int, vaddr: nat, o: nat, base: nat)
    requires o <= vaddr && pa == base + o && base < WORD
    ensures ((pa - vaddr) % WORD + (vaddr - o)) % WORD == base
  {
    var q := (pa - vaddr) / WORD;
    assert (pa - vaddr) % WORD == pa - vaddr - q * WORD;
    DivUnique((pa - vaddr) % WORD + (vaddr - o), WORD, -q, base);
  }

  /** A store to none of the words behind the entries keeps them. */
  lemma StoreKeeps(v: View, env: Env, mem: Memory, access: Access, tables: set<nat>, tlb: seq<TlbEntry>, pa: nat,
                   size: nat, val: nat)
    requires ValidView(v) && IsSize(size) && pa % size == 0 && pa / 8 !in tables
    requires Coherent(v, env, mem, access, tables, tlb)
    ensures Coherent(v, env, Store(mem, pa, size, val), access, tables, tlb)
  {
    hide ValidRegs, P, PageBase, PageWords, Allowed, SatpMode, Load, Store;
    var mem' := Store(mem, pa, size, val);
    forall i | 0 <= i < |tlb| && tlb[i].vaddr != INVALID
      ensures EntryOk(v, env, mem', access, tables, tlb[i])
    {
      var vpn := tlb[i].vaddr / PG;
      assert EntryOk(v, env, mem, access, tables, tlb[i]);
      forall w | w in PageWords(v, env, mem, access, vpn)
        ensures Load(mem', 8 * w, 8) == Load(mem, 8 * w, 8)
      {
        OtherWord(mem, pa, size, val, w);
      }
      PageFrame(v, env, mem, mem', access, vpn);
    }
  }

  lemma MoreTables(v: View, env: Env, mem: Memory, access: Access, tables: set<nat>, more: set<nat>, tlb: seq<TlbEntry>)
    requires ValidView(v) && Coherent(v, env, mem, access, tables, tlb)
    ensures Coherent(v, env, mem, access, tables + more, tlb)
  {
    hide ValidRegs, P, PageBase, PageWords, Allowed, SatpMode;
    forall i | 0 <= i < |tlb| && tlb[i].vaddr != INVALID
      ensures EntryOk(v, env, mem, access, tables + more, tlb[i])
    {
      assert EntryOk(v, env, mem, access, tables, tlb[i]);
    }
  }

  // ----- lookups

  /** The direct-mapped place of an address. */
  function Slot(vaddr: nat): (i: nat)
    ensures i < TLB_SIZE
  {
    vaddr / PG % TLB_SIZE
  }

  predicate Hit(tlb: seq<TlbEntry>, vaddr: nat, size: nat)
    requires |tlb| == TLB_SIZE && size > 0
  {
    vaddr % size == 0 && tlb[Slot(vaddr)].vaddr == Tag(vaddr, size)
  }

  /** The outcome of an access through a cache. A miss is the reference. A hit is
      whatever the entry says; with entries that are not stale it is the reference
      exactly when the PMP allows this very access, and so always when protection
      is page granular. */
  ghost predicate Looked(v: View, env: Env, mem: Memory, access: Access, tlb: seq<TlbEntry>, stale: bool,
                         vaddr: nat, size: nat, o: Outcome)
    requires ValidView(v) && IsSize(size) && |tlb| == TLB_SIZE
  {
    var ref, perm := Reference(v, env, mem, access, vaddr, size), PermOf(access);
    && (!Hit(tlb, vaddr, size) ==> o == ref)
    && (Hit(tlb, vaddr, size) ==> o == InRam((tlb[Slot(vaddr)].addend + vaddr) % WORD))
    && (Hit(tlb, vaddr, size) && !stale ==>
          && (o == ref <==> Allowed(v.regs, env.physLen, PrivOf(v, perm), perm, o.pa, size))
          && (o != ref ==> ref == AccessFaulted))
    && (!stale && PageGranular(v.regs) ==> o == ref)
  }

  /** Does the slow path cache the page of pa? For code it asks the PMP for the
      whole page first. */
  ghost predicate Caches(v: View, env: Env, access: Access, pa: nat)
    requires |v.regs.addr| == 16
  {
    access == Code ==> Allowed(v.regs, env.physLen, v.codePriv, X, pa / PG * PG, PG)
  }

  /** The cache after the access. */
  ghost function After(v: View, env: Env, access: Access, tlb: seq<TlbEntry>, vaddr: nat, size: nat,
                       o: Outcome): seq<TlbEntry>
    requires ValidView(v) && size > 0 && |tlb| == TLB_SIZE
  {
    if !Hit(tlb, vaddr, size) && o.InRam? && Caches(v, env, access, o.pa)
    then tlb[Slot(vaddr) := Filled(vaddr, o.pa)] else tlb
  }

  /** An address of the page hits the entry just filled in for it. */
  lemma FilledHits(tlb: seq<TlbEntry>, vaddr: nat, pa: nat, other: nat, size: nat)
    requires |tlb| == TLB_SIZE && IsSize(size) && other % size == 0 && other / PG == vaddr / PG
    requires vaddr <= other < WORD && pa + (other - vaddr) < WORD
    requires tlb[Slot(vaddr)] == Filled(vaddr, pa)
    ensures Hit(tlb, other, size) && (tlb[Slot(other)].addend + other) % WORD == pa + (other - vaddr)
  {
    InPage(other, size);
    PageStart(other);
    var q := (pa - vaddr) / WORD;
    assert (pa - vaddr) % WORD == pa - vaddr - q * WORD;
    DivUnique((pa - vaddr) % WORD + other, WORD, -q, pa + (other - vaddr));
  }
}
