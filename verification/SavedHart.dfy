/** The saved hart, the recovery program made for it, and the proof that running
    the program rebuilds it. */
module SavedHart {
  import Bits
  import opened Rv64
  import opened BootRom
  import opened Recovery

  /** csr holds the tracked CSRs, other the values of those that are written but
      not claimed; mtime and timecmp go to the CLINT. */
  datatype Saved = Saved(pc: nat, priv: nat, x: seq<nat>, fs: nat, csr: map<nat, nat>, other: map<nat, nat>,
                         fp: seq<nat>, clint: nat, timecmp: nat, mtime: nat)

  /** The value saved for a CSR. */
  function V(s: Saved, csr: nat): (v: nat)
    ensures v < W64
  {
    if Tracked(csr) && csr in s.csr then s.csr[csr] % W64
    else if !Tracked(csr) && csr in s.other then s.other[csr] % W64
    else 0
  }

  const DELEGATION: seq<nat> := [0x302, 0x303, 0x304, 0x305, 0x105]
  const ENABLES: seq<nat> := [0x320, 0x306, 0x106]
  const HANDLERS: seq<nat> := [0x340, 0x341, 0x342, 0x343, 0x140, 0x141, 0x142, 0x143, 0x344]

  function Csr64s(s: Saved, cs: seq<nat>): (r: seq<Item>)
    ensures |r| == |cs| && forall i :: 0 <= i < |r| ==> r[i] == Csr64(cs[i], V(s, cs[i]))
  {
    seq(|cs|, i requires 0 <= i < |cs| => Csr64(cs[i], V(s, cs[i])))
  }

  function Csr12s(s: Saved, cs: seq<nat>): (r: seq<Item>)
    ensures |r| == |cs| && forall i :: 0 <= i < |r| ==> r[i] == Csr12(cs[i], V(s, cs[i]))
  {
    seq(|cs|, i requires 0 <= i < |cs| => Csr12(cs[i], V(s, cs[i])))
  }

  function Start(ncpus: nat): seq<Item> { if ncpus == 1 then [Hang] else [] }

  function Entry(s: Saved): seq<Item> { [Csr64(0x7b1, s.pc), Csr12(0x7b0, 0x600 + s.priv)] }

  function FpItem(s: Saved, i: nat): Item { Fp(i, if i < |s.fp| then s.fp[i] % W64 else 0) }

  function Floats(s: Saved): (r: seq<Item>)
    ensures |r| == 32 && forall i :: 0 <= i < 32 ==> r[i] == FpItem(s, i)
  {
    seq(32, i requires 0 <= i => FpItem(s, i))
  }

  /** mstatus and misa, then the floating-point state if it is switched on. */
  function Status(s: Saved): seq<Item>
  {
    Csr64s(s, [0x300, 0x301]) + if s.fs != 0 then Csr12s(s, [0x001, 0x002, 0x003]) + Floats(s) else []
  }

  function CounterItem(s: Saved, j: nat): Item
  {
    if j % 2 == 0 then Csr12(0xb03 + j / 2, 0) else Csr64(0x323 + j / 2, V(s, 0x323 + j / 2))
  }

  /** mhpmcounter3..31 and mhpmevent3..31 in turn. */
  function Counters(s: Saved): (r: seq<Item>)
    ensures |r| == 58 && forall j :: 0 <= j < 58 ==> r[j] == CounterItem(s, j)
  {
    seq(58, j requires 0 <= j => CounterItem(s, j))
  }

  function PmpItem(s: Saved, i: nat): Item { Csr64(0x3b0 + i, V(s, 0x3b0 + i)) }

  function PmpAddrs(s: Saved): (r: seq<Item>)
    ensures |r| == 16 && forall i :: 0 <= i < 16 ==> r[i] == PmpItem(s, i)
  {
    seq(16, i requires 0 <= i => PmpItem(s, i))
  }

  /** x3 to x31 */
  function UpperRegs(s: Saved): (r: seq<Item>)
    requires |s.x| == 32
    ensures |r| == 29 && forall i :: 0 <= i < 29 ==> r[i] == Reg(3 + i, s.x[3 + i])
  {
    seq(29, i requires 0 <= i < 29 && |s.x| == 32 => Reg(3 + i, s.x[3 + i]))
  }

  function Timers(s: Saved): seq<Item>
  {
    [Io64(s.clint + 0x4000, s.timecmp)] + Csr64s(s, [0xb02, 0xb00]) + [Io64(s.clint + 0xbff8, s.mtime)]
  }

  function LowRegs(s: Saved): seq<Item>
    requires |s.x| == 32
  {
    [Reg(1, s.x[1]), Reg(2, s.x[2])]
  }

  function Last(s: Saved): seq<Item> { [SaveX1, Csr64(0x180, V(s, 0x180)), LoadX1] }

  // the program, in five parts
  function Part1(s: Saved, ncpus: nat): seq<Item>
  {
    Start(ncpus) + Entry(s) + Status(s) + Counters(s) + Csr64s(s, [0x7a0])
  }

  function Part3(s: Saved): seq<Item>
  {
    Csr12s(s, ENABLES) + PmpAddrs(s) + Csr64s(s, [0x3a0, 0x3a2])
  }

  function Part5(s: Saved): seq<Item>
    requires |s.x| == 32
  {
    UpperRegs(s) + Timers(s) + LowRegs(s) + Last(s)
  }

  function Items(s: Saved, ncpus: nat): seq<Item>
    requires |s.x| == 32
  {
    Part1(s, ncpus) + Csr64s(s, DELEGATION) + Part3(s) + Csr64s(s, HANDLERS) + Part5(s)
  }

  /** What is claimed about CSRs, apart from the debug ones. */
  const CLAIMED: seq<nat> := [0x302, 0x303, 0x305, 0x105, 0x340, 0x341, 0x342, 0x343, 0x140, 0x141, 0x142, 0x143, 0x180]

  ghost predicate ValidSaved(cfg: Cfg, s: Saved, ncpus: nat)
  {
    && ValidCfg(cfg) && (ncpus == 1 ==> cfg.hartid == 0)
    && |s.x| == 32 && s.x[0] == 0 && (forall i :: 0 <= i < 32 ==> s.x[i] < W64)
    && s.pc < W64 && s.pc % EpcAlign(cfg) == 0 && (s.priv == 0 || s.priv == 1 || s.priv == 3)
    && s.fs == V(s, 0x300) / 0x2000 % 4
    && (forall i :: 0 <= i < |CLAIMED| ==> Holds(cfg, CLAIMED[i], V(s, CLAIMED[i])))
    && s.clint % 8 == 0 && 0x1_2000 <= s.clint && s.clint + 0x1_0000 < W64 && s.timecmp < W64 && s.mtime < W64
  }

  // ----- every item can run

  lemma {:induction false} OkSplit(cfg: Cfg, a: seq<Item>, b: seq<Item>, fs: nat, fs': nat)
    requires AllOk(cfg, a, fs) && AllOk(cfg, b, fs') && FsAll(a, fs) == fs'
    ensures AllOk(cfg, a + b, fs) && FsAll(a + b, fs) == FsAll(b, fs')
  {
    hide ItemOk, FsAfter;
    if a == [] {
      assert a + b == b;
    } else {
      assert (a + b)[0] == a[0] && (a + b)[1..] == a[1..] + b;
      OkSplit(cfg, a[1..], b, FsAfter(a[0], fs), fs');
    }
  }

  function FsAll(items: seq<Item>, fs: nat): nat
  {
    if items == [] then fs else FsAll(items[1..], FsAfter(items[0], fs))
  }

  /** Items that do not touch FS run one by one. */
  lemma {:induction false} OkEach(cfg: Cfg, items: seq<Item>, fs: nat)
    requires forall i :: 0 <= i < |items| ==> ItemOk(cfg, items[i], fs) && !WritesCsr(items[i], 0x300)
    ensures AllOk(cfg, items, fs) && FsAll(items, fs) == fs
  {
    hide ItemOk;
    if items != [] {
      OkEach(cfg, items[1..], fs);
    }
  }

  lemma CsrsOk(cfg: Cfg, s: Saved, cs: seq<nat>, fs: nat)
    requires forall i :: 0 <= i < |cs| ==> Writable(cs[i], fs) && cs[i] != 0x300
    ensures AllOk(cfg, Csr64s(s, cs), fs) && FsAll(Csr64s(s, cs), fs) == fs
    ensures AllOk(cfg, Csr12s(s, cs), fs) && FsAll(Csr12s(s, cs), fs) == fs
  {
    hide Writable, V;
    OkEach(cfg, Csr64s(s, cs), fs);
    OkEach(cfg, Csr12s(s, cs), fs);
  }

  lemma StartOk(cfg: Cfg, s: Saved, ncpus: nat, fs: nat)
    requires ValidSaved(cfg, s, ncpus)
    ensures AllOk(cfg, Start(ncpus) + Entry(s), fs) && FsAll(Start(ncpus) + Entry(s), fs) == fs
  {
    hide V, Holds;
    OkEach(cfg, Start(ncpus) + Entry(s), fs);
  }

  lemma StatusOk(cfg: Cfg, s: Saved, ncpus: nat, fs: nat)
    requires ValidSaved(cfg, s, ncpus)
    ensures AllOk(cfg, Status(s), fs) && FsAll(Status(s), fs) == s.fs
  {
    hide V, Holds;
    var two := Csr64s(s, [0x300, 0x301]);
    assert two[1..] == [two[1]] && two[1..][1..] == [];
    assert Writable(0x300, fs) && Writable(0x301, s.fs);
    assert AllOk(cfg, [], s.fs) && FsAll([], s.fs) == s.fs;
    assert AllOk(cfg, two[1..], s.fs) && FsAll(two[1..], s.fs) == s.fs;
    assert AllOk(cfg, two, fs) && FsAll(two, fs) == s.fs;
    var rest := if s.fs != 0 then Csr12s(s, [0x001, 0x002, 0x003]) + Floats(s) else [];
    OkEach(cfg, rest, s.fs);
    OkSplit(cfg, two, rest, fs, s.fs);
  }

  lemma CountersOk(cfg: Cfg, s: Saved, fs: nat)
    ensures AllOk(cfg, Counters(s), fs) && FsAll(Counters(s), fs) == fs
  {
    hide V;
    forall j | 0 <= j < 58
      ensures ItemOk(cfg, Counters(s)[j], fs) && !WritesCsr(Counters(s)[j], 0x300)
    {
      var i := j / 2;
      assert 0 <= i < 29 && Writable(0xb03 + i, fs) && Writable(0x323 + i, fs);
    }
    OkEach(cfg, Counters(s), fs);
  }

  lemma PmpOk(cfg: Cfg, s: Saved, fs: nat)
    ensures AllOk(cfg, PmpAddrs(s), fs) && FsAll(PmpAddrs(s), fs) == fs
  {
    hide V;
    forall i | 0 <= i < 16
      ensures ItemOk(cfg, PmpAddrs(s)[i], fs) && !WritesCsr(PmpAddrs(s)[i], 0x300)
    {
      assert Writable(0x3b0 + i, fs);
    }
    OkEach(cfg, PmpAddrs(s), fs);
  }

  lemma Part1Ok(cfg: Cfg, s: Saved, ncpus: nat, fs: nat)
    requires ValidSaved(cfg, s, ncpus)
    ensures AllOk(cfg, Part1(s, ncpus), fs) && FsAll(Part1(s, ncpus), fs) == s.fs
  {
    hide AllOk, FsAll, ValidSaved, Status, Counters, Csr64s, Start, Entry;
    StartOk(cfg, s, ncpus, fs);
    StatusOk(cfg, s, ncpus, fs);
    CountersOk(cfg, s, s.fs);
    CsrsOk(cfg, s, [0x7a0], s.fs);
    OkSplit(cfg, Start(ncpus) + Entry(s), Status(s), fs, fs);
    OkSplit(cfg, Start(ncpus) + Entry(s) + Status(s), Counters(s), fs, s.fs);
    OkSplit(cfg, Start(ncpus) + Entry(s) + Status(s) + Counters(s), Csr64s(s, [0x7a0]), fs, s.fs);
  }

  lemma Part3Ok(cfg: Cfg, s: Saved, fs: nat)
    ensures AllOk(cfg, Part3(s), fs) && FsAll(Part3(s), fs) == fs
  {
    hide AllOk, FsAll, PmpAddrs, Csr64s, Csr12s;
    CsrsOk(cfg, s, ENABLES, fs);
    PmpOk(cfg, s, fs);
    CsrsOk(cfg, s, [0x3a0, 0x3a2], fs);
    OkSplit(cfg, Csr12s(s, ENABLES), PmpAddrs(s), fs, fs);
    OkSplit(cfg, Csr12s(s, ENABLES) + PmpAddrs(s), Csr64s(s, [0x3a0, 0x3a2]), fs, fs);
  }

  lemma Part5Ok(cfg: Cfg, s: Saved, ncpus: nat, fs: nat)
    requires ValidSaved(cfg, s, ncpus)
    ensures AllOk(cfg, Part5(s), fs) && FsAll(Part5(s), fs) == fs
  {
    hide V, Holds;
    TimersOk(s);
    assert Writable(0x180, fs) && Writable(0xb02, fs) && Writable(0xb00, fs);
    hide Writable;
    var timers, low, last := Timers(s), LowRegs(s), Last(s);
    OkEach(cfg, UpperRegs(s), fs);
    OkEach(cfg, timers, fs);
    OkEach(cfg, low, fs);
    OkEach(cfg, last, fs);
    OkSplit(cfg, UpperRegs(s), timers, fs, fs);
    OkSplit(cfg, UpperRegs(s) + timers, low, fs, fs);
    OkSplit(cfg, UpperRegs(s) + timers + low, last, fs, fs);
  }

  lemma TimersOk(s: Saved)
    requires s.clint % 8 == 0
    ensures (s.clint + 0x4000) % 8 == 0 && (s.clint + 0xbff8) % 8 == 0
  {
  }

  lemma ListsOk(fs: nat)
    ensures forall i :: 0 <= i < |DELEGATION| ==> Writable(DELEGATION[i], fs) && DELEGATION[i] != 0x300
    ensures forall i :: 0 <= i < |HANDLERS| ==> Writable(HANDLERS[i], fs) && HANDLERS[i] != 0x300
  {
  }

  lemma ItemsOk(cfg: Cfg, s: Saved, ncpus: nat, fs: nat)
    requires ValidSaved(cfg, s, ncpus)
    ensures AllOk(cfg, Items(s, ncpus), fs)
  {
    hide AllOk, FsAll, Part1, Part3, Part5, Csr64s, Writable, V, Holds;
    var f := s.fs;
    Part1Ok(cfg, s, ncpus, fs);
    ListsOk(f);
    CsrsOk(cfg, s, DELEGATION, f);
    Part3Ok(cfg, s, f);
    CsrsOk(cfg, s, HANDLERS, f);
    Part5Ok(cfg, s, ncpus, f);
    OkSplit(cfg, Part1(s, ncpus), Csr64s(s, DELEGATION), fs, f);
    OkSplit(cfg, Part1(s, ncpus) + Csr64s(s, DELEGATION), Part3(s), fs, f);
    OkSplit(cfg, Part1(s, ncpus) + Csr64s(s, DELEGATION) + Part3(s), Csr64s(s, HANDLERS), fs, f);
    OkSplit(cfg, Part1(s, ncpus) + Csr64s(s, DELEGATION) + Part3(s) + Csr64s(s, HANDLERS), Part5(s), fs, f);
  }

  // ----- what the program leaves behind

  lemma PickOut(pre: seq<Item>, mid: seq<Item>, post: seq<Item>, k: nat)
    requires k < |mid|
    ensures pre + mid + post == (pre + mid[..k]) + [mid[k]] + (mid[k + 1..] + post)
  {
    assert mid == mid[..k] + [mid[k]] + mid[k + 1..];
  }

  /** In a list of CSR restores, the last one of a CSR decides its value. */
  lemma Restores(cfg: Cfg, s: Saved, pre: seq<Item>, cs: seq<nat>, k: nat, post: seq<Item>, d: nat, c: Core)
    requires cfg.physSize > 0 && |c.x| == 32 && ValidItems(pre) && ValidItems(post)
    requires k < |cs| && Tracked(cs[k]) && NoCsr(post, cs[k]) && forall j :: k < j < |cs| ==> cs[j] != cs[k]
    ensures ValidItems(pre + Csr64s(s, cs) + post) && ValidItems(pre + Csr64s(s, cs)[..k])
    ensures CsrOf(EffectFrom(cfg, pre + Csr64s(s, cs) + post, d, c), cs[k]) ==
              Legal(cfg, cs[k], CsrOf(EffectFrom(cfg, pre + Csr64s(s, cs)[..k], d, c), cs[k]), V(s, cs[k]))
  {
    hide Legal, Tracked, V, CsrOf, EffectFrom;
    var mid := Csr64s(s, cs);
    PickOut(pre, mid, post, k);
    CsrLeft(cfg, pre + mid[..k], cs[k], V(s, cs[k]), mid[k + 1..] + post, d, c);
  }

  /** A value the CSR can hold is restored, whatever was there before; for the
      delegation registers, when they start out as zero. */
  lemma HeldIsRestored(cfg: Cfg, csr: nat, prev: nat, v: nat)
    requires cfg.physSize > 0 && csr != 0x7b0 && Holds(cfg, csr, v) && (csr == 0x302 || csr == 0x303 ==> prev == 0)
    ensures Legal(cfg, csr, prev, v) == v
  {
    hide Vector, Canonical49, Bits.And, EpcAlign;
  }

  /** Items that write no tracked CSR and load no register above x2. */
  predicate QuietItem(item: Item)
  {
    item.Fp? || item.Io64? || ((item.Csr64? || item.Csr12?) && !Tracked(item.csr))
  }

  ghost predicate Quiet(items: seq<Item>)
  {
    forall i :: 0 <= i < |items| ==> QuietItem(items[i])
  }

  lemma QuietKeeps(items: seq<Item>, csr: nat, r: nat)
    requires Quiet(items) && Tracked(csr) && r >= 3
    ensures ValidItems(items) && NoCsr(items, csr) && NoX(items, r)
  {
    hide Tracked;
  }

  lemma QuietLists(s: Saved)
    ensures Quiet(Csr64s(s, [0x7a0])) && Quiet(Part3(s)) && Quiet(Timers(s)) && Quiet(Status(s)) && Quiet(Counters(s))
  {
    hide V;
    assert !Tracked(0x7a0) && !Tracked(0x320) && !Tracked(0x306) && !Tracked(0x106) && !Tracked(0x3a0)
           && !Tracked(0x3a2) && !Tracked(0xb00) && !Tracked(0xb02) && !Tracked(1) && !Tracked(2) && !Tracked(3)
           && !Tracked(0x300) && !Tracked(0x301);
    assert forall n: nat :: 0x3b0 <= n <= 0x3bf || 0xb03 <= n <= 0xb1f || 0x323 <= n <= 0x33f ==> !Tracked(n);
    hide Tracked;
  }

  lemma NoCsrSplit(a: seq<Item>, b: seq<Item>, csr: nat)
    requires NoCsr(a, csr) && NoCsr(b, csr)
    ensures NoCsr(a + b, csr)
  {
    hide WritesCsr;
  }

  lemma NoXSplit(a: seq<Item>, b: seq<Item>, r: nat)
    requires NoX(a, r) && NoX(b, r)
    ensures NoX(a + b, r)
  {
    hide SetsX;
  }

  lemma ValidSplit(a: seq<Item>, b: seq<Item>)
    requires ValidItems(a) && ValidItems(b)
    ensures ValidItems(a + b)
  {
    hide ValidItem;
  }

  /** The registers and satp are restored last and touch no other claimed CSR. */
  lemma Part5Csr(s: Saved, csr: nat)
    requires |s.x| == 32 && Tracked(csr) && csr != 0x180 && csr != 0x7b2
    ensures NoCsr(Part5(s), csr) && ValidItems(Part5(s))
  {
    hide V, Tracked;
    QuietLists(s);
    QuietKeeps(Timers(s), csr, 3);
  }

  lemma Part3Csr(s: Saved, csr: nat)
    requires Tracked(csr)
    ensures NoCsr(Part3(s), csr) && ValidItems(Part3(s))
  {
    hide Part3;
    QuietLists(s);
    QuietKeeps(Part3(s), csr, 3);
  }

  lemma Part1Csr(s: Saved, ncpus: nat, csr: nat)
    requires Tracked(csr) && csr != 0x7b0 && csr != 0x7b1
    ensures NoCsr(Part1(s, ncpus), csr) && ValidItems(Part1(s, ncpus))
  {
    hide V, Tracked, Status, Counters, Csr64s, ValidItem;
    QuietLists(s);
    QuietKeeps(Status(s), csr, 3);
    QuietKeeps(Counters(s), csr, 3);
    QuietKeeps(Csr64s(s, [0x7a0]), csr, 3);
    StartCsr(s, ncpus, csr);
    var a := Start(ncpus) + Entry(s);
    NoCsrSplit(a, Status(s), csr);
    ValidSplit(a, Status(s));
    NoCsrSplit(a + Status(s), Counters(s), csr);
    ValidSplit(a + Status(s), Counters(s));
    NoCsrSplit(a + Status(s) + Counters(s), Csr64s(s, [0x7a0]), csr);
    ValidSplit(a + Status(s) + Counters(s), Csr64s(s, [0x7a0]));
  }

  lemma StartCsr(s: Saved, ncpus: nat, csr: nat)
    requires csr != 0x7b0 && csr != 0x7b1
    ensures NoCsr(Start(ncpus) + Entry(s), csr) && ValidItems(Start(ncpus) + Entry(s))
  {
  }

  lemma ListCsr(s: Saved, cs: seq<nat>, csr: nat)
    requires forall i :: 0 <= i < |cs| ==> cs[i] != csr
    ensures NoCsr(Csr64s(s, cs), csr)
  {
    hide V;
  }

  lemma ListValid(s: Saved, cs: seq<nat>)
    ensures ValidItems(Csr64s(s, cs))
  {
    hide V;
  }

  /** The delegation and vector registers. */
  lemma DelegationRestored(cfg: Cfg, s: Saved, ncpus: nat, d: nat, c: Core, k: nat)
    requires ValidSaved(cfg, s, ncpus) && |c.x| == 32 && CsrOf(c, 0x302) == 0 && CsrOf(c, 0x303) == 0
    requires k < |DELEGATION| && k != 2
    ensures ValidItems(Items(s, ncpus))
    ensures CsrOf(EffectFrom(cfg, Items(s, ncpus), d, c), DELEGATION[k]) == V(s, DELEGATION[k])
  {
    hide V, Part1, Part3, Part5, Csr64s, Holds, Legal, EffectFrom, NoCsr, ValidItems, CsrOf;
    var csr := DELEGATION[k];
    DelegationFacts(cfg, s, ncpus, k);
    var pre, mid, post := Part1(s, ncpus), Csr64s(s, DELEGATION), Part3(s) + Csr64s(s, HANDLERS) + Part5(s);
    assert Items(s, ncpus) == pre + mid + post;
    Part1Csr(s, ncpus, csr);
    Part3Csr(s, csr);
    Part5Csr(s, csr);
    ListCsr(s, HANDLERS, csr);
    ListValid(s, HANDLERS);
    NoCsrSplit(Part3(s), Csr64s(s, HANDLERS), csr);
    ValidSplit(Part3(s), Csr64s(s, HANDLERS));
    NoCsrSplit(Part3(s) + Csr64s(s, HANDLERS), Part5(s), csr);
    ValidSplit(Part3(s) + Csr64s(s, HANDLERS), Part5(s));
    Restores(cfg, s, pre, DELEGATION, k, post, d, c);
    if k < 2 {
      FirstsUntouched(s, pre, DELEGATION, k);
      CsrKept(cfg, pre + mid[..k], d, c, csr);
    }
    var c1 := EffectFrom(cfg, pre + mid[..k], d, c);
    HeldIsRestored(cfg, csr, CsrOf(c1, csr), V(s, csr));
  }

  lemma FirstsUntouched(s: Saved, pre: seq<Item>, cs: seq<nat>, k: nat)
    requires k < |cs| && NoCsr(pre, cs[k]) && forall j :: 0 <= j < k ==> cs[j] != cs[k]
    ensures NoCsr(pre + Csr64s(s, cs)[..k], cs[k])
  {
    hide V;
  }

  lemma DelegationFacts(cfg: Cfg, s: Saved, ncpus: nat, k: nat)
    requires ValidSaved(cfg, s, ncpus) && k < |DELEGATION| && k != 2
    ensures var csr := DELEGATION[k];
            && Tracked(csr) && csr !in {0x180, 0x7b0, 0x7b1, 0x7b2} && Holds(cfg, csr, V(s, csr))
            && (forall i :: 0 <= i < |HANDLERS| ==> HANDLERS[i] != csr)
            && (forall j :: k < j < |DELEGATION| ==> DELEGATION[j] != csr)
            && (forall j :: 0 <= j < k ==> DELEGATION[j] != csr)
            && (csr == 0x302 || csr == 0x303 ==> k < 2)
  {
    hide V, Holds;
    assert DELEGATION[k] == CLAIMED[if k < 2 then k else k - 1];
  }

  /** The handler registers: scratch, epc, cause and tval of both modes. */
  lemma HandlersRestored(cfg: Cfg, s: Saved, ncpus: nat, d: nat, c: Core, k: nat)
    requires ValidSaved(cfg, s, ncpus) && |c.x| == 32 && k < 8
    ensures ValidItems(Items(s, ncpus))
    ensures CsrOf(EffectFrom(cfg, Items(s, ncpus), d, c), HANDLERS[k]) == V(s, HANDLERS[k])
  {
    hide V, Part1, Part3, Part5, Csr64s, Holds, Legal, EffectFrom, NoCsr, ValidItems, CsrOf;
    var csr := HANDLERS[k];
    HandlerFacts(cfg, s, ncpus, k);
    var pre := Part1(s, ncpus) + Csr64s(s, DELEGATION) + Part3(s);
    Part1Csr(s, ncpus, csr);
    Part3Csr(s, csr);
    Part5Csr(s, csr);
    ListValid(s, DELEGATION);
    ValidSplit(Part1(s, ncpus), Csr64s(s, DELEGATION));
    ValidSplit(Part1(s, ncpus) + Csr64s(s, DELEGATION), Part3(s));
    Restores(cfg, s, pre, HANDLERS, k, Part5(s), d, c);
    var c1 := EffectFrom(cfg, pre + Csr64s(s, HANDLERS)[..k], d, c);
    HeldIsRestored(cfg, csr, CsrOf(c1, csr), V(s, csr));
  }

  lemma HandlerFacts(cfg: Cfg, s: Saved, ncpus: nat, k: nat)
    requires ValidSaved(cfg, s, ncpus) && k < 8
    ensures var csr := HANDLERS[k];
            && Tracked(csr) && csr !in {0x180, 0x302, 0x303, 0x7b0, 0x7b1, 0x7b2} && Holds(cfg, csr, V(s, csr))
            && (forall j :: k < j < |HANDLERS| ==> HANDLERS[j] != csr)
  {
    hide V, Holds;
    assert HANDLERS[k] == CLAIMED[k + 4];
  }

  /** Everything after the entry items. */
  function Body(s: Saved): seq<Item>
    requires |s.x| == 32
  {
    Status(s) + Counters(s) + Csr64s(s, [0x7a0]) + Csr64s(s, DELEGATION) + Part3(s) + Csr64s(s, HANDLERS) + Part5(s)
  }

  lemma ItemsBody(s: Saved, ncpus: nat)
    requires |s.x| == 32
    ensures Items(s, ncpus) == Start(ncpus) + Entry(s) + Body(s)
  {
    hide Start, Entry, Status, Counters, Csr64s, Part3, Part5;
    Assoc(Start(ncpus) + Entry(s), Status(s), Counters(s), Csr64s(s, [0x7a0]), Csr64s(s, DELEGATION), Part3(s),
          Csr64s(s, HANDLERS), Part5(s));
  }

  lemma Assoc(a: seq<Item>, b: seq<Item>, c: seq<Item>, d: seq<Item>, e: seq<Item>, f: seq<Item>, g: seq<Item>,
              h: seq<Item>)
    ensures a + b + c + d + e + f + g + h == a + (b + c + d + e + f + g + h)
  {
    Assoc3(a, b, c);
    Assoc3(a, b + c, d);
    Assoc3(a, b + c + d, e);
    Assoc3(a, b + c + d + e, f);
    Assoc3(a, b + c + d + e + f, g);
    Assoc3(a, b + c + d + e + f + g, h);
  }

  lemma Assoc3(a: seq<Item>, b: seq<Item>, c: seq<Item>)
    ensures a + (b + c) == a + b + c
  {
  }

  lemma BodyCsr(s: Saved, csr: nat)
    requires |s.x| == 32 && (csr == 0x7b0 || csr == 0x7b1)
    ensures NoCsr(Body(s), csr) && ValidItems(Body(s))
  {
    hide V, Status, Counters, Csr64s, Part3, Part5, NoCsr, ValidItems;
    QuietLists(s);
    QuietKeeps(Status(s), csr, 3);
    QuietKeeps(Counters(s), csr, 3);
    QuietKeeps(Csr64s(s, [0x7a0]), csr, 3);
    Part3Csr(s, csr);
    Part5Csr(s, csr);
    ListCsr(s, DELEGATION, csr);
    ListValid(s, DELEGATION);
    ListCsr(s, HANDLERS, csr);
    ListValid(s, HANDLERS);
    var a := Status(s) + Counters(s);
    NoCsrSplit(Status(s), Counters(s), csr);
    ValidSplit(Status(s), Counters(s));
    var b := a + Csr64s(s, [0x7a0]);
    NoCsrSplit(a, Csr64s(s, [0x7a0]), csr);
    ValidSplit(a, Csr64s(s, [0x7a0]));
    var e := b + Csr64s(s, DELEGATION);
    NoCsrSplit(b, Csr64s(s, DELEGATION), csr);
    ValidSplit(b, Csr64s(s, DELEGATION));
    NoCsrSplit(e, Part3(s), csr);
    ValidSplit(e, Part3(s));
    NoCsrSplit(e + Part3(s), Csr64s(s, HANDLERS), csr);
    ValidSplit(e + Part3(s), Csr64s(s, HANDLERS));
    NoCsrSplit(e + Part3(s) + Csr64s(s, HANDLERS), Part5(s), csr);
    ValidSplit(e + Part3(s) + Csr64s(s, HANDLERS), Part5(s));
  }

  lemma DcsrPriv(prev: nat, priv: nat)
    requires priv < 4
    ensures Field(prev, 0x600 + priv, 0x603) % 4 == priv
  {
    hide Bits.And;
    AndLow(prev);
    AndLow(0x600 + priv);
    Mod4(prev, Bits.And(prev, 0x603), Bits.And(0x600 + priv, 0x603), priv);
  }

  lemma Mod4(a: nat, b: nat, e: nat, p: nat)
    requires b <= a && a % 4 == b % 4 && e % 4 == p < 4
    ensures (a - b + e) % 4 == p
  {
  }

  lemma AndLow(a: nat)
    ensures Bits.And(a, 0x603) % 4 == a % 4
  {
    hide Bits.And;
    Bits.AndStep(a, 0x603);
    Bits.AndStep(a / 2, 0x301);
    LowTwo(a, Bits.And(a / 2 / 2, 0x180));
  }

  lemma LowTwo(a: nat, z: nat)
    ensures (a % 2 + 2 * (a / 2 % 2 + 2 * z)) % 4 == a % 4
  {
    var x := a % 2 + 2 * (a / 2 % 2);
    Bits.DivUnique(x + 4 * z, 4, z, x);
    Bits.DivUnique(a, 4, a / 2 / 2, x);
  }

  /** dpc and the privilege in dcsr. */
  lemma EntryLeft(cfg: Cfg, s: Saved, ncpus: nat, d: nat, c: Core)
    requires ValidSaved(cfg, s, ncpus) && |c.x| == 32
    ensures ValidItems(Items(s, ncpus))
    ensures var c' := EffectFrom(cfg, Items(s, ncpus), d, c);
            CsrOf(c', 0x7b1) == s.pc && CsrOf(c', 0x7b0) % 4 == s.priv
  {
    hide V, Body, Holds, EffectFrom, NoCsr, ValidItems, CsrOf, Vector, Canonical49, Bits.And, EpcAlign, Field, Imm12;
    ItemsBody(s, ncpus);
    BodyCsr(s, 0x7b0);
    BodyCsr(s, 0x7b1);
    StartValid(ncpus);
    var a, e1, e2, b := Start(ncpus), Csr64(0x7b1, s.pc), Csr12(0x7b0, 0x600 + s.priv), Body(s);
    OneValid(e1);
    OneValid(e2);
    assert a + Entry(s) + b == a + [e1] + ([e2] + b);
    ValidSplit([e2], b);
    OtherCsr(e2, 0x7b1);
    NoCsrSplit([e2], b, 0x7b1);
    CsrLeft(cfg, a, 0x7b1, s.pc, [e2] + b, d, c);
    AlignExact(s.pc, EpcAlign(cfg));
    // dcsr
    assert a + Entry(s) == (a + [e1]) + [e2];
    ValidSplit(a, [e1]);
    ValidSplit(a + [e1], [e2]);
    var c1 := EffectFrom(cfg, a + [e1], d, c);
    var d1 := d + DataSize(a + [e1]);
    EffectSplit(cfg, a + [e1], [e2], d, c);
    EffectSplit(cfg, a + [e1] + [e2], b, d, c);
    OneEffect(cfg, e2, d1, c1);
    CsrKept(cfg, b, d + DataSize(a + [e1] + [e2]), EffectFrom(cfg, a + [e1] + [e2], d, c), 0x7b0);
    DcsrWritten(cfg, s.priv, d1, c1);
  }

  lemma DcsrWritten(cfg: Cfg, priv: nat, d: nat, c: Core)
    requires cfg.physSize > 0 && |c.x| == 32 && priv < 4
    ensures CsrOf(Effect(cfg, Csr12(0x7b0, 0x600 + priv), d, c), 0x7b0) % 4 == priv
  {
    hide Bits.And, Field, Vector, Canonical49, EpcAlign;
    assert Imm12(0x600 + priv) == 0x600 + priv;
    hide Imm12;
    DcsrPriv(CsrOf(c, 0x7b0), priv);
  }

  lemma StartValid(ncpus: nat)
    ensures ValidItems(Start(ncpus))
  {
  }

  lemma OneValid(item: Item)
    requires ValidItem(item)
    ensures ValidItems([item])
  {
  }

  lemma OtherCsr(item: Item, csr: nat)
    requires !WritesCsr(item, csr)
    ensures NoCsr([item], csr)
  {
  }

  // ----- registers and satp

  function Head(s: Saved, ncpus: nat): seq<Item>
  {
    Part1(s, ncpus) + Csr64s(s, DELEGATION) + Part3(s) + Csr64s(s, HANDLERS)
  }

  lemma HeadValid(s: Saved, ncpus: nat)
    ensures ValidItems(Head(s, ncpus))
  {
    hide V, Part1, Part3, Csr64s, ValidItems;
    assert Tracked(0x105);
    Part1Csr(s, ncpus, 0x105);
    Part3Csr(s, 0x105);
    ListValid(s, DELEGATION);
    ListValid(s, HANDLERS);
    ValidSplit(Part1(s, ncpus), Csr64s(s, DELEGATION));
    ValidSplit(Part1(s, ncpus) + Csr64s(s, DELEGATION), Part3(s));
    ValidSplit(Part1(s, ncpus) + Csr64s(s, DELEGATION) + Part3(s), Csr64s(s, HANDLERS));
  }

  lemma TailFacts(s: Saved)
    requires |s.x| == 32
    ensures ValidItems(Timers(s)) && ValidItems(LowRegs(s)) && ValidItems(Last(s)) && ValidItems(UpperRegs(s))
    ensures forall r :: 3 <= r ==> NoX(Timers(s), r) && NoX(LowRegs(s), r) && NoX(Last(s), r)
    ensures NoX(Last(s), 2)
  {
    hide V, Tracked;
    QuietLists(s);
    forall r | 3 <= r
      ensures NoX(Timers(s), r)
    {
      assert Tracked(0x105) by { Dscratch0(); }
      QuietKeeps(Timers(s), 0x105, r);
    }
    assert Tracked(0x105) by { Dscratch0(); }
    QuietKeeps(Timers(s), 0x105, 3);
  }

  lemma Dscratch0()
    ensures Tracked(0x105)
  {
  }

  /** x3 to x31 */
  lemma UpperLeft(cfg: Cfg, s: Saved, ncpus: nat, d: nat, c: Core, r: nat)
    requires cfg.physSize > 0 && |s.x| == 32 && |c.x| == 32 && 3 <= r < 32
    ensures ValidItems(Items(s, ncpus))
    ensures EffectFrom(cfg, Items(s, ncpus), d, c).x[r] == s.x[r]
  {
    hide V, Part1, Part3, Csr64s, Timers, Last, LowRegs, EffectFrom, ValidItems, UpperRegs;
    HeadValid(s, ncpus);
    TailFacts(s);
    var h, mid, k := Head(s, ncpus), UpperRegs(s), r - 3;
    var post := Timers(s) + LowRegs(s) + Last(s);
    assert Items(s, ncpus) == h + (mid + Timers(s) + LowRegs(s) + Last(s));
    assert h + (mid + Timers(s) + LowRegs(s) + Last(s)) == h + mid + post;
    PickOut(h, mid, post, k);
    assert mid[k] == Reg(r, s.x[r]);
    UpperSlices(s, k);
    NoXSplit(Timers(s), LowRegs(s), r);
    NoXSplit(Timers(s) + LowRegs(s), Last(s), r);
    NoXSplit(mid[k + 1..], post, r);
    ValidSplit(Timers(s), LowRegs(s));
    ValidSplit(Timers(s) + LowRegs(s), Last(s));
    ValidSplit(mid[k + 1..], post);
    ValidSplit(h, mid[..k]);
    XLeft(cfg, h + mid[..k], r, s.x[r], mid[k + 1..] + post, d, c);
  }

  lemma UpperSlices(s: Saved, k: nat)
    requires |s.x| == 32 && k < 29
    ensures ValidItems(UpperRegs(s)[..k]) && ValidItems(UpperRegs(s)[k + 1..]) && NoX(UpperRegs(s)[k + 1..], k + 3)
  {
  }

  /** x1, x2 and satp: x1 goes through dscratch while satp is restored. */
  lemma TailLeft(cfg: Cfg, s: Saved, ncpus: nat, d: nat, c: Core)
    requires ValidSaved(cfg, s, ncpus) && |c.x| == 32
    ensures ValidItems(Items(s, ncpus))
    ensures var c' := EffectFrom(cfg, Items(s, ncpus), d, c);
            c'.x[1] == s.x[1] && c'.x[2] == s.x[2] && CsrOf(c', 0x180) == V(s, 0x180)
  {
    hide V, Part1, Part3, Csr64s, Timers, Last, LowRegs, EffectFrom, ValidItems, UpperRegs, Holds, Effect, CsrOf;
    HeadValid(s, ncpus);
    TailFacts(s);
    var h := Head(s, ncpus) + UpperRegs(s) + Timers(s);
    assert Items(s, ncpus) == h + LowRegs(s) + Last(s);
    ValidSplit(Head(s, ncpus), UpperRegs(s));
    ValidSplit(Head(s, ncpus) + UpperRegs(s), Timers(s));
    EffectSplit(cfg, h, LowRegs(s), d, c);
    EffectSplit(cfg, h + LowRegs(s), Last(s), d, c);
    var d1, c1 := d + DataSize(h), EffectFrom(cfg, h, d, c);
    LowLeft(cfg, s, d1, c1);
    var d2, c2 := d + DataSize(h + LowRegs(s)), EffectFrom(cfg, LowRegs(s), d1, c1);
    LastLeft(cfg, s, d2, c2);
    assert Holds(cfg, 0x180, V(s, 0x180)) by { assert CLAIMED[12] == 0x180; }
    HeldIsRestored(cfg, 0x180, CsrOf(c2, 0x180), V(s, 0x180));
  }

  lemma LowLeft(cfg: Cfg, s: Saved, d: nat, c: Core)
    requires cfg.physSize > 0 && |s.x| == 32 && |c.x| == 32
    ensures ValidItems(LowRegs(s))
    ensures var c' := EffectFrom(cfg, LowRegs(s), d, c); c'.x[1] == s.x[1] && c'.x[2] == s.x[2]
  {
    var a, b := Reg(1, s.x[1]), Reg(2, s.x[2]);
    assert LowRegs(s) == [a] + [b];
    OneEffect(cfg, a, d, c);
    var c1 := Effect(cfg, a, d, c);
    OneEffect(cfg, b, d + DataSize([a]), c1);
    EffectSplit(cfg, [a], [b], d, c);
  }

  lemma LastLeft(cfg: Cfg, s: Saved, d: nat, c: Core)
    requires cfg.physSize > 0 && |c.x| == 32
    ensures ValidItems(Last(s))
    ensures var c' := EffectFrom(cfg, Last(s), d, c);
            && c'.x[1] == c.x[1] && c'.x[2] == c.x[2]
            && CsrOf(c', 0x180) == Legal(cfg, 0x180, CsrOf(c, 0x180), V(s, 0x180))
  {
    hide V;
    var a, b, e := SaveX1, Csr64(0x180, V(s, 0x180)), LoadX1;
    assert Last(s) == [a] + [b] + [e];
    OneEffect(cfg, a, d, c);
    var c1 := Effect(cfg, a, d, c);
    OneEffect(cfg, b, d + DataSize([a]), c1);
    EffectSplit(cfg, [a], [b], d, c);
    var c2 := Effect(cfg, b, d + DataSize([a]), c1);
    OneEffect(cfg, e, d + DataSize([a] + [b]), c2);
    EffectSplit(cfg, [a] + [b], [e], d, c);
    Dscratch(cfg, c, c.x[1]);
    assert Tracked(0x180);
    hide Legal, Tracked;
    assert CsrOf(c1, 0x7b2) == c.x[1] && CsrOf(c1, 0x180) == CsrOf(c, 0x180);
    assert CsrOf(c2, 0x7b2) == c.x[1];
  }

  lemma DretFields()
    ensures Opcode(DRET) == 0x73 && Funct3(DRET) == 0 && Rd(DRET) == 0 && Rs1(DRET) == 0 && Top12(DRET) == 0x7b2
  {
  }

  lemma DretRuns(cfg: Cfg, rom: seq<nat>, p: nat, c: Core)
    requires InDebug(c) && cfg.physSize > 0 && p < |rom| && rom[p] == DRET
    ensures Run(cfg, rom, ROM_BASE + 4 * p, c, 1) ==
              Some((CsrOf(c, 0x7b1), c.(debug := false, priv := CsrOf(c, 0x7b0) % 4)))
  {
    hide Run, Opcode, Rd, Rs1, Rs2, Top12, Funct3, Load64, StoreImm, BranchImm, Sext12, UpperImm, Tracked;
    DretFields();
    Fetched(p);
    OneStep(cfg, rom, ROM_BASE + 4 * p, c, CsrOf(c, 0x7b1), c.(debug := false, priv := CsrOf(c, 0x7b0) % 4));
  }

  ghost predicate Rebuilt(s: Saved, c0: Core, pc: nat, c: Core)
  {
    && c.io == c0.io + TimerStores(s)
    && pc == s.pc && c.x == s.x && c.priv == s.priv && !c.debug
    && forall i :: 0 <= i < |CLAIMED| ==> CsrOf(c, CLAIMED[i]) == V(s, CLAIMED[i])
  }

  /** What the program stores outside the ROM: timecmp and mtime of the CLINT. */
  function TimerStores(s: Saved): seq<(nat, nat)>
  {
    [(s.clint + 0x4000, s.timecmp), (s.clint + 0xbff8, s.mtime)]
  }

  /** The stores of some items, in order. */
  function Stores(items: seq<Item>): seq<(nat, nat)>
  {
    if items == [] then []
    else (if items[0].Io64? then [(items[0].addr, items[0].val)] else []) + Stores(items[1..])
  }

  lemma {:induction false} IoLeft(cfg: Cfg, items: seq<Item>, d: nat, c: Core)
    requires cfg.physSize > 0 && |c.x| == 32 && ValidItems(items)
    ensures EffectFrom(cfg, items, d, c).io == c.io + Stores(items)
    decreases |items|
  {
    hide CsrWrite, CsrOf, DataLen, Imm12;
    if items != [] {
      IoEffect(cfg, items[0], d, c);
      IoLeft(cfg, items[1..], d + DataLen(items[0]), Effect(cfg, items[0], d, c));
    }
  }

  lemma IoEffect(cfg: Cfg, item: Item, d: nat, c: Core)
    requires cfg.physSize > 0 && |c.x| == 32 && (item.Reg? ==> item.rn < 32)
    ensures Effect(cfg, item, d, c).io == c.io + if item.Io64? then [(item.addr, item.val)] else []
  {
    hide Legal, CsrOf, Imm12, Tracked;
  }

  lemma {:induction false} StoresSplit(a: seq<Item>, b: seq<Item>)
    ensures Stores(a + b) == Stores(a) + Stores(b)
  {
    if a == [] {
      assert a + b == b;
    } else {
      assert (a + b)[1..] == a[1..] + b;
      StoresSplit(a[1..], b);
    }
  }

  lemma {:induction false} NoStores(items: seq<Item>)
    requires forall i :: 0 <= i < |items| ==> !items[i].Io64?
    ensures Stores(items) == []
  {
    if items != [] {
      NoStores(items[1..]);
    }
  }

  lemma StoresAre(s: Saved, ncpus: nat)
    requires |s.x| == 32
    ensures Stores(Items(s, ncpus)) == TimerStores(s)
  {
    hide V, Stores;
    NoStores(Part1(s, ncpus));
    NoStores(Csr64s(s, DELEGATION));
    NoStores(Part3(s));
    NoStores(Csr64s(s, HANDLERS));
    TimersStore(s);
    StoresSplit(Part1(s, ncpus), Csr64s(s, DELEGATION));
    StoresSplit(Part1(s, ncpus) + Csr64s(s, DELEGATION), Part3(s));
    StoresSplit(Part1(s, ncpus) + Csr64s(s, DELEGATION) + Part3(s), Csr64s(s, HANDLERS));
    StoresSplit(Part1(s, ncpus) + Csr64s(s, DELEGATION) + Part3(s) + Csr64s(s, HANDLERS), Part5(s));
  }

  lemma TimersStore(s: Saved)
    requires |s.x| == 32
    ensures Stores(Part5(s)) == TimerStores(s)
  {
    hide V;
    var first, counts, last := [Io64(s.clint + 0x4000, s.timecmp)], Csr64s(s, [0xb02, 0xb00]),
                               [Io64(s.clint + 0xbff8, s.mtime)];
    assert Stores(first) == [(s.clint + 0x4000, s.timecmp)] && Stores(last) == [(s.clint + 0xbff8, s.mtime)];
    hide Stores;
    NoStores(UpperRegs(s));
    NoStores(counts);
    NoStores(LowRegs(s));
    NoStores(Last(s));
    StoresSplit(first, counts);
    StoresSplit(first + counts, last);
    StoresSplit(UpperRegs(s), Timers(s));
    StoresSplit(UpperRegs(s) + Timers(s), LowRegs(s));
    StoresSplit(UpperRegs(s) + Timers(s) + LowRegs(s), Last(s));
  }

  lemma ProgramLeaves(cfg: Cfg, s: Saved, ncpus: nat, d: nat, c: Core)
    requires ValidSaved(cfg, s, ncpus) && |c.x| == 32 && CsrOf(c, 0x302) == 0 && CsrOf(c, 0x303) == 0
    ensures ValidItems(Items(s, ncpus))
    ensures var c' := EffectFrom(cfg, Items(s, ncpus), d, c);
            && CsrOf(c', 0x7b1) == s.pc && CsrOf(c', 0x7b0) % 4 == s.priv
            && (forall r :: 1 <= r < 32 ==> c'.x[r] == s.x[r])
            && (forall i :: 0 <= i < |CLAIMED| ==> CsrOf(c', CLAIMED[i]) == V(s, CLAIMED[i]))
            && c'.io == c.io + TimerStores(s)
  {
    hide V, Items, Holds, EffectFrom, ValidItems, CsrOf, TimerStores, Stores;
    StoresAre(s, ncpus);
    EntryLeft(cfg, s, ncpus, d, c);
    IoLeft(cfg, Items(s, ncpus), d, c);
    TailLeft(cfg, s, ncpus, d, c);
    var c' := EffectFrom(cfg, Items(s, ncpus), d, c);
    forall r | 3 <= r < 32
      ensures c'.x[r] == s.x[r]
    {
      UpperLeft(cfg, s, ncpus, d, c, r);
    }
    forall i | 0 <= i < |CLAIMED|
      ensures CsrOf(c', CLAIMED[i]) == V(s, CLAIMED[i])
    {
      if i < 4 {
        DelegationRestored(cfg, s, ncpus, d, c, if i < 2 then i else i + 1);
      } else if i < 12 {
        HandlersRestored(cfg, s, ncpus, d, c, i - 4);
      }
    }
  }

  /** A ROM that holds the program: running it from its first word in debug mode
      ends, at dret, in the saved hart. */
  lemma Recovered(cfg: Cfg, rom: seq<nat>, s: Saved, ncpus: nat, c: Core)
    requires ValidSaved(cfg, s, ncpus) && InDebug(c) && CsrOf(c, 0x302) == 0 && CsrOf(c, 0x303) == 0
    requires var items := Items(s, ncpus);
             LaidFrom(rom, items, 0, DATA_START) && rom[CodeSize(items)] == DRET
    ensures var r := Run(cfg, rom, ROM_BASE, c, StepCount(Items(s, ncpus)) + 1);
            r.Some? && Rebuilt(s, c, r.value.0, r.value.1)
  {
    hide Run, V, Items, Holds, EffectFrom, ValidItems, CsrOf, InDebug, AllOk;
    var items := Items(s, ncpus);
    DebugValid(c);
    ItemsOk(cfg, s, ncpus, c.fs);
    ProgramRuns(cfg, rom, items, 0, DATA_START, c);
    ProgramLeaves(cfg, s, ncpus, DATA_START, c);
    var c1 := EffectFrom(cfg, items, DATA_START, c);
    var p := CodeSize(items);
    DretRuns(cfg, rom, p, c1);
    RunRun(cfg, rom, ROM_BASE, c, StepCount(items), 1, ROM_BASE + 4 * p, c1);
    SameX(c1, s);
    SameCsrs(c1);
  }

  lemma SameX(c: Core, s: Saved)
    requires InDebug(c) && |s.x| == 32 && s.x[0] == 0 && forall r :: 1 <= r < 32 ==> c.x[r] == s.x[r]
    ensures c.x == s.x
  {
    forall r | 0 <= r < 32
      ensures c.x[r] == s.x[r]
    {
      if r == 0 {
        assert c.x[0] == 0;
      }
    }
  }

  lemma SameCsrs(c: Core)
    ensures forall csr: nat, priv: nat :: CsrOf(c.(debug := false, priv := priv), csr) == CsrOf(c, csr)
  {
  }

  /** A fresh hart about to run the ROM. */
  ghost predicate AtReset(c: Core)
  {
    InDebug(c) && CsrOf(c, 0x302) == 0 && CsrOf(c, 0x303) == 0
  }

  /** Run from its first word, the ROM rebuilds the saved hart on every machine
      and from every fresh hart. */
  ghost predicate Recovers(rom: seq<nat>, s: Saved, ncpus: nat)
    requires |s.x| == 32
  {
    forall cfg: Cfg, c: Core :: ValidSaved(cfg, s, ncpus) && AtReset(c) ==> Restart(cfg, rom, s, ncpus, c)
  }

  ghost predicate Restart(cfg: Cfg, rom: seq<nat>, s: Saved, ncpus: nat, c: Core)
    requires |s.x| == 32
  {
    && cfg.physSize > 0 && ValidCore(c)
    && var r := Run(cfg, rom, ROM_BASE, c, StepCount(Items(s, ncpus)) + 1);
       r.Some? && Rebuilt(s, c, r.value.0, r.value.1)
  }

  lemma RecoversAll(rom: seq<nat>, s: Saved, ncpus: nat)
    requires |s.x| == 32
    requires LaidFrom(rom, Items(s, ncpus), 0, DATA_START) && rom[CodeSize(Items(s, ncpus))] == DRET
    ensures Recovers(rom, s, ncpus)
  {
    hide Run, Rebuilt, LaidFrom, Items, V, Holds, CsrOf;
    forall cfg: Cfg, c: Core | ValidSaved(cfg, s, ncpus) && AtReset(c)
      ensures Restart(cfg, rom, s, ncpus, c)
    {
      Recovered(cfg, rom, s, ncpus, c);
    }
  }
}
