/** The recovery program as a whole: the items for a saved hart, the run through
    all of them, and the hart that the final dret leaves. */
module Recovery {
  import opened Rv64
  import opened BootRom

  // ----- programs

  function CodeFrom(items: seq<Item>, p: nat, d: nat): seq<nat>
  {
    if items == [] then []
    else Code(items[0], p, d) + CodeFrom(items[1..], p + CodeLen(items[0]), d + DataLen(items[0]))
  }

  function DataOf(items: seq<Item>): seq<nat>
  {
    if items == [] then [] else Data(items[0]) + DataOf(items[1..])
  }

  function CodeSize(items: seq<Item>): nat
  {
    if items == [] then 0 else CodeLen(items[0]) + CodeSize(items[1..])
  }

  function DataSize(items: seq<Item>): nat
  {
    if items == [] then 0 else DataLen(items[0]) + DataSize(items[1..])
  }

  function StepCount(items: seq<Item>): nat
  {
    if items == [] then 0 else Steps(items[0]) + StepCount(items[1..])
  }

  predicate ValidItem(item: Item) { item.Reg? ==> 0 < item.rn < 32 }

  ghost predicate ValidItems(items: seq<Item>)
  {
    forall i :: 0 <= i < |items| ==> ValidItem(items[i])
  }

  function EffectFrom(cfg: Cfg, items: seq<Item>, d: nat, c: Core): (c': Core)
    requires cfg.physSize > 0 && |c.x| == 32 && ValidItems(items)
    ensures |c'.x| == 32
  {
    if items == [] then c
    else EffectFrom(cfg, items[1..], d + DataLen(items[0]), Effect(cfg, items[0], d, c))
  }

  lemma {:induction false} Sizes(items: seq<Item>, p: nat, d: nat)
    ensures |CodeFrom(items, p, d)| == CodeSize(items) && |DataOf(items)| == DataSize(items)
  {
    hide Code, Data, CodeLen, DataLen;
    if items != [] {
      Lengths(items[0], p, d);
      Sizes(items[1..], p + CodeLen(items[0]), d + DataLen(items[0]));
    }
  }

  lemma {:induction false} AppendSizes(items: seq<Item>, item: Item)
    ensures CodeSize(items + [item]) == CodeSize(items) + CodeLen(item)
    ensures DataSize(items + [item]) == DataSize(items) + DataLen(item)
  {
    hide CodeLen, DataLen;
    if items == [] {
      assert items + [item] == [item] && [item][1..] == [];
    } else {
      assert (items + [item])[0] == items[0] && (items + [item])[1..] == items[1..] + [item];
      AppendSizes(items[1..], item);
    }
  }

  lemma {:induction false} AppendData(items: seq<Item>, item: Item)
    ensures DataOf(items + [item]) == DataOf(items) + Data(item)
  {
    hide Data;
    if items == [] {
      assert items + [item] == [item] && [item][1..] == [];
    } else {
      assert (items + [item])[0] == items[0] && (items + [item])[1..] == items[1..] + [item];
      AppendData(items[1..], item);
    }
  }

  lemma {:induction false} AppendCode(items: seq<Item>, item: Item, p: nat, d: nat)
    ensures CodeFrom(items + [item], p, d) ==
              CodeFrom(items, p, d) + Code(item, p + CodeSize(items), d + DataSize(items))
  {
    hide Code, CodeLen, DataLen;
    if items == [] {
      assert items + [item] == [item] && [item][1..] == [];
      assert CodeFrom([], p + CodeLen(item), d + DataLen(item)) == [];
    } else {
      assert (items + [item])[0] == items[0] && (items + [item])[1..] == items[1..] + [item];
      AppendCode(items[1..], item, p + CodeLen(items[0]), d + DataLen(items[0]));
    }
  }

  /** Emitting one more item appends its words. */
  lemma Append(items: seq<Item>, item: Item, p: nat, d: nat)
    ensures CodeSize(items + [item]) == CodeSize(items) + CodeLen(item)
    ensures DataSize(items + [item]) == DataSize(items) + DataLen(item)
    ensures CodeFrom(items + [item], p, d) ==
              CodeFrom(items, p, d) + Code(item, p + CodeSize(items), d + DataSize(items))
    ensures DataOf(items + [item]) == DataOf(items) + Data(item)
  {
    AppendSizes(items, item);
    AppendData(items, item);
    AppendCode(items, item, p, d);
  }

  lemma {:induction false} EffectSplit(cfg: Cfg, a: seq<Item>, b: seq<Item>, d: nat, c: Core)
    requires cfg.physSize > 0 && |c.x| == 32 && ValidItems(a) && ValidItems(b)
    ensures ValidItems(a + b)
    ensures EffectFrom(cfg, a + b, d, c) == EffectFrom(cfg, b, d + DataSize(a), EffectFrom(cfg, a, d, c))
  {
    hide Effect, DataLen;
    if a == [] {
      assert a + b == b;
    } else {
      assert (a + b)[0] == a[0] && (a + b)[1..] == a[1..] + b;
      EffectSplit(cfg, a[1..], b, d + DataLen(a[0]), Effect(cfg, a[0], d, c));
    }
  }

  // ----- running a program

  function FsAfter(item: Item, fs: nat): nat
  {
    if item.Csr64? && item.csr == 0x300 then item.val / 0x2000 % 4
    else if item.Csr12? && item.csr == 0x300 then Imm12(item.val) / 0x2000 % 4
    else fs
  }

  /** Every item can run, given the FS field the ones before it leave. */
  predicate AllOk(cfg: Cfg, items: seq<Item>, fs: nat)
  {
    items == [] || (ItemOk(cfg, items[0], fs) && AllOk(cfg, items[1..], FsAfter(items[0], fs)))
  }

  lemma {:induction false} OkIsValid(cfg: Cfg, items: seq<Item>, fs: nat)
    requires AllOk(cfg, items, fs)
    ensures ValidItems(items)
  {
    hide Writable;
    if items != [] {
      OkIsValid(cfg, items[1..], FsAfter(items[0], fs));
      assert forall i :: 0 < i < |items| ==> items[i] == items[1..][i - 1];
      assert ValidItem(items[0]);
    }
  }

  lemma EffectKeeps(cfg: Cfg, item: Item, d: nat, c: Core)
    requires InDebug(c) && cfg.physSize > 0 && ItemOk(cfg, item, c.fs) && ROM_BASE + 4 * d < W64 && cfg.hartid < W64
    ensures var c' := Effect(cfg, item, d, c);
            InDebug(c') && c'.fs == FsAfter(item, c.fs)
  {
    hide Legal, Tracked, Accepted;
    Dscratch(cfg, c, if item.Csr64? then item.val else if item.Csr12? then Imm12(item.val) else c.x[1]);
  }

  lemma Dscratch(cfg: Cfg, c: Core, v: nat)
    requires cfg.physSize > 0
    ensures Tracked(0x7b2) && !Tracked(0x300) && Legal(cfg, 0x7b2, CsrOf(c, 0x7b2), v) == v
  {
  }

  /** The words of all items are in the ROM. */
  predicate LaidFrom(rom: seq<nat>, items: seq<Item>, p: nat, d: nat)
  {
    && |rom| == ROM_WORDS && p + CodeSize(items) + 8 <= d && d % 2 == 0 && d + DataSize(items) + 4 <= |rom|
    && rom[p..p + CodeSize(items)] == CodeFrom(items, p, d)
    && rom[d..d + DataSize(items)] == DataOf(items)
  }

  lemma LaidFirst(rom: seq<nat>, items: seq<Item>, p: nat, d: nat)
    requires items != [] && LaidFrom(rom, items, p, d)
    ensures Laid(rom, items[0], p, d)
    ensures LaidFrom(rom, items[1..], p + CodeLen(items[0]), d + DataLen(items[0]))
  {
    hide Code, Data, CodeLen, DataLen;
    var n, m := CodeLen(items[0]), DataLen(items[0]);
    var n', m' := CodeSize(items[1..]), DataSize(items[1..]);
    EvenData(items[0]);
    Lengths(items[0], p, d);
    Sizes(items[1..], p + n, d + m);
    SubSlice(rom, p, n + n', 0, n);
    SubSlice(rom, p, n + n', n, n + n');
    SubSlice(rom, d, m + m', 0, m);
    SubSlice(rom, d, m + m', m, m + m');
    var code, data := CodeFrom(items, p, d), DataOf(items);
    assert code[0..n] == Code(items[0], p, d) && code[n..n + n'] == CodeFrom(items[1..], p + n, d + m);
    assert data[0..m] == Data(items[0]) && data[m..m + m'] == DataOf(items[1..]);
  }

  lemma EvenData(item: Item)
    ensures DataLen(item) % 2 == 0
  {
  }

  /** The run through all items has their effects in order. */
  lemma {:induction false} ProgramRuns(cfg: Cfg, rom: seq<nat>, items: seq<Item>, p: nat, d: nat, c: Core)
    requires InDebug(c) && cfg.physSize > 0 && cfg.hartid < W64 && LaidFrom(rom, items, p, d) && AllOk(cfg, items, c.fs)
    ensures ValidItems(items) && InDebug(EffectFrom(cfg, items, d, c))
    ensures Run(cfg, rom, ROM_BASE + 4 * p, c, StepCount(items)) ==
              Some((ROM_BASE + 4 * (p + CodeSize(items)), EffectFrom(cfg, items, d, c)))
  {
    hide Run, Effect, ItemOk, FsAfter, InDebug, Laid, LaidFrom, CodeLen, DataLen, Steps;
    OkIsValid(cfg, items, c.fs);
    DebugValid(c);
    if items == [] {
      RunNone(cfg, rom, ROM_BASE + 4 * p, c);
    } else {
      var first, rest := items[0], items[1..];
      var p', d' := p + CodeLen(first), d + DataLen(first);
      LaidFirst(rom, items, p, d);
      RomRange(rom, items, p, d);
      ItemRuns(cfg, rom, first, p, d, c);
      EffectKeeps(cfg, first, d, c);
      var c1 := Effect(cfg, first, d, c);
      DebugValid(c1);
      ProgramRuns(cfg, rom, rest, p', d', c1);
      RunRun(cfg, rom, ROM_BASE + 4 * p, c, Steps(first), StepCount(rest), ROM_BASE + 4 * p', c1);
    }
  }

  lemma RunNone(cfg: Cfg, rom: seq<nat>, pc: nat, c: Core)
    requires ValidCore(c) && cfg.physSize > 0
    ensures Run(cfg, rom, pc, c, 0) == Some((pc, c))
  {
  }

  lemma DebugValid(c: Core)
    requires InDebug(c)
    ensures ValidCore(c) && |c.x| == 32
  {
  }

  lemma RomRange(rom: seq<nat>, items: seq<Item>, p: nat, d: nat)
    requires LaidFrom(rom, items, p, d)
    ensures ROM_BASE + 4 * d < W64
  {
  }

  // ----- what a run of items leaves alone, and what it leaves behind

  predicate WritesCsr(item: Item, csr: nat)
  {
    || ((item.Csr64? || item.Csr12?) && item.csr == csr)
    || (item.SaveX1? && csr == 0x7b2)
  }

  predicate SetsX(item: Item, r: nat)
  {
    match item
    case Hang => r == 10
    case Csr64(_, _) => r == 1
    case Csr12(_, _) => r == 1
    case Reg(rn, _) => r == rn
    case Fp(_, _) => r == 1
    case Io64(_, _) => r == 1 || r == 2
    case SaveX1 => false
    case LoadX1 => r == 1
  }

  ghost predicate NoCsr(items: seq<Item>, csr: nat)
  {
    forall i :: 0 <= i < |items| ==> !WritesCsr(items[i], csr)
  }

  ghost predicate NoX(items: seq<Item>, r: nat)
  {
    forall i :: 0 <= i < |items| ==> !SetsX(items[i], r)
  }

  lemma {:induction false} CsrKept(cfg: Cfg, items: seq<Item>, d: nat, c: Core, csr: nat)
    requires cfg.physSize > 0 && |c.x| == 32 && ValidItems(items) && NoCsr(items, csr)
    ensures CsrOf(EffectFrom(cfg, items, d, c), csr) == CsrOf(c, csr)
  {
    if items != [] {
      hide Legal, Tracked;
      assert !WritesCsr(items[0], csr) && ValidItem(items[0]);
      CsrKept(cfg, items[1..], d + DataLen(items[0]), Effect(cfg, items[0], d, c), csr);
    }
  }

  lemma {:induction false} XKept(cfg: Cfg, items: seq<Item>, d: nat, c: Core, r: nat)
    requires cfg.physSize > 0 && |c.x| == 32 && ValidItems(items) && NoX(items, r) && r < 32
    ensures EffectFrom(cfg, items, d, c).x[r] == c.x[r]
  {
    if items != [] {
      hide Legal, Tracked;
      assert !SetsX(items[0], r) && ValidItem(items[0]);
      XKept(cfg, items[1..], d + DataLen(items[0]), Effect(cfg, items[0], d, c), r);
    }
  }

  lemma OneEffect(cfg: Cfg, item: Item, d: nat, c: Core)
    requires cfg.physSize > 0 && |c.x| == 32 && ValidItem(item)
    ensures ValidItems([item]) && EffectFrom(cfg, [item], d, c) == Effect(cfg, item, d, c)
  {
    hide Effect;
    var c1 := Effect(cfg, item, d, c);
    assert EffectFrom(cfg, [], d + DataLen(item), c1) == c1;
    assert [item][1..] == [];
  }

  lemma CsrEffect(cfg: Cfg, csr: nat, v: nat, d: nat, c: Core)
    requires cfg.physSize > 0 && |c.x| == 32 && Tracked(csr)
    ensures CsrOf(Effect(cfg, Csr64(csr, v), d, c), csr) == Legal(cfg, csr, CsrOf(c, csr), v)
  {
    hide Legal, Tracked;
  }

  /** The last item that writes a CSR decides its value. */
  lemma CsrLeft(cfg: Cfg, a: seq<Item>, csr: nat, v: nat, b: seq<Item>, d: nat, c: Core)
    requires cfg.physSize > 0 && |c.x| == 32 && ValidItems(a) && ValidItems(b) && NoCsr(b, csr) && Tracked(csr)
    ensures ValidItems(a + [Csr64(csr, v)] + b)
    ensures CsrOf(EffectFrom(cfg, a + [Csr64(csr, v)] + b, d, c), csr) ==
              Legal(cfg, csr, CsrOf(EffectFrom(cfg, a, d, c), csr), v)
  {
    hide Legal, Tracked, NoCsr, Effect, CsrOf;
    var item := Csr64(csr, v);
    CsrEffect(cfg, csr, v, d + DataSize(a), EffectFrom(cfg, a, d, c));
    OneEffect(cfg, item, d + DataSize(a), EffectFrom(cfg, a, d, c));
    EffectSplit(cfg, a, [item], d, c);
    EffectSplit(cfg, a + [item], b, d, c);
    CsrKept(cfg, b, d + DataSize(a + [item]), EffectFrom(cfg, a + [item], d, c), csr);
  }

  /** The last item that loads a register decides its value. */
  lemma XLeft(cfg: Cfg, a: seq<Item>, r: nat, v: nat, b: seq<Item>, d: nat, c: Core)
    requires cfg.physSize > 0 && |c.x| == 32 && ValidItems(a) && ValidItems(b) && NoX(b, r) && 0 < r < 32
    ensures ValidItems(a + [Reg(r, v)] + b)
    ensures EffectFrom(cfg, a + [Reg(r, v)] + b, d, c).x[r] == v
  {
    hide Legal, Tracked, NoX;
    var item := Reg(r, v);
    OneEffect(cfg, item, d + DataSize(a), EffectFrom(cfg, a, d, c));
    EffectSplit(cfg, a, [item], d, c);
    EffectSplit(cfg, a + [item], b, d, c);
    XKept(cfg, b, d + DataSize(a + [item]), EffectFrom(cfg, a + [item], d, c), r);
  }
}
