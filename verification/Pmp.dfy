/** Physical memory protection: the raw CSRs, the ranges decoded from them, the
    access verdict, and what locked entries keep over whole runs of CSR writes. */
module Pmp {
  import opened Bits

  const PMP_N: nat := 8
  const PMPADDR_BITS: nat := 38
  const PRV_M: nat := 3

  datatype Perm = R | W | X
  datatype Mode = Off | Tor | Na4 | Napot

  /** csr_pmpcfg[0], csr_pmpcfg[2] and the sixteen csr_pmpaddr registers. */
  datatype Regs = Regs(cfg0: nat, cfg2: nat, addr: seq<nat>)

  datatype Range = Range(lo: nat, hi: nat)

  /** One decoded entry: the configuration byte and the byte range. */
  datatype Entry = Entry(cfg: nat, range: Range)

  datatype CsrWrite = WriteCfg(reg: nat, val: nat) | WriteAddr(i: nat, val: nat)

  function ByteOf(w: nat, i: nat): (b: nat)
    ensures b < 256
  {
    assert P(8) == 256;
    Low(Shr(w, 8 * i), 8)
  }

  predicate Locked(cfg: nat) { cfg / 0x80 % 2 == 1 }

  function ModeOf(cfg: nat): Mode
  {
    var a := cfg / 8 % 4;
    if a == 0 then Off else if a == 1 then Tor else if a == 2 then Na4 else Napot
  }

  predicate Grants(cfg: nat, perm: Perm)
  {
    match perm
    case R => cfg % 2 == 1
    case W => cfg / 2 % 2 == 1
    case X => cfg / 4 % 2 == 1
  }

  /** cfg & ~PMPCFG_RES */
  function ClearReserved(cfg: nat): nat
    requires cfg < 256
  {
    cfg / 0x80 * 0x80 + cfg % 0x20
  }

  function CfgByte(r: Regs, i: nat): (b: nat)
    requires i < 16
    ensures b < 256
  {
    if i < 8 then ByteOf(r.cfg0, i) else ByteOf(r.cfg2, i - 8)
  }

  /** What every state reached from reset satisfies. */
  ghost predicate ValidRegs(r: Regs)
  {
    && |r.addr| == 16 && r.cfg0 < P(64) && r.cfg2 == 0
    && (forall i :: 0 <= i < 16 ==> r.addr[i] < P(PMPADDR_BITS))
    && (forall i :: 0 <= i < 8 ==> ClearReserved(ByteOf(r.cfg0, i)) == ByteOf(r.cfg0, i))
  }

  function Reset(): Regs { Regs(0, 0, seq(16, _ => 0)) }

  lemma ByteOfZero(i: nat)
    ensures ByteOf(0, i) == 0
  {
    hide P;
    Small(0, 8 * i);
    Small(0, 8);
  }

  lemma ResetIsValid()
    ensures ValidRegs(Reset())
  {
    hide P, ByteOf;
    forall i | 0 <= i < 8
      ensures ByteOf(Reset().cfg0, i) == 0
    {
      ByteOfZero(i);
    }
  }

  // ----- CSR writes

  /** The byte a pmpcfg write leaves: a locked byte keeps its value. */
  function NewByte(prev: nat, val: nat): (b: nat)
    requires prev < 256 && val < 256
    ensures b < 256
  {
    ClearReserved(if Locked(prev) then prev else val)
  }

  lemma AppendByte(w: nat, c: nat, i: nat, j: nat)
    requires w < P(8 * i) && c < 256 && j <= i
    ensures w + Shl(c, 8 * i) < P(8 * (i + 1))
    ensures ByteOf(w + Shl(c, 8 * i), j) == if j == i then c else ByteOf(w, j)
  {
    hide P, Shl, Shr, Low;
    var w' := w + Shl(c, 8 * i);
    assert P(8) == 256 by { PZero(); PStep(3); PStep(4); PStep(5); PStep(6); PStep(7); }
    assert w' < P(8 * (i + 1)) by {
      ShlCmp(c + 1, P(8), 8 * i);
      ShlSucc(c, 8 * i);
      ShlP(8, 8 * i);
    }
    if j == i {
      SplitUnique(w', 8 * i, c, w);
      Small(c, 8);
    } else {
      LowByteKept(w, c, i, j);
    }
  }

  lemma LowByteKept(w: nat, c: nat, i: nat, j: nat)
    requires j < i
    ensures ByteOf(w + Shl(c, 8 * i), j) == ByteOf(w, j)
  {
    hide P, Shl, Shr, Low;
    var d := 8 * i - 8 * j - 8;
    var w' := w + Shl(c, 8 * i);
    ShlShl(c, d + 8, 8 * j);
    Split(w, 8 * j);
    var q := Shr(w, 8 * j);
    ShlAdd(q, Shl(c, d + 8), 8 * j);
    SplitUnique(w', 8 * j, q + Shl(c, d + 8), Low(w, 8 * j));
    ShlShl(c, d, 8);
    Split(q, 8);
    ShlAdd(Shr(q, 8), Shl(c, d), 8);
    SplitUnique(q + Shl(c, d + 8), 8, Shr(q, 8) + Shl(c, d), Low(q, 8));
  }

  /** The loop of the pmpcfg write: eight bytes, each kept if locked. */
  method MergeCfg(orig: nat, val: nat) returns (w: nat)
    ensures w < P(64)
    ensures forall i :: 0 <= i < 8 ==> ByteOf(w, i) == NewByte(ByteOf(orig, i), ByteOf(val, i))
  {
    hide P, Shl, Shr, Low, ByteOf, ClearReserved, Locked;
    w := 0;
    PZero();
    for i := 0 to 8
      invariant w < P(8 * i)
      invariant forall j :: 0 <= j < i ==> ByteOf(w, j) == NewByte(ByteOf(orig, j), ByteOf(val, j))
    {
      var cfg := ByteOf(orig, i);
      if !Locked(cfg) {
        cfg := ByteOf(val, i);
      }
      cfg := ClearReserved(cfg);
      ClearedSmall(ByteOf(orig, i), ByteOf(val, i));
      ghost var before := w;
      forall j | 0 <= j <= i
        ensures ByteOf(before + Shl(cfg, 8 * i), j) == if j == i then cfg else ByteOf(before, j)
      {
        AppendByte(before, cfg, i, j);
      }
      AppendByte(before, cfg, i, i);
      w := w + Shl(cfg, 8 * i);
    }
  }

  lemma ClearedSmall(a: nat, b: nat)
    requires a < 256 && b < 256
    ensures ClearReserved(a) < 256 && ClearReserved(b) < 256
  {
  }

  /** pmpaddr i can be written: it is implemented, its entry is not locked, and
      it is not the lower bound of a locked TOR entry. */
  predicate AddrWritable(r: Regs, i: nat)
    requires i < 16
  {
    && i < PMP_N
    && !Locked(CfgByte(r, i))
    && !(i + 1 < PMP_N && ModeOf(CfgByte(r, i + 1)) == Tor && Locked(CfgByte(r, i + 1)))
  }

  /** The effect of a CSR write on the raw registers. */
  ghost predicate Written(r: Regs, w: CsrWrite, r': Regs)
  {
    match w
    case WriteCfg(reg, val) =>
      if reg != 0 then r' == r
      else r'.cfg2 == r.cfg2 && r'.addr == r.addr && r'.cfg0 < P(64)
           && forall i :: 0 <= i < 8 ==> ByteOf(r'.cfg0, i) == NewByte(ByteOf(r.cfg0, i), ByteOf(val, i))
    case WriteAddr(i, val) =>
      i < 16 && |r.addr| == 16 &&
      r' == if AddrWritable(r, i) then r.(addr := r.addr[i := Low(val, PMPADDR_BITS)]) else r
  }

  /** csr_write for CSR_PMPCFG(0) and CSR_PMPCFG(2); true when the ranges are
      decoded again. */
  method CfgWrite(r: Regs, c: nat, val: nat) returns (r': Regs, redo: bool)
    requires c == 0 || c == 2
    ensures Written(r, WriteCfg(c, val), r')
    ensures redo <==> c == 0
  {
    if PMP_N <= c / 2 * 8 {
      return r, false;
    }
    var w := MergeCfg(r.cfg0, val);
    r' := r.(cfg0 := w);
    redo := true;
  }

  /** csr_write for CSR_PMPADDR(i). */
  method AddrWrite(r: Regs, i: nat, val: nat) returns (r': Regs, redo: bool)
    requires i < 16 && |r.addr| == 16 && r.cfg0 < P(64)
    ensures Written(r, WriteAddr(i, val), r')
    ensures redo <==> AddrWritable(r, i)
  {
    hide P, Shl, Shr, Low;
    if PMP_N <= i {
      return r, false;
    }
    var cfg := Shr(r.cfg0, 8 * i);
    LowBits(cfg);
    if Locked(cfg) {
      return r, false;
    }
    cfg := Shr(cfg, 8);
    LowBits(cfg);
    ShrShr(r.cfg0, 8 * i, 8);
    if i == 7 {
      Small(r.cfg0, 64);
    }
    if ModeOf(cfg) == Tor && Locked(cfg) {
      return r, false;
    }
    r' := r.(addr := r.addr[i := Low(val, PMPADDR_BITS)]);
    redo := true;
  }

  lemma HighBitsDrop(q: nat, b: nat)
    ensures (256 * q + b) / 0x80 == 2 * q + b / 0x80
    ensures (256 * q + b) / 8 == 32 * q + b / 8
  {
    DivUnique(256 * q + b, 0x80, 2 * q + b / 0x80, b % 0x80);
    DivUnique(256 * q + b, 8, 32 * q + b / 8, b % 8);
  }

  /** The tests on a shifted register only look at its low byte. */
  lemma LowBits(w: nat)
    ensures Locked(w) <==> Locked(Low(w, 8))
    ensures ModeOf(w) == ModeOf(Low(w, 8))
  {
    hide P, Shl, Shr, Low;
    assert P(8) == 256 by { PZero(); PStep(3); PStep(4); PStep(5); PStep(6); PStep(7); }
    Split(w, 8);
    var q, b := Shr(w, 8), Low(w, 8);
    assert Shl(q, 8) == 256 * q by { ShlMulOne(1, 8, q); ShlNone(1, 0); PZero(); ShlP(0, 8); }
    HighBitsDrop(q, b);
    DivUnique(2 * q + b / 0x80, 2, q + b / 0x80 / 2, b / 0x80 % 2);
    DivUnique(32 * q + b / 8, 4, 8 * q + b / 8 / 4, b / 8 % 4);
  }

  /** Every write keeps the register invariant. */
  lemma WrittenValid(r: Regs, w: CsrWrite, r': Regs)
    requires ValidRegs(r) && Written(r, w, r')
    ensures ValidRegs(r')
  {
    hide P, ByteOf;
    match w
    case WriteCfg(reg, val) =>
      if reg == 0 {
        forall i | 0 <= i < 8
          ensures ClearReserved(ByteOf(r'.cfg0, i)) == ByteOf(r'.cfg0, i)
        {
          Idempotent(if Locked(ByteOf(r.cfg0, i)) then ByteOf(r.cfg0, i) else ByteOf(val, i));
        }
      }
    case WriteAddr(i, val) =>
  }

  lemma Idempotent(b: nat)
    requires b < 256
    ensures ClearReserved(b) < 256 && ClearReserved(ClearReserved(b)) == ClearReserved(b)
  {
  }

  // ----- locked entries over runs

  /** A run of CSR writes. */
  ghost predicate IsRun(states: seq<Regs>, writes: seq<CsrWrite>)
  {
    && |states| == |writes| + 1
    && ValidRegs(states[0])
    && (forall k :: 0 <= k < |writes| ==> Written(states[k], writes[k], states[k + 1]))
  }

  lemma {:induction false} RunValid(states: seq<Regs>, writes: seq<CsrWrite>, k: nat)
    requires IsRun(states, writes) && k < |states|
    ensures ValidRegs(states[k])
  {
    if k > 0 {
      RunValid(states, writes, k - 1);
      assert Written(states[k - 1], writes[k - 1], states[k]);
      WrittenValid(states[k - 1], writes[k - 1], states[k]);
    }
  }

  /** The registers a locked entry is made of are the same. */
  predicate SameEntry(r: Regs, r': Regs, i: nat)
    requires i < 16 && |r.addr| == 16 && |r'.addr| == 16
  {
    && CfgByte(r', i) == CfgByte(r, i)
    && r'.addr[i] == r.addr[i]
    && (ModeOf(CfgByte(r, i)) == Tor && i > 0 ==> r'.addr[i - 1] == r.addr[i - 1])
  }

  lemma LockedStep(r: Regs, w: CsrWrite, r': Regs, i: nat)
    requires ValidRegs(r) && Written(r, w, r') && i < 8 && Locked(CfgByte(r, i))
    ensures |r'.addr| == 16 && SameEntry(r, r', i)
  {
    hide P, ByteOf;
    assert ClearReserved(ByteOf(r.cfg0, i)) == ByteOf(r.cfg0, i);
  }

  /** A locked entry keeps its byte, its address, for TOR the address before
      it, and so its decoded range, in every later state of every run. */
  lemma {:induction false} LockedForever(states: seq<Regs>, writes: seq<CsrWrite>, a: nat, b: nat, i: nat)
    requires IsRun(states, writes) && a <= b < |states| && i < 8
    requires Locked(CfgByte(states[a], i))
    ensures ValidRegs(states[a]) && ValidRegs(states[b])
    ensures SameEntry(states[a], states[b], i)
    ensures IsOn(states[a], i) <==> IsOn(states[b], i)
    ensures IsOn(states[a], i) ==> RangeOf(states[a], i) == RangeOf(states[b], i)
    decreases b
  {
    hide P, ByteOf, ValidRegs, Written, NapotRange;
    RunValid(states, writes, a);
    RunValid(states, writes, b);
    AddrCount(states[a]);
    AddrCount(states[b]);
    if a < b {
      LockedForever(states, writes, a, b - 1, i);
      AddrCount(states[b - 1]);
      assert Written(states[b - 1], writes[b - 1], states[b]);
      LockedStep(states[b - 1], writes[b - 1], states[b], i);
    }
  }

  lemma AddrCount(r: Regs)
    requires ValidRegs(r)
    ensures |r.addr| == 16
  {
  }

  // ----- decoding

  function TrailingOnes(a: nat): nat
  {
    if a % 2 == 0 then 0 else 1 + TrailingOnes(a / 2)
  }

  /** The naturally aligned region of 2^(k+3) bytes for k trailing ones. */
  function NapotRange(a: nat): Range
  {
    var k := TrailingOnes(a);
    Range(Shl(Shr(a, k + 1), k + 3), Shl(Shr(a, k + 1) + 1, k + 3))
  }

  predicate IsOn(r: Regs, i: nat)
    requires i < 16
  {
    ModeOf(CfgByte(r, i)) != Off
  }

  function RangeOf(r: Regs, i: nat): Range
    requires i < 16 && |r.addr| == 16 && IsOn(r, i)
  {
    match ModeOf(CfgByte(r, i))
    case Tor => Range(if i == 0 then 0 else 4 * r.addr[i - 1], 4 * r.addr[i])
    case Na4 => Range(4 * r.addr[i], 4 * r.addr[i] + 4)
    case Napot => NapotRange(r.addr[i])
  }

  /** The entries decoded from the first n raw ones. */
  function Decoded(r: Regs, n: nat): seq<Entry>
    requires n <= 16 && |r.addr| == 16
  {
    if n == 0 then []
    else Decoded(r, n - 1) + if IsOn(r, n - 1) then [Entry(CfgByte(r, n - 1), RangeOf(r, n - 1))] else []
  }

  lemma {:induction false} OnesBelow(a: nat, n: nat)
    requires a < P(n)
    ensures TrailingOnes(a) <= n
  {
    if a % 2 == 1 {
      assert n > 0;
      PStep(n - 1);
      OnesBelow(a / 2, n - 1);
    }
  }

  /** Naturally aligned, of 2^(k+3) bytes, and given by the bits above the ones:
      for a == q * 2^(k+1) + 2^k - 1 the region starts at q * 2^(k+3). */
  lemma NapotRegion(q: nat, k: nat)
    ensures TrailingOnes(Shl(q, k + 1) + P(k) - 1) == k
    ensures NapotRange(Shl(q, k + 1) + P(k) - 1) == Range(q * P(k + 3), q * P(k + 3) + P(k + 3))
  {
    NapotOnes(q, k);
    PStep(k);
    SplitUnique(Shl(q, k + 1) + P(k) - 1, k + 1, q, P(k) - 1);
    ShlSucc(q, k + 3);
  }

  lemma {:induction false} NapotOnes(q: nat, k: nat)
    ensures TrailingOnes(Shl(q, k + 1) + P(k) - 1) == k
  {
    hide Shl;
    var a := Shl(q, k + 1) + P(k) - 1;
    ShlShl(q, k, 1);
    ShlOne(Shl(q, k));
    if k == 0 {
      ShlNone(q, 0);
    } else {
      PStep(k - 1);
      NapotOnes(q, k - 1);
      assert a / 2 == Shl(q, k) + P(k - 1) - 1;
    }
  }

  /** The NAPOT case of unpack_pmpaddrs, for any 64-bit register value; with the
      implemented 38 bits neither overflow guard is taken. */
  method UnpackNapot(a: nat) returns (range: Range)
    requires a < P(64)
    ensures a < P(PMPADDR_BITS) ==> range == NapotRange(a)
  {
    hide P, Shl, Shr, Low;
    var j: nat := 0;
    ShlNone(a, 0);
    OnesBelow(a, 64);
    ShrNone(a);
    while j < 64
      invariant j <= 64 && TrailingOnes(a) == j + TrailingOnes(Shr(a, j))
    {
      if Low(Shr(a, j), 1) == 0 {
        break;
      }
      OddStep(Shr(a, j));
      ShrShr(a, j, 1);
      j := j + 1;
    }
    OnesDone(a, j);
    j := j + 3;
    if j >= 64 {
      range := Range(0, 0xFFFF_FFFF_FFFF_FFFF);
      if a < P(PMPADDR_BITS) {
        OnesBelow(a, PMPADDR_BITS);
      }
    } else {
      var lo := Shl(Shr(Low(Shl(a, 2), 64), j), j);
      var hi := Low(lo + P(j), 64);
      if hi <= lo {
        hi := 0xFFFF_FFFF_FFFF_FFFF;
      }
      range := Range(lo, hi);
      if a < P(PMPADDR_BITS) {
        OnesBelow(a, PMPADDR_BITS);
        NapotAsCoded(a);
      }
    }
  }

  lemma OddStep(b: nat)
    requires Low(b, 1) != 0
    ensures TrailingOnes(b) == 1 + TrailingOnes(Shr(b, 1))
  {
    PZero();
  }

  lemma OnesDone(a: nat, j: nat)
    requires TrailingOnes(a) == j + TrailingOnes(Shr(a, j))
    requires j >= 64 ==> TrailingOnes(a) <= 64
    requires j < 64 ==> Low(Shr(a, j), 1) == 0
    ensures TrailingOnes(a) == j
  {
    PZero();
  }

  lemma NapotAsCoded(a: nat)
    requires a < P(PMPADDR_BITS) && TrailingOnes(a) <= PMPADDR_BITS
    ensures var j := TrailingOnes(a) + 3;
            var lo := Shl(Shr(Low(Shl(a, 2), 64), j), j);
            lo + P(j) < P(64) && Low(lo + P(j), 64) == lo + P(j) > lo && Range(lo, lo + P(j)) == NapotRange(a)
  {
    hide P, Shl, Shr, Low;
    var k := TrailingOnes(a);
    var j := k + 3;
    var b := Shl(a, 2);
    ShlCmp(a, P(PMPADDR_BITS), 2);
    ShlP(PMPADDR_BITS, 2);
    PStrict(40, 64);
    Small(b, 64);
    // b >> j is a >> (k + 1)
    ShrShr(b, 2, k + 1);
    ShrShl(a, 2);
    var q := Shr(a, k + 1);
    Split(b, j);
    ShlSucc(q, j);
    PMono(j, 41);
    PStrict(41, 42); PStrict(40, 41); PStrict(42, 64);
    Small(Shl(q, j) + P(j), 64);
  }

  /** unpack_pmpaddrs */
  method UnpackPmpaddrs(r: Regs) returns (pmp: seq<Entry>)
    requires ValidRegs(r)
    ensures pmp == Decoded(r, 16)
  {
    hide P, ByteOf, NapotRange, ClearReserved;
    pmp := [];
    for i := 0 to 16
      invariant pmp == Decoded(r, i)
    {
      var cfg := if i < 8 then ByteOf(r.cfg0, i) else ByteOf(r.cfg2, i - 8);
      match ModeOf(cfg)
      case Off =>
      case Tor =>
        pmp := pmp + [Entry(cfg, Range(if i == 0 then 0 else 4 * r.addr[i - 1], 4 * r.addr[i]))];
      case Na4 =>
        pmp := pmp + [Entry(cfg, Range(4 * r.addr[i], 4 * r.addr[i] + 4))];
      case Napot =>
        PMono(PMPADDR_BITS, 64);
        var range := UnpackNapot(r.addr[i]);
        pmp := pmp + [Entry(cfg, range)];
    }
  }

  // ----- the verdict

  /** The test the code makes between a range and an access. */
  predicate Touches(range: Range, paddr: nat, size: nat)
  {
    range.lo <= paddr + size - 1 && paddr < range.hi
  }

  predicate Matches(r: Regs, i: nat, paddr: nat, size: nat)
    requires |r.addr| == 16
  {
    i < 16 && IsOn(r, i) && Touches(RangeOf(r, i), paddr, size)
  }

  /** Does entry configuration cfg let this privilege make this access? */
  predicate Lets(cfg: nat, priv: nat, perm: Perm)
  {
    if priv < PRV_M || Locked(cfg) then Grants(cfg, perm) else true
  }

  ghost predicate IsLowest(r: Regs, i: nat, paddr: nat, size: nat)
    requires |r.addr| == 16
  {
    Matches(r, i, paddr, size) && forall j: nat :: j < i ==> !Matches(r, j, paddr, size)
  }

  /** The verdict as the architecture words it: the lowest-numbered matching
      entry decides; without one, only machine mode may go on. */
  ghost predicate Allowed(r: Regs, physLen: nat, priv: nat, perm: Perm, paddr: nat, size: nat)
    requires |r.addr| == 16
  {
    && paddr < P(physLen)
    && (if exists i: nat :: Matches(r, i, paddr, size)
        then exists i: nat :: IsLowest(r, i, paddr, size) && Lets(CfgByte(r, i), priv, perm)
        else priv == PRV_M)
  }

  /** riscv_cpu_pmp_access_ok over the decoded list. The empty list entries of
      switched-off registers are not in it. */
  method AccessOk(r: Regs, pmp: seq<Entry>, physLen: nat, priv: nat, perm: Perm, paddr: nat, size: nat)
      returns (ok: bool)
    requires |r.addr| == 16 && pmp == Decoded(r, 16)
    ensures ok <==> Allowed(r, physLen, priv, perm, paddr, size)
  {
    hide P, Shr, ByteOf, Decoded, RangeOf;
    ShrLt(paddr, physLen, 1);
    assert Shl(1, physLen) == P(physLen) by { ShlNone(1, 0); PZero(); ShlP(0, physLen); }
    if Shr(paddr, physLen) != 0 {
      return false;
    }
    for i := 0 to |pmp|
      invariant forall j :: 0 <= j < i ==> !Touches(pmp[j].range, paddr, size)
    {
      if pmp[i].range.lo <= paddr + size - 1 && paddr < pmp[i].range.hi {
        var raw := FirstRaw(r, i, paddr, size);
        if priv < PRV_M || Locked(pmp[i].cfg) {
          return Grants(pmp[i].cfg, perm);
        } else {
          return true;
        }
      }
    }
    NoneRaw(r, paddr, size);
    ok := priv == PRV_M;
  }

  /** The raw entry behind decoded entry d of the first n. */
  lemma {:induction false} RawOf(r: Regs, n: nat, d: nat) returns (i: nat)
    requires |r.addr| == 16 && n <= 16 && d < |Decoded(r, n)|
    ensures i < n && IsOn(r, i) && |Decoded(r, i)| == d
    ensures Decoded(r, n)[d] == Entry(CfgByte(r, i), RangeOf(r, i))
  {
    hide ByteOf, RangeOf, ModeOf;
    if d < |Decoded(r, n - 1)| {
      i := RawOf(r, n - 1, d);
    } else {
      i := n - 1;
    }
  }

  /** A switched-on raw entry is in the list, at the place of those before it. */
  lemma {:induction false} ListedAt(r: Regs, n: nat, i: nat)
    requires |r.addr| == 16 && i < n <= 16 && IsOn(r, i)
    ensures |Decoded(r, i)| < |Decoded(r, n)|
    ensures Decoded(r, n)[|Decoded(r, i)|] == Entry(CfgByte(r, i), RangeOf(r, i))
  {
    hide ByteOf, RangeOf, ModeOf;
    if i < n - 1 {
      ListedAt(r, n - 1, i);
    }
  }

  lemma FirstRaw(r: Regs, d: nat, paddr: nat, size: nat) returns (i: nat)
    requires |r.addr| == 16 && d < |Decoded(r, 16)|
    requires Touches(Decoded(r, 16)[d].range, paddr, size)
    requires forall e :: 0 <= e < d ==> !Touches(Decoded(r, 16)[e].range, paddr, size)
    ensures IsLowest(r, i, paddr, size) && CfgByte(r, i) == Decoded(r, 16)[d].cfg
    ensures forall j: nat :: IsLowest(r, j, paddr, size) ==> j == i
  {
    hide ByteOf, RangeOf, Decoded, ModeOf;
    i := RawOf(r, 16, d);
    forall j: nat | j < i
      ensures !Matches(r, j, paddr, size)
    {
      if IsOn(r, j) {
        ListedAt(r, 16, j);
        ListedAt(r, i, j);
      }
    }
  }

  lemma NoneRaw(r: Regs, paddr: nat, size: nat)
    requires |r.addr| == 16
    requires forall e :: 0 <= e < |Decoded(r, 16)| ==> !Touches(Decoded(r, 16)[e].range, paddr, size)
    ensures forall i: nat :: !Matches(r, i, paddr, size)
  {
    hide ByteOf, RangeOf, Decoded, ModeOf;
    forall i: nat | i < 16
      ensures !Matches(r, i, paddr, size)
    {
      if IsOn(r, i) {
        ListedAt(r, 16, i);
      }
    }
  }

  predicate InBoth(range: Range, paddr: nat, size: nat, b: nat)
  {
    paddr <= b < paddr + size && range.lo <= b < range.hi
  }

  /** Some byte of the access lies in the range. */
  ghost predicate Intersects(range: Range, paddr: nat, size: nat)
  {
    exists b: nat :: InBoth(range, paddr, size, b)
  }

  /** The test finds an intersection exactly, except that an access around an
      empty range (a TOR entry whose bounds are equal or swapped) also passes. */
  lemma TouchesExactly(range: Range, paddr: nat, size: nat)
    requires size > 0
    ensures Touches(range, paddr, size) <==>
              Intersects(range, paddr, size) || (paddr < range.hi <= range.lo < paddr + size)
  {
    if Touches(range, paddr, size) && range.lo < range.hi {
      var b := if paddr <= range.lo then range.lo else paddr;
      assert InBoth(range, paddr, size, b);
    }
  }

  /** The empty range [4, 4) is taken to match an aligned 8-byte access at 0. */
  lemma EmptyRangeMatches()
    ensures Touches(Range(4, 4), 0, 8) && !Intersects(Range(4, 4), 0, 8)
  {
  }
}
