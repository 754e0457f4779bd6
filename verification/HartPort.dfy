/** The hart state behind loads, stores and fetches, with every operation that
    changes what they see. */
module HartPort {
  import opened Bits
  import opened Pmp
  import opened Paging
  import opened Tlb
  import Rv64

  /** val & SATP_MASK, with no ASID bits */
  function MaskSatp(val: nat): nat { Shl(Low(Shr(val, 60), 4), 60) + Low(val, 44) }

  lemma MaskSatpKeeps(val: nat)
    ensures MaskSatp(val) < P(64) && SatpMode(MaskSatp(val)) == SatpMode(val)
    ensures Root(MaskSatp(val)) == Root(val)
  {
    hide P, Shl, Shr, Low;
    var m, ppn := Low(Shr(val, 60), 4), Low(val, 44);
    PMono(44, 60);
    SplitUnique(MaskSatp(val), 60, m, ppn);
    Small(m, 4);
    ShlShl(m, 16, 44);
    SplitUnique(MaskSatp(val), 44, Shl(m, 16), ppn);
    ShlCmp(m + 1, P(4), 60);
    ShlSucc(m, 60);
    ShlP(4, 60);
  }

  /** A RAM address is as aligned as the virtual address. */
  lemma RamAligned(v: View, env: Env, mem: Memory, access: Access, vaddr: nat, size: nat, pa: nat)
    requires ValidView(v) && IsSize(size) && vaddr < WORD && Reference(v, env, mem, access, vaddr, size) == InRam(pa)
    ensures pa % size == 0
  {
    hide ValidView, PageBase, Allowed, P;
    RamFacts(v, env, mem, access, vaddr, size, pa);
    assert vaddr / PG < WORD / PG;
    PageBaseAligned(v, env, mem, access, vaddr / PG);
    OffsetAligned(pa - vaddr % PG, vaddr, size);
  }

  // ----- traps

  /** The CSRs that traps and returns use. */
  datatype TrapCsrs = TrapCsrs(mepc: nat, mcause: nat, mtval: nat, mtvec: nat,
                               sepc: nat, scause: nat, stval: nat, stvec: nat, dpc: nat)

  /** Where a trap goes: the base, or for an interrupt in vectored mode its entry. */
  function TrapVector(tvec: nat, cause: nat, interrupt: bool): nat
  {
    var base := tvec / 4 * 4;
    if tvec % 4 == 1 && interrupt then (base + 4 * cause) % WORD else base
  }

  /** A vectored interrupt goes to four times its number behind the base; everything
      else goes to the base. */
  lemma VectorLaw(tvec: nat, cause: nat, interrupt: bool)
    ensures tvec % 4 == 0 ==> TrapVector(tvec, cause, interrupt) == tvec
    ensures tvec % 4 == 1 && !interrupt ==> TrapVector(tvec, cause, interrupt) == tvec - 1
    ensures tvec % 4 == 1 && interrupt && tvec - 1 + 4 * cause < WORD ==>
              TrapVector(tvec, cause, interrupt) == tvec - 1 + 4 * cause
  {
  }

  /** Neighbouring interrupts have neighbouring entries of one instruction each. */
  lemma NextVector(tvec: nat, cause: nat)
    requires tvec % 4 == 1 && tvec + 4 * (cause + 1) < WORD
    ensures TrapVector(tvec, cause + 1, true) == TrapVector(tvec, cause, true) + 4
  {
    VectorLaw(tvec, cause, true);
    VectorLaw(tvec, cause + 1, true);
  }

  class Hart {
    const env: Env
    const tlbRead: array<TlbEntry>
    const tlbWrite: array<TlbEntry>
    const tlbCode: array<TlbEntry>
    var mem: Memory
    var priv: nat
    var mstatus: Mstatus
    var satp: nat
    var regs: Regs
    var pmp: seq<Entry>
    var medeleg: nat
    var mideleg: nat
    var dcsr: nat
    var pc: nat
    var csrs: TrapCsrs
    var debugMode: bool
    var stopTheCounter: bool

    /** Something behind the cached translations changed without a flush. */
    ghost var stale: bool
    /** The page-table words behind the translations cached since the last flush. */
    ghost var tables: set<nat>

    function TheView(): View
      reads this
    {
      View(if mstatus.mprv then mstatus.mpp else priv, priv, mstatus.sum, mstatus.mxr, satp, regs)
    }

    predicate Arrays()
    {
      && tlbRead.Length == TLB_SIZE && tlbWrite.Length == TLB_SIZE && tlbCode.Length == TLB_SIZE
      && tlbRead != tlbWrite && tlbRead != tlbCode && tlbWrite != tlbCode
      && env.physLen >= 12
    }

    ghost predicate Configured()
      reads this
    {
      && priv <= 3 && mstatus.mpp <= 3 && mstatus.spp <= 1
      && ValidView(TheView()) && pmp == Decoded(regs, 16)
    }

    /** Every cached translation agrees with the walk, and with the PMP check when
        protection is page granular. */
    ghost predicate Current()
      requires Configured()
      reads this, tlbRead, tlbWrite, tlbCode
    {
      && Coherent(TheView(), env, mem, Read, tables, tlbRead[..])
      && Coherent(TheView(), env, mem, Write, tables, tlbWrite[..])
      && Coherent(TheView(), env, mem, Code, tables, tlbCode[..])
    }

    ghost predicate Valid()
      reads this, tlbRead, tlbWrite, tlbCode
    {
      && Arrays() && Configured()
      && (!stale ==> Current())
    }

    predicate Empty()
      reads tlbRead, tlbWrite, tlbCode
    {
      && (forall i :: 0 <= i < tlbRead.Length ==> tlbRead[i].vaddr == INVALID)
      && (forall i :: 0 <= i < tlbWrite.Length ==> tlbWrite[i].vaddr == INVALID)
      && (forall i :: 0 <= i < tlbCode.Length ==> tlbCode[i].vaddr == INVALID)
    }

    lemma EmptyIsCurrent()
      requires Configured() && Empty()
      ensures Current()
    {
      hide ValidView, EntryOk, Decoded;
    }

    /** Reset: machine mode, no translation, no protection entries, empty caches. */
    constructor (env: Env, mem: Memory)
      requires env.physLen >= 12
      ensures Valid() && !stale && this.env == env && this.mem == mem
      ensures priv == 3 && satp == 0 && regs == Reset() && Empty()
      ensures mstatus == Mstatus(false, false, false, false, 0, 0, false, false, false, false)
      ensures medeleg == 0 && mideleg == 0 && dcsr == 0 && pc == 0 && !debugMode
      ensures fresh(tlbRead) && fresh(tlbWrite) && fresh(tlbCode)
    {
      hide ValidRegs, SatpMode, P;
      this.env, this.mem := env, mem;
      tlbRead := new TlbEntry[TLB_SIZE](_ => TlbEntry(INVALID, 0));
      tlbWrite := new TlbEntry[TLB_SIZE](_ => TlbEntry(INVALID, 0));
      tlbCode := new TlbEntry[TLB_SIZE](_ => TlbEntry(INVALID, 0));
      priv, satp, regs, pmp := 3, 0, Reset(), [];
      mstatus := Mstatus(false, false, false, false, 0, 0, false, false, false, false);
      medeleg, mideleg, dcsr := 0, 0, 0;
      pc, csrs, debugMode, stopTheCounter := 0, TrapCsrs(0, 0, 0, 0, 0, 0, 0, 0, 0), false, false;
      stale, tables := false, {};
      new;
      ResetIsValid();
      ResetDecodes(16);
      ZeroSatp();
      EmptyIsCurrent();
    }

    static lemma ZeroSatp()
      ensures SatpMode(0) == 0 && 0 < P(64)
    {
      hide P;
      Small(0, 60);
      Small(0, 4);
    }

    static lemma {:induction false} ResetDecodes(n: nat)
      requires n <= 16
      ensures |Reset().addr| == 16 && Decoded(Reset(), n) == []
    {
      hide ByteOf;
      if n > 0 {
        ResetDecodes(n - 1);
        ByteOfZero(if n - 1 < 8 then n - 1 else n - 9);
      }
    }

    // ----- flushing

    /** tlb_flush_all (tlb_flush_vaddr and sfence.vma come down to it) */
    method FlushAll()
      requires Arrays()
      modifies tlbRead, tlbWrite, tlbCode, `stale, `tables
      ensures Empty() && !stale && tables == {}
    {
      for i := 0 to TLB_SIZE
        invariant forall k :: 0 <= k < i ==>
                    tlbRead[k].vaddr == INVALID && tlbWrite[k].vaddr == INVALID && tlbCode[k].vaddr == INVALID
        modifies tlbRead, tlbWrite, tlbCode
      {
        tlbRead[i] := tlbRead[i].(vaddr := INVALID);
        tlbWrite[i] := tlbWrite[i].(vaddr := INVALID);
        tlbCode[i] := tlbCode[i].(vaddr := INVALID);
      }
      stale, tables := false, {};
    }

    method SfenceVma()
      requires Valid()
      modifies tlbRead, tlbWrite, tlbCode, `stale, `tables
      ensures Valid() && !stale && Empty()
    {
      hide ValidView, Decoded, Coherent, PageGranular;
      FlushAll();
      EmptyIsCurrent();
    }

    /** set_mstatus, for the fields that matter here. */
    method SetMstatus(val: Mstatus)
      requires Valid() && val.mpp <= 3 && val.spp <= 1
      modifies `mstatus, `stale, `tables, tlbRead, tlbWrite, tlbCode
      ensures Valid() && mstatus == val && (stale ==> old(stale))
      ensures val.mprv != old(mstatus.mprv) ==> Empty()
    {
      hide ValidRegs, Decoded, Coherent, PageGranular, SatpMode, P;
      var change := mstatus.mprv != val.mprv || mstatus.sum != val.sum || mstatus.mxr != val.mxr;
      if change || (mstatus.mprv && mstatus.mpp != val.mpp) {
        FlushAll();
        mstatus := val;
        EmptyIsCurrent();
      } else {
        ghost var v := TheView();
        mstatus := val;
        assert TheView() == v;
      }
    }

    /** Write sstatus: SIE, SPIE, SPP, SUM and MXR. */
    method WriteSstatus(val: Mstatus)
      requires Valid() && val.spp <= 1
      modifies `mstatus, `stale, `tables, tlbRead, tlbWrite, tlbCode
      ensures Valid() && (stale ==> old(stale))
      ensures mstatus == old(mstatus).(sie := val.sie, spie := val.spie, spp := val.spp, sum := val.sum, mxr := val.mxr)
    {
      SetMstatus(mstatus.(sie := val.sie, spie := val.spie, spp := val.spp, sum := val.sum, mxr := val.mxr));
    }

    method WriteSatp(val: nat) returns (illegal: bool)
      requires Valid()
      modifies `satp, `stale, `tables, tlbRead, tlbWrite, tlbCode
      ensures Valid() && (stale ==> old(stale))
      ensures illegal <==> old(priv == PRV_S && mstatus.tvm)
      ensures illegal ==> satp == old(satp)
      ensures !illegal ==> !stale && satp == if SatpMode(val) in {0, 8, 9} then MaskSatp(val) else old(satp)
    {
      hide ValidRegs, Decoded, Coherent, PageGranular, SatpMode, P, MaskSatp;
      if priv == PRV_S && mstatus.tvm {
        return true;
      }
      var mode := SatpMode(val);
      if mode == 0 || mode == 8 || mode == 9 {
        MaskSatpKeeps(val);
        satp := MaskSatp(val);
      }
      FlushAll();
      EmptyIsCurrent();
      illegal := false;
    }

    /** Write pmpcfg0 or pmpcfg2. */
    method WritePmpCfg(c: nat, val: nat)
      requires Valid() && (c == 0 || c == 2)
      modifies `regs, `pmp, `stale, `tables, tlbRead, tlbWrite, tlbCode
      ensures Valid() && (stale ==> old(stale)) && Written(old(regs), WriteCfg(c, val), regs)
    {
      hide ValidRegs, Decoded, Coherent, PageGranular, SatpMode, P, Written;
      var r, redo := CfgWrite(regs, c, val);
      WrittenValid(regs, WriteCfg(c, val), r);
      if redo {
        Redecode(r);
      } else {
        SameRegs(regs, val, r);
        regs := r;
      }
    }

    static lemma SameRegs(r: Regs, val: nat, r': Regs)
      requires Written(r, WriteCfg(2, val), r')
      ensures r' == r
    {
    }

    method WritePmpAddr(i: nat, val: nat)
      requires Valid() && i < 16
      modifies `regs, `pmp, `stale, `tables, tlbRead, tlbWrite, tlbCode
      ensures Valid() && (stale ==> old(stale)) && Written(old(regs), WriteAddr(i, val), regs)
    {
      hide Decoded, Coherent, PageGranular, SatpMode, P, CfgByte, ClearReserved, ByteOf;
      var r, redo := AddrWrite(regs, i, val);
      WrittenValid(regs, WriteAddr(i, val), r);
      if redo {
        Redecode(r);
      }
    }

    /** Store the registers, unpack_pmpaddrs, flush. */
    method Redecode(r: Regs)
      requires Valid() && ValidRegs(r)
      modifies `regs, `pmp, `stale, `tables, tlbRead, tlbWrite, tlbCode
      ensures Valid() && regs == r && !stale
    {
      hide ValidRegs, Decoded, Coherent, PageGranular, SatpMode, P;
      regs := r;
      pmp := UnpackPmpaddrs(r);
      FlushAll();
      EmptyIsCurrent();
    }

    // ----- privilege changes

    /** The caches are as they were. */
    twostate predicate Kept()
      reads tlbRead, tlbWrite, tlbCode
    {
      tlbRead[..] == old(tlbRead[..]) && tlbWrite[..] == old(tlbWrite[..]) && tlbCode[..] == old(tlbCode[..])
    }

    method SetPriv(p: nat)
      requires Valid() && p <= 3
      modifies `priv, `stale, `tables, tlbRead, tlbWrite, tlbCode
      ensures Valid() && priv == p
      ensures stale <==> old(stale) && old(priv) == p
      ensures if old(priv) == p then Kept() else Empty()
    {
      hide ValidRegs, Decoded, Coherent, PageGranular, SatpMode, P;
      if priv != p {
        FlushAll();
        priv := p;
        EmptyIsCurrent();
      }
    }

    /** Change MPP without a flush, as traps and mret do: the caches go stale
        exactly when MPRV makes data accesses depend on MPP. */
    method ChangeMpp(val: Mstatus)
      requires Valid() && val.mpp <= 3 && val.spp <= 1
      requires val.mprv == mstatus.mprv && val.sum == mstatus.sum && val.mxr == mstatus.mxr
      modifies `mstatus, `stale
      ensures Valid() && mstatus == val
      ensures stale <==> old(stale) || (val.mprv && val.mpp != old(mstatus.mpp))
    {
      hide ValidRegs, Decoded, Coherent, PageGranular, SatpMode, P;
      ghost var v := TheView();
      if val.mprv && val.mpp != mstatus.mpp {
        stale := true;
      }
      mstatus := val;
      assert !stale ==> TheView() == v;
    }

    /** The end of a trap or return: the stacked status, then the privilege. */
    method Enter(val: Mstatus, p: nat)
      requires Valid() && val.mpp <= 3 && val.spp <= 1 && p <= 3
      requires val.mprv == mstatus.mprv && val.sum == mstatus.sum && val.mxr == mstatus.mxr
      modifies `mstatus, `priv, `stale, `tables, tlbRead, tlbWrite, tlbCode
      ensures Valid() && mstatus == val && priv == p
      ensures stale <==> old(priv) == p && (old(stale) || (val.mprv && val.mpp != old(mstatus.mpp)))
      ensures if old(priv) == p then Kept() else Empty()
    {
      hide ValidView, Decoded, Current, PageGranular, P, Arrays;
      ChangeMpp(val);
      SetPriv(p);
    }

    predicate Delegated(cause: nat, interrupt: bool)
      reads this
    {
      var delegated := if interrupt then mideleg else medeleg;
      priv <= PRV_S && Low(Shr(delegated, cause), 1) == 1
    }

    /** Exceptions are delegated by their bit of medeleg, interrupts by theirs of
        mideleg, and neither from machine mode. */
    lemma DelegationBits(cause: nat, interrupt: bool)
      ensures Delegated(cause, interrupt) <==>
                priv <= 1 && And(if interrupt then mideleg else medeleg, P(cause)) == P(cause)
    {
      hide P, And;
      AndPower(medeleg, cause);
      AndPower(mideleg, cause);
      PZero();
      PStep(0);
    }

    /** raise_exception2: trap to supervisor mode when delegated, else to machine mode. */
    method RaiseException(cause: nat, interrupt: bool, tval: nat)
      requires Valid() && cause < 64
      modifies `mstatus, `priv, `pc, `csrs, `stale, `tables, tlbRead, tlbWrite, tlbCode
      ensures Valid()
      ensures if old(Delegated(cause, interrupt)) then Trapped(PRV_S, cause, interrupt, tval)
              else Trapped(3, cause, interrupt, tval)
      ensures var t := if old(Delegated(cause, interrupt)) then old(csrs.stvec) else old(csrs.mtvec);
              && (t % 4 == 1 && interrupt && t - 1 + 4 * cause < WORD ==> pc == t - 1 + 4 * cause)
              && (t % 4 == 1 && !interrupt ==> pc == t - 1) && (t % 4 == 0 ==> pc == t)
    {
      hide ValidView, Decoded, Coherent, P, Shr, Low, Arrays, TrapVector;
      VectorLaw(csrs.stvec, cause, interrupt);
      VectorLaw(csrs.mtvec, cause, interrupt);
      if Delegated(cause, interrupt) {
        csrs := csrs.(scause := Rv64.CauseWord(cause, interrupt), sepc := Rv64.Canonical49(pc),
          stval := Rv64.Canonical49(tval));
        Enter(mstatus.(spie := mstatus.sie, spp := priv, sie := false), PRV_S);
        pc := TrapVector(csrs.stvec, cause, interrupt);
      } else {
        csrs := csrs.(mcause := Rv64.CauseWord(cause, interrupt), mepc := Rv64.Canonical49(pc),
          mtval := Rv64.Canonical49(tval));
        Enter(mstatus.(mpie := mstatus.mie, mpp := priv, mie := false), 3);
        pc := TrapVector(csrs.mtvec, cause, interrupt);
      }
    }

    /** The whole effect of a trap into mode x, which is supervisor or machine mode. */
    twostate predicate Trapped(x: nat, cause: nat, interrupt: bool, tval: nat)
      reads this, tlbRead, tlbWrite, tlbCode
    {
      && priv == x
      && (if old(priv) == x then Kept() else Empty())
      && (if x == PRV_S then
            && csrs == old(csrs).(scause := Rv64.CauseWord(cause, interrupt), sepc := Rv64.Canonical49(old(pc)),
               stval := Rv64.Canonical49(tval))
            && mstatus == old(mstatus.(spie := mstatus.sie, spp := priv, sie := false))
            && pc == TrapVector(old(csrs.stvec), cause, interrupt)
            && (stale <==> old(stale && priv == PRV_S))
          else
            && csrs == old(csrs).(mcause := Rv64.CauseWord(cause, interrupt), mepc := Rv64.Canonical49(old(pc)),
               mtval := Rv64.Canonical49(tval))
            && mstatus == old(mstatus.(mpie := mstatus.mie, mpp := priv, mie := false))
            && pc == TrapVector(old(csrs.mtvec), cause, interrupt)
            && (stale <==> old(priv == 3 && (stale || (mstatus.mprv && mstatus.mpp != 3)))))
    }

    method HandleSret()
      requires Valid()
      modifies `mstatus, `priv, `pc, `stale, `tables, tlbRead, tlbWrite, tlbCode
      ensures Valid() && priv == old(mstatus.spp) && pc == csrs.sepc
      ensures mstatus == old(mstatus.(sie := mstatus.spie, spie := true, spp := 0))
      ensures stale <==> old(stale && priv == mstatus.spp)
      ensures if old(priv == mstatus.spp) then Kept() else Empty()
    {
      hide ValidRegs, Decoded, Coherent, PageGranular, SatpMode, P;
      var spp := mstatus.spp;
      Enter(mstatus.(sie := mstatus.spie, spie := true, spp := 0), spp);
      pc := csrs.sepc;
    }

    method HandleMret()
      requires Valid()
      modifies `mstatus, `priv, `pc, `stale, `tables, tlbRead, tlbWrite, tlbCode
      ensures Valid() && priv == old(mstatus.mpp) && pc == csrs.mepc
      ensures mstatus == old(mstatus.(mie := mstatus.mpie, mpie := true, mpp := 0))
      ensures stale <==> old(priv == mstatus.mpp && (stale || (mstatus.mprv && mstatus.mpp != 0)))
      ensures if old(priv == mstatus.mpp) then Kept() else Empty()
    {
      hide ValidRegs, Decoded, Coherent, PageGranular, SatpMode, P;
      var mpp := mstatus.mpp;
      Enter(mstatus.(mie := mstatus.mpie, mpie := true, mpp := 0), mpp);
      pc := csrs.mepc;
    }

    method HandleDret()
      requires Valid()
      modifies `priv, `pc, `debugMode, `stopTheCounter, `stale, `tables, tlbRead, tlbWrite, tlbCode
      ensures Valid() && priv == dcsr % 4 && pc == csrs.dpc && !debugMode && !stopTheCounter
      ensures stale <==> old(stale && priv == dcsr % 4)
      ensures if old(priv == dcsr % 4) then Kept() else Empty()
    {
      hide ValidRegs, Decoded, Coherent, PageGranular, SatpMode, P;
      stopTheCounter, debugMode := false, false;
      SetPriv(dcsr % 4);
      pc := csrs.dpc;
    }

    /** A trap and the return from its mode: the privilege and the interrupt enable
        come back, and the program counter as far as the epc register holds it. */
    method TrapAndReturn(cause: nat, interrupt: bool, tval: nat)
      requires Valid() && cause < 64
      modifies `mstatus, `priv, `pc, `csrs, `stale, `tables, tlbRead, tlbWrite, tlbCode
      ensures Valid() && priv == old(priv) && pc == Rv64.Canonical49(old(pc))
      ensures mstatus.mie == old(mstatus.mie) && mstatus.sie == old(mstatus.sie)
    {
      hide ValidView, Decoded, Current, PageGranular, P, Shr, Low, Arrays;
      var deleg := Delegated(cause, interrupt);
      RaiseException(cause, interrupt, tval);
      if deleg {
        HandleSret();
      } else {
        HandleMret();
      }
    }

    // ----- accesses

    function TlbOf(access: Access): array<TlbEntry>
    {
      match access
      case Read => tlbRead
      case Write => tlbWrite
      case Code => tlbCode
    }

    /** The slow path: walk, PMP check, memory map; a RAM access fills the cache,
        a fetch after one more test. */
    method Slow(access: Access, vaddr: nat, size: nat) returns (o: Outcome)
      requires Valid() && IsSize(size) && vaddr < WORD && vaddr % size == 0 && !Hit(TlbOf(access)[..], vaddr, size)
      modifies TlbOf(access), `tables
      ensures Valid()
      ensures o == Reference(TheView(), env, mem, access, vaddr, size)
      ensures TlbOf(access)[..] == After(TheView(), env, access, old(TlbOf(access)[..]), vaddr, size, o)
      ensures old(tables) <= tables <= old(tables) + PageWords(TheView(), env, mem, access, vaddr / PG)
    {
      hide ValidRegs, Decoded, Coherent, PageGranular, SatpMode, P, Allowed, Translate, EntryOk, PageWords, Hit, Slot,
           Filled;
      Word64();
      var v := TheView();
      var r := GetPhysAddr(v, env, pmp, mem, vaddr, access);
      match r
      case PageFault => o := PageFaulted;
      case AccessFault => o := AccessFaulted;
      case Paddr(paddr) =>
        AddrCount(regs);
        var perm := PermOf(access);
        var p := PrivOf(v, perm);
        var ok := AccessOk(regs, pmp, env.physLen, p, perm, paddr, size);
        if !ok {
          return AccessFaulted;
        }
        if env.region(paddr / PG) != Ram {
          return if access == Code then AccessFaulted else Outside(paddr);
        }
        var whole := true;
        if access == Code {
          whole := AccessOk(regs, pmp, env.physLen, p, X, paddr / PG * PG, PG);
        }
        if whole {
          Fill(access, vaddr, size, paddr);
        }
        o := InRam(paddr);
    }

    method Fill(access: Access, vaddr: nat, size: nat, paddr: nat)
      requires Valid() && IsSize(size) && vaddr < WORD && vaddr % size == 0
      requires Reference(TheView(), env, mem, access, vaddr, size) == InRam(paddr)
      modifies TlbOf(access), `tables
      ensures Valid()
      ensures TlbOf(access)[..] == old(TlbOf(access)[..])[Slot(vaddr) := Filled(vaddr, paddr)]
      ensures tables == old(tables) + PageWords(TheView(), env, mem, access, vaddr / PG)
    {
      hide ValidView, Decoded, Coherent, PageGranular, P, Reference, EntryOk, PageWords, Filled;
      ghost var v, more := TheView(), PageWords(TheView(), env, mem, access, vaddr / PG);
      var e := Filled(vaddr, paddr);
      var t := TlbOf(access);
      ghost var before := t[..];
      var i := Slot(vaddr);
      if !stale {
        FillIsOk(v, env, mem, access, tables, vaddr, size, paddr);
        MoreTables(v, env, mem, Read, tables, more, tlbRead[..]);
        MoreTables(v, env, mem, Write, tables, more, tlbWrite[..]);
        MoreTables(v, env, mem, Code, tables, more, tlbCode[..]);
        OneMore(v, env, mem, access, tables + more, before, i, e);
      }
      t[i] := e;
      assert t[..] == before[i := e];
      tables := tables + more;
    }

    static lemma OneMore(v: View, env: Env, mem: Memory, access: Access, tables: set<nat>,
                         tlb: seq<TlbEntry>, i: nat, e: TlbEntry)
      requires ValidView(v) && Coherent(v, env, mem, access, tables, tlb)
      requires EntryOk(v, env, mem, access, tables, e) && i < |tlb|
      ensures Coherent(v, env, mem, access, tables, tlb[i := e])
    {
      hide ValidView, EntryOk;
    }

    /** The fast path in front of the slow one, common to target_read,
        target_write and target_read_insn. */
    method Port(access: Access, vaddr: nat, size: nat) returns (o: Outcome)
      requires Valid() && IsSize(size) && vaddr < WORD
      modifies TlbOf(access), `tables
      ensures Valid()
      ensures Looked(TheView(), env, mem, access, old(TlbOf(access)[..]), stale, vaddr, size, o)
      ensures TlbOf(access)[..] == After(TheView(), env, access, old(TlbOf(access)[..]), vaddr, size, o)
      ensures !stale && o.InRam? ==> o.pa % size == 0
      ensures old(tables) <= tables <= old(tables) + PageWords(TheView(), env, mem, access, vaddr / PG)
    {
      hide ValidView, Decoded, Coherent, PageGranular, P, EntryOk, PageWords, Reference, Allowed, Caches, Tag, Filled;
      if vaddr % size != 0 {
        MisalignedReference(TheView(), env, mem, access, vaddr, size);
        return Misaligned;
      }
      var t := TlbOf(access);
      var i := Slot(vaddr);
      if t[i].vaddr == Tag(vaddr, size) {
        if !stale {
          NotInvalid(vaddr, size);
          SlotOk(TheView(), env, mem, access, tables, t[..], i);
          HitFacts(TheView(), env, mem, access, tables, t[i], vaddr, size);
        }
        return InRam((t[i].addend + vaddr) % WORD);
      }
      o := Slow(access, vaddr, size);
      if o.InRam? {
        RamAligned(TheView(), env, mem, access, vaddr, size, o.pa);
      }
    }

    static lemma MisalignedReference(v: View, env: Env, mem: Memory, access: Access, vaddr: nat, size: nat)
      requires ValidView(v) && IsSize(size) && vaddr % size != 0
      ensures Reference(v, env, mem, access, vaddr, size) == Misaligned
    {
      hide ValidView, Translate, Checked;
    }

    static lemma HitFacts(v: View, env: Env, mem: Memory, access: Access, tables: set<nat>, e: TlbEntry,
                          vaddr: nat, size: nat)
      requires ValidView(v) && IsSize(size) && vaddr % size == 0 && vaddr < WORD && env.physLen >= 12
      requires EntryOk(v, env, mem, access, tables, e) && e.vaddr == Tag(vaddr, size)
      ensures var pa, perm := (e.addend + vaddr) % WORD, PermOf(access);
              && pa % size == 0 && |v.regs.addr| == 16
              && (PageGranular(v.regs) ==> Reference(v, env, mem, access, vaddr, size) == InRam(pa))
              && Reference(v, env, mem, access, vaddr, size) ==
                   if Allowed(v.regs, env.physLen, PrivOf(v, perm), perm, pa, size) then InRam(pa) else AccessFaulted
    {
      hide ValidView, Mapped, Permitted, Reference, Allowed, PageGranular, Tag;
      assert |v.regs.addr| == 16 by { ViewAddr(v); }
      HitVerdict(v, env, mem, access, tables, e, vaddr, size);
      if PageGranular(v.regs) {
        HitIsReference(v, env, mem, access, tables, e, vaddr, size);
      }
    }

    static lemma ViewAddr(v: View)
      requires ValidView(v)
      ensures |v.regs.addr| == 16
    {
      hide SatpMode, P;
    }

    static lemma SlotOk(v: View, env: Env, mem: Memory, access: Access, tables: set<nat>, tlb: seq<TlbEntry>, i: nat)
      requires ValidView(v) && Coherent(v, env, mem, access, tables, tlb) && i < |tlb| && tlb[i].vaddr != INVALID
      ensures EntryOk(v, env, mem, access, tables, tlb[i])
    {
      hide ValidView, EntryOk;
    }

    static lemma NotInvalid(vaddr: nat, size: nat)
      requires IsSize(size) && vaddr % size == 0
      ensures Tag(vaddr, size) != INVALID
    {
    }

    /** target_read_u8 .. target_read_u64: the data is meaningful for RAM. */
    method TargetRead(vaddr: nat, size: nat) returns (o: Outcome, val: nat)
      requires Valid() && IsSize(size) && vaddr < WORD
      modifies tlbRead, `tables
      ensures Valid()
      ensures Looked(TheView(), env, mem, Read, old(tlbRead[..]), stale, vaddr, size, o)
      ensures tlbRead[..] == After(TheView(), env, Read, old(tlbRead[..]), vaddr, size, o)
      ensures val == if o.InRam? then Load(mem, o.pa, size) else 0
    {
      hide ValidView, Decoded, Coherent, Looked, P, After;
      o := Port(Read, vaddr, size);
      val := if o.InRam? then Load(mem, o.pa, size) else 0;
    }

    method FetchU16(vaddr: nat) returns (o: Outcome, insn: nat)
      requires Valid() && vaddr < WORD
      modifies tlbCode, `tables
      ensures Valid()
      ensures Looked(TheView(), env, mem, Code, old(tlbCode[..]), stale, vaddr, 2, o)
      ensures tlbCode[..] == After(TheView(), env, Code, old(tlbCode[..]), vaddr, 2, o)
      ensures insn == if o.InRam? then Load(mem, o.pa, 2) else 0
    {
      hide ValidView, Decoded, Coherent, Looked, P, After;
      o := Port(Code, vaddr, 2);
      insn := if o.InRam? then Load(mem, o.pa, 2) else 0;
    }

    /** target_write_u8 .. target_write_u64: the caches go stale exactly when the
        store hits a page-table word behind one of them. */
    method TargetWrite(vaddr: nat, size: nat, val: nat) returns (o: Outcome)
      requires Valid() && IsSize(size) && vaddr < WORD
      modifies tlbWrite, `tables, `mem, `stale
      ensures Valid()
      ensures Looked(TheView(), env, old(mem), Write, old(tlbWrite[..]), old(stale), vaddr, size, o)
      ensures tlbWrite[..] == After(TheView(), env, Write, old(tlbWrite[..]), vaddr, size, o)
      ensures mem == if o.InRam? then Store(old(mem), o.pa, size, val) else old(mem)
      ensures stale <==> old(stale) || (o.InRam? && o.pa / 8 in tables)
    {
      hide ValidView, Decoded, Coherent, Looked, P, Store, After;
      o := Port(Write, vaddr, size);
      if o.InRam? {
        WriteRam(o.pa, size, val);
      }
    }

    /** A store to RAM by this hart or by any other agent. */
    method WriteRam(pa: nat, size: nat, val: nat)
      requires Valid() && IsSize(size) && (!stale ==> pa % size == 0)
      modifies `mem, `stale
      ensures Valid() && mem == Store(old(mem), pa, size, val)
      ensures stale <==> old(stale) || pa / 8 in tables
    {
      hide ValidView, Decoded, Coherent, PageGranular, P, Store;
      if pa / 8 in tables {
        stale := true;
      } else if !stale {
        StoreKeeps(TheView(), env, mem, Read, tables, tlbRead[..], pa, size, val);
        StoreKeeps(TheView(), env, mem, Write, tables, tlbWrite[..], pa, size, val);
        StoreKeeps(TheView(), env, mem, Code, tables, tlbCode[..], pa, size, val);
      }
      mem := Store(mem, pa, size, val);
    }
  }
}
