/** create_boot_rom: the code and data words written into the ROM array. */
module RomBuilder {
  import opened Rv64
  import opened BootRom
  import opened Recovery
  import opened SavedHart

  class Builder {
    const rom: array<nat>
    var codePos: nat
    var dataPos: nat
    ghost var items: seq<Item>
    ghost var code: seq<nat>
    ghost var data: seq<nat>

    /** The words written so far. */
    ghost predicate Words()
      reads this, rom
    {
      && rom.Length == ROM_WORDS && codePos == |code| <= DATA_START && dataPos == DATA_START + |data| <= ROM_WORDS
      && rom[..codePos] == code && rom[DATA_START..dataPos] == data
    }

    ghost predicate Valid()
      reads this, rom
    {
      && Words()
      && code == CodeFrom(items, 0, DATA_START) && data == DataOf(items)
      && codePos == CodeSize(items) && dataPos == DATA_START + DataSize(items)
    }

    constructor ()
      ensures Valid() && items == [] && codePos == 0 && dataPos == DATA_START && fresh(rom)
    {
      rom := new nat[ROM_WORDS](_ => 0);
      codePos, dataPos := 0, DATA_START;
      items, code, data := [], [], [];
    }

    method PutCode(w: nat)
      requires Words() && codePos < DATA_START
      modifies rom, `codePos, `code
      ensures Words() && code == old(code) + [w] && codePos == old(codePos) + 1
    {
      rom[codePos] := w;
      codePos := codePos + 1;
      code := code + [w];
    }

    method PutData(w: nat)
      requires Words() && dataPos < ROM_WORDS
      modifies rom, `dataPos, `data
      ensures Words() && data == old(data) + [w] && dataPos == old(dataPos) + 1
    {
      rom[dataPos] := w;
      dataPos := dataPos + 1;
      data := data + [w];
    }

    method PutHalves(v: nat)
      requires Words() && dataPos + 2 <= ROM_WORDS
      modifies rom, `dataPos, `data
      ensures Words() && data == old(data) + Halves(v) && dataPos == old(dataPos) + 2
    {
      PutData(v % W32);
      PutData(v / W32 % W32);
    }

    /** auipc, addi and ld of a constant that is at word d. */
    method PutLoad(rn: nat, d: nat)
      requires Words() && codePos + 3 <= DATA_START
      modifies rom, `codePos, `code
      ensures Words() && code == old(code) + LoadWords(rn, old(codePos), d) && codePos == old(codePos) + 3
    {
      hide CreateAuipc, CreateAddi, CreateLd, Off;
      var off := Off(codePos, d);
      PutCode(CreateAuipc(rn, off));
      PutCode(CreateAddi(rn, off));
      PutCode(CreateLd(rn, rn));
    }

    /** What an emitter leaves: its words after the others, the item recorded. */
    twostate predicate Emitted(item: Item)
      reads this, rom
    {
      && Valid() && items == old(items) + [item]
      && codePos == old(codePos) + CodeLen(item) && dataPos == old(dataPos) + DataLen(item)
    }

    /** Room for the words of an item. */
    predicate Room(code: nat, data: nat)
      reads this
    {
      codePos + code <= DATA_START && dataPos + data <= ROM_WORDS
    }

    method CreateCsr64Recovery(csrn: nat, val: nat)
      requires Valid() && Room(4, 2)
      modifies this, rom
      ensures Emitted(Csr64(csrn, val))
    {
      hide CodeFrom, DataOf, CodeSize, DataSize, LoadWords, CreateCsrrw, Halves;
      ghost var item := Csr64(csrn, val);
      Append(items, item, 0, DATA_START);
      PutLoad(1, dataPos);
      PutCode(CreateCsrrw(1, csrn));
      PutHalves(val);
      items := items + [item];
      assert code == old(code) + (LoadWords(1, old(codePos), old(dataPos)) + [CreateCsrrw(1, csrn)]);
    }

    method CreateCsr12Recovery(csrn: nat, val: nat)
      requires Valid() && Room(2, 0)
      modifies this, rom
      ensures Emitted(Csr12(csrn, val))
    {
      hide CodeFrom, DataOf, CodeSize, DataSize, CreateSeti, CreateCsrrw;
      ghost var item := Csr12(csrn, val);
      Append(items, item, 0, DATA_START);
      PutCode(CreateSeti(1, val % 0x1000));
      PutCode(CreateCsrrw(1, csrn));
      items := items + [item];
      assert code == old(code) + [CreateSeti(1, val % 0x1000), CreateCsrrw(1, csrn)];
      assert data == old(data) + [];
    }

    method CreateRegRecovery(rn: nat, val: nat)
      requires Valid() && Room(3, 2)
      modifies this, rom
      ensures Emitted(Reg(rn, val))
    {
      hide CodeFrom, DataOf, CodeSize, DataSize, LoadWords, Halves;
      ghost var item := Reg(rn, val);
      Append(items, item, 0, DATA_START);
      PutLoad(rn, dataPos);
      PutHalves(val);
      items := items + [item];
    }

    method CreateFpRecovery(rn: nat, val: nat)
      requires Valid() && Room(3, 2)
      modifies this, rom
      ensures Emitted(Fp(rn, val))
    {
      hide CodeFrom, DataOf, CodeSize, DataSize, CreateAuipc, CreateAddi, CreateFld, Halves, Off;
      ghost var item := Fp(rn, val);
      Append(items, item, 0, DATA_START);
      var off := Off(codePos, dataPos);
      PutCode(CreateAuipc(1, off));
      PutCode(CreateAddi(1, off));
      PutCode(CreateFld(rn, 1));
      PutHalves(val);
      items := items + [item];
      assert code == old(code) + [CreateAuipc(1, off), CreateAddi(1, off), CreateFld(rn, 1)];
    }

    /** The words of an I/O restore: address, value and the store. */
    method PutIo(addr: nat, val: nat)
      requires Words() && Room(7, 4)
      modifies rom, `codePos, `code, `dataPos, `data
      ensures Words() && codePos == old(codePos) + 7 && dataPos == old(dataPos) + 4
      ensures code == old(code) + Code(Io64(addr, val), old(codePos), old(dataPos))
      ensures data == old(data) + Data(Io64(addr, val))
    {
      hide LoadWords, CreateSd, Halves;
      PutLoad(1, dataPos);
      PutHalves(addr);
      PutLoad(2, dataPos);
      PutCode(CreateSd(1, 2));
      PutHalves(val);
      JoinWords(old(code), LoadWords(1, old(codePos), old(dataPos)), LoadWords(2, old(codePos) + 3, old(dataPos) + 2),
        [CreateSd(1, 2)]);
      JoinWords(old(data), Halves(addr), Halves(val), []);
    }

    static lemma JoinWords(base: seq<nat>, a: seq<nat>, b: seq<nat>, c: seq<nat>)
      ensures base + a + b + c == base + (a + b + c)
      ensures base + a + b == base + (a + b)
    {
    }

    method CreateIo64Recovery(addr: nat, val: nat)
      requires Valid() && Room(7, 4)
      modifies this, rom
      ensures Emitted(Io64(addr, val))
    {
      hide CodeFrom, DataOf, CodeSize, DataSize, Code, Data;
      ghost var item := Io64(addr, val);
      Append(items, item, 0, DATA_START);
      PutIo(addr, val);
      items := items + [item];
    }

    method CreateHangNonzeroHart()
      requires Valid() && Room(4, 0)
      modifies this, rom
      ensures Emitted(Hang)
    {
      hide CodeFrom, DataOf, CodeSize, DataSize;
      Append(items, Hang, 0, DATA_START);
      PutCode(0xf140_2573);
      PutCode(0x0005_0663);
      PutCode(0x1050_0073);
      PutCode(0xffdf_f06f);
      items := items + [Hang];
      assert code == old(code) + [0xf140_2573, 0x0005_0663, 0x1050_0073, 0xffdf_f06f];
      assert data == old(data) + [];
    }

    /** One of the two single instructions around the satp restore. */
    method CreateSingle(item: Item)
      requires Valid() && Room(1, 0) && (item.SaveX1? || item.LoadX1?)
      modifies this, rom
      ensures Emitted(item)
    {
      hide CodeFrom, DataOf, CodeSize, DataSize, CreateCsrrw, CreateCsrrs;
      Append(items, item, 0, DATA_START);
      PutCode(if item.SaveX1? then CreateCsrrw(1, 0x7b2) else CreateCsrrs(1, 0x7b2));
      items := items + [item];
      assert data == old(data) + [];
    }

    /** A run of 64-bit CSR restores. */
    method CreateCsr64List(s: Saved, cs: seq<nat>)
      requires Valid() && Room(4 * |cs|, 2 * |cs|)
      modifies this, rom
      ensures Valid() && items == old(items) + Csr64s(s, cs)
      ensures codePos == old(codePos) + 4 * |cs| && dataPos == old(dataPos) + 2 * |cs|
    {
      hide Words, V;
      ghost var all := Csr64s(s, cs);
      for i := 0 to |cs|
        invariant Valid() && items == old(items) + all[..i]
        invariant codePos == old(codePos) + 4 * i && dataPos == old(dataPos) + 2 * i
      {
        CreateCsr64Recovery(cs[i], V(s, cs[i]));
        Extend(old(items), all, i);
      }
      assert all[..|cs|] == all;
    }

    static lemma Extend(base: seq<Item>, all: seq<Item>, i: nat)
      requires i < |all|
      ensures base + all[..i] + [all[i]] == base + all[..i + 1]
    {
      assert all[..i + 1] == all[..i] + [all[i]];
    }

    method CreateCsr12List(s: Saved, cs: seq<nat>)
      requires Valid() && Room(2 * |cs|, 0)
      modifies this, rom
      ensures Valid() && items == old(items) + Csr12s(s, cs)
      ensures codePos == old(codePos) + 2 * |cs| && dataPos == old(dataPos)
    {
      hide Words, V;
      ghost var all := Csr12s(s, cs);
      for i := 0 to |cs|
        invariant Valid() && items == old(items) + all[..i]
        invariant codePos == old(codePos) + 2 * i && dataPos == old(dataPos)
      {
        CreateCsr12Recovery(cs[i], V(s, cs[i]));
        Extend(old(items), all, i);
      }
      assert all[..|cs|] == all;
    }

    method CreateFloats(s: Saved)
      requires Valid() && Room(96, 64)
      modifies this, rom
      ensures Valid() && items == old(items) + Floats(s)
      ensures codePos == old(codePos) + 96 && dataPos == old(dataPos) + 64
    {
      hide Words;
      ghost var all := Floats(s);
      for i := 0 to 32
        invariant Valid() && items == old(items) + all[..i]
        invariant codePos == old(codePos) + 3 * i && dataPos == old(dataPos) + 2 * i
      {
        CreateFpRecovery(i, if i < |s.fp| then s.fp[i] % W64 else 0);
        Extend(old(items), all, i);
      }
      assert all[..32] == all;
    }

    method CreateCounters(s: Saved)
      requires Valid() && Room(174, 58)
      modifies this, rom
      ensures Valid() && items == old(items) + Counters(s)
      ensures codePos == old(codePos) + 174 && dataPos == old(dataPos) + 58
    {
      hide Words, V, CodeFrom, DataOf, CodeSize, DataSize, CounterItem;
      ghost var all := Counters(s);
      for i := 3 to 32
        invariant Valid() && items == old(items) + all[..2 * (i - 3)]
        invariant codePos == old(codePos) + 6 * (i - 3) && dataPos == old(dataPos) + 2 * (i - 3)
      {
        CounterPair(s, i);
        CreateCsr12Recovery(0xb00 + i, 0);
        CreateCsr64Recovery(0x320 + i, V(s, 0x320 + i));
        Extend(old(items), all, 2 * (i - 3));
        Extend(old(items), all, 2 * (i - 3) + 1);
      }
      assert all[..58] == all;
    }

    static lemma CounterPair(s: Saved, i: nat)
      requires 3 <= i < 32
      ensures Counters(s)[2 * (i - 3)] == Csr12(0xb00 + i, 0)
      ensures Counters(s)[2 * (i - 3) + 1] == Csr64(0x320 + i, V(s, 0x320 + i))
    {
      hide V;
      var j := 2 * (i - 3);
      assert j % 2 == 0 && j / 2 == i - 3 && (j + 1) % 2 == 1 && (j + 1) / 2 == i - 3;
    }

    method CreatePmpAddrs(s: Saved)
      requires Valid() && Room(64, 32)
      modifies this, rom
      ensures Valid() && items == old(items) + PmpAddrs(s)
      ensures codePos == old(codePos) + 64 && dataPos == old(dataPos) + 32
    {
      hide Words, V;
      ghost var all := PmpAddrs(s);
      for i := 0 to 16
        invariant Valid() && items == old(items) + all[..i]
        invariant codePos == old(codePos) + 4 * i && dataPos == old(dataPos) + 2 * i
      {
        CreateCsr64Recovery(0x3b0 + i, V(s, 0x3b0 + i));
        Extend(old(items), all, i);
      }
      assert all[..16] == all;
    }

    method CreateUpperRegs(s: Saved)
      requires Valid() && Room(87, 58) && |s.x| == 32
      modifies this, rom
      ensures Valid() && items == old(items) + UpperRegs(s)
      ensures codePos == old(codePos) + 87 && dataPos == old(dataPos) + 58
    {
      hide Words;
      ghost var all := UpperRegs(s);
      for i := 3 to 32
        invariant Valid() && items == old(items) + all[..i - 3]
        invariant codePos == old(codePos) + 3 * (i - 3) && dataPos == old(dataPos) + 2 * (i - 3)
      {
        CreateRegRecovery(i, s.x[i]);
        Extend(old(items), all, i - 3);
      }
      assert all[..29] == all;
    }

    /** The parts of create_boot_rom up to the PMP registers. */
    method CreatePart1(s: Saved, ncpus: nat)
      requires Valid() && items == [] && codePos == 0 && dataPos == DATA_START
      modifies this, rom
      ensures Valid() && items == Part1(s, ncpus) && codePos <= 300 && dataPos <= DATA_START + 140
    {
      hide Words, CodeFrom, DataOf, V, Csr64s, Csr12s, Floats, Counters;
      if ncpus == 1 {
        CreateHangNonzeroHart();
      }
      assert items == Start(ncpus);
      CreateCsr64Recovery(0x7b1, s.pc);
      CreateCsr12Recovery(0x7b0, 0x600 + s.priv);
      assert items == Start(ncpus) + Entry(s);
      CreateStatus(s);
      CreateCounters(s);
      CreateCsr64List(s, [0x7a0]);
    }

    method CreateStatus(s: Saved)
      requires Valid() && Room(110, 68)
      modifies this, rom
      ensures Valid() && items == old(items) + Status(s)
      ensures codePos <= old(codePos) + 110 && dataPos <= old(dataPos) + 68
    {
      hide Words, CodeFrom, DataOf, V, Csr64s, Csr12s, Floats;
      CreateCsr64List(s, [0x300, 0x301]);
      if s.fs != 0 {
        CreateCsr12List(s, [0x001, 0x002, 0x003]);
        CreateFloats(s);
        assert items == old(items) + (Csr64s(s, [0x300, 0x301]) + (Csr12s(s, [0x001, 0x002, 0x003]) + Floats(s)));
      } else {
        assert items == old(items) + (Csr64s(s, [0x300, 0x301]) + []);
      }
    }

    method CreatePart3(s: Saved)
      requires Valid() && Room(78, 36)
      modifies this, rom
      ensures Valid() && items == old(items) + Part3(s)
      ensures codePos == old(codePos) + 78 && dataPos == old(dataPos) + 36
    {
      hide Words, CodeFrom, DataOf, V, Csr64s, Csr12s, PmpAddrs;
      CreateCsr12List(s, ENABLES);
      CreatePmpAddrs(s);
      CreateCsr64List(s, [0x3a0, 0x3a2]);
      assert items == old(items) + (Csr12s(s, ENABLES) + PmpAddrs(s) + Csr64s(s, [0x3a0, 0x3a2]));
    }

    method CreatePart5(s: Saved)
      requires Valid() && Room(121, 76) && |s.x| == 32
      modifies this, rom
      ensures Valid() && items == old(items) + Part5(s)
      ensures codePos == old(codePos) + 121 && dataPos == old(dataPos) + 76
    {
      hide Words, CodeFrom, DataOf, V, Csr64s, UpperRegs;
      CreateUpperRegs(s);
      CreateTimers(s);
      CreateRegRecovery(1, s.x[1]);
      CreateRegRecovery(2, s.x[2]);
      CreateSingle(SaveX1);
      CreateCsr64Recovery(0x180, V(s, 0x180));
      CreateSingle(LoadX1);
      assert items == old(items) + UpperRegs(s) + Timers(s) + LowRegs(s) + Last(s);
      Join(old(items), UpperRegs(s), Timers(s), LowRegs(s), Last(s));
    }

    static lemma Join(base: seq<Item>, a: seq<Item>, b: seq<Item>, c: seq<Item>, d: seq<Item>)
      ensures base + a + b + c + d == base + (a + b + c + d)
    {
      Assoc3(base, a, b);
      Assoc3(base, a + b, c);
      Assoc3(base, a + b + c, d);
    }

    method CreateTimers(s: Saved)
      requires Valid() && Room(22, 12)
      modifies this, rom
      ensures Valid() && items == old(items) + Timers(s)
      ensures codePos == old(codePos) + 22 && dataPos == old(dataPos) + 12
    {
      hide Words, CodeFrom, DataOf, V, Csr64s;
      CreateIo64Recovery(s.clint + 0x4000, s.timecmp);
      CreateCsr64List(s, [0xb02, 0xb00]);
      CreateIo64Recovery(s.clint + 0xbff8, s.mtime);
      assert items == old(items) + ([Io64(s.clint + 0x4000, s.timecmp)] + Csr64s(s, [0xb02, 0xb00])
                                    + [Io64(s.clint + 0xbff8, s.mtime)]);
    }

    /** create_boot_rom. It gives up for the hypervisor level, and never because
        the ROM is too small. */
    method CreateBootRom(s: Saved, ncpus: nat) returns (ok: bool)
      requires Valid() && items == [] && codePos == 0 && dataPos == DATA_START && |s.x| == 32
      modifies this, rom
      ensures ok <==> s.priv != 2
      ensures ok ==> Recovers(rom[..], s, ncpus)
    {
      hide Words, CodeFrom, DataOf, V, Csr64s, Part1, Part3, Part5, Recovers, LaidFrom, CodeSize, DataSize;
      if s.priv == 2 {
        return false;
      }
      CreatePart1(s, ncpus);
      CreateCsr64List(s, DELEGATION);
      CreatePart3(s);
      CreateCsr64List(s, HANDLERS);
      CreatePart5(s);
      assert items == Items(s, ncpus);
      Finish();
      RecoversAll(rom[..], s, ncpus);
      ok := !(ROM_WORDS <= dataPos || DATA_START <= codePos);
    }

    method Finish()
      requires Valid() && codePos + 8 < DATA_START && dataPos + 4 <= ROM_WORDS
      modifies this, rom
      ensures LaidFrom(rom[..], items, 0, DATA_START) && rom[..][CodeSize(items)] == DRET && items == old(items)
      ensures codePos == old(codePos) + 1 && dataPos == old(dataPos)
    {
      hide CodeFrom, DataOf, CodeSize, DataSize;
      ghost var n, m := codePos, dataPos;
      PutCode(DRET);
      assert rom[..][0..n] == code[..n] by { assert rom[..codePos] == code; }
      assert rom[..][DATA_START..m] == data;
    }
  }
}
