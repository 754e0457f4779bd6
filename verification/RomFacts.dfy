/** The recovery ROM against the outside world: instruction words as the manual
    writes them, the ROM as bytes of memory, and what the CSRs make of a value. */
module RomFacts {
  import opened Bits
  import opened Rv64
  import opened BootRom
  import Paging

  // ----- instruction words

  /** auipc x1, 1; addi x1, x1, 16; ld x1, 0(x1); sd x2, 0(x1); fld f5, 0(x1);
      csrw mepc, x1; csrr x1, dscratch; li x1, 7; and auipc with the carry repair. */
  lemma KnownWords()
    ensures CreateAuipc(1, 0x1000) == 0x0000_1097 && CreateAddi(1, 0x10) == 0x0100_8093
    ensures CreateLd(1, 1) == 0x0000_B083 && CreateSd(1, 2) == 0x0020_B023 && CreateFld(5, 1) == 0x0000_B287
    ensures CreateCsrrw(1, 0x341) == 0x3410_9073 && CreateCsrrs(1, 0x7b2) == 0x7B20_20F3
    ensures CreateSeti(1, 7) == 0x0070_0093 && CreateAuipc(1, 0x800) == 0x0000_1097
  {
  }

  // ----- the ROM as memory

  /** The words of the ROM are the 32-bit words of memory from its base on. */
  ghost predicate IsImage(mem: Paging.Memory, rom: seq<nat>)
  {
    forall i :: 0 <= i < |rom| ==> Paging.Load(mem, ROM_BASE + 4 * i, 4) == rom[i]
  }

  lemma TwoWords(mem: Paging.Memory, a: nat)
    ensures Paging.Load(mem, a, 8) == Paging.Load(mem, a, 4) + 0x1_0000_0000 * Paging.Load(mem, a + 4, 4)
  {
    LoadSplit(mem, a, 4, 4);
    WordPowers();
  }

  lemma {:induction false} LoadSplit(mem: Paging.Memory, a: nat, m: nat, n: nat)
    ensures Paging.Load(mem, a, m + n) == Paging.Load(mem, a, m) + P(8 * m) * Paging.Load(mem, a + m, n)
    decreases m
  {
    hide P, Paging.ByteAt;
    if m == 0 {
      PZero();
    } else {
      LoadSplit(mem, a + 1, m - 1, n);
      SmallPowers();
      PAdd(8, 8 * (m - 1));
      var hi := Paging.Load(mem, a + m, n);
      MulAssoc(256, P(8 * (m - 1)), hi);
    }
  }

  /** A load from the ROM is a load of its eight bytes in memory. */
  lemma RomLoads(mem: Paging.Memory, rom: seq<nat>, addr: nat)
    requires IsImage(mem, rom) && addr % 8 == 0 && ROM_BASE <= addr && addr + 8 <= ROM_BASE + 4 * |rom|
    ensures Load64(rom, addr) == Some(Paging.Load(mem, addr, 8))
  {
    hide Paging.Load;
    var i := (addr - ROM_BASE) / 4;
    assert addr == ROM_BASE + 4 * i && addr + 4 == ROM_BASE + 4 * (i + 1);
    TwoWords(mem, addr);
  }

  /** A constant in the data area is that 64-bit value in memory. */
  lemma DataLoads(mem: Paging.Memory, rom: seq<nat>, d: nat, v: nat)
    requires IsImage(mem, rom) && d + 2 <= |rom| && rom[d..d + 2] == Halves(v) && v < W64
    ensures Paging.Load(mem, ROM_BASE + 4 * d, 8) == v
  {
    hide Paging.Load;
    assert rom[d] == rom[d..d + 2][0] && rom[d + 1] == rom[d..d + 2][1];
    TwoWords(mem, ROM_BASE + 4 * d);
    assert ROM_BASE + 4 * d + 4 == ROM_BASE + 4 * (d + 1);
    assert v / W32 < W32;
  }

  // ----- canonical values

  /** Bit 48 is copied into all bits above it; the bits below stay; and what is
      canonical already does not change. */
  lemma CanonicalLaw(v: nat)
    requires v < W64
    ensures Low(Canonical49(v), 48) == Low(v, 48)
    ensures Shr(Canonical49(v), 48) == if And(v, 0x1_0000_0000_0000) == 0 then 0 else 0xFFFF
    ensures v < 0x1_0000_0000_0000 || v >= 0xFFFF_0000_0000_0000 ==> Canonical49(v) == v
  {
    DoublePowers();
    hide P, And;
    AndPower(v, 48);
    var q, x := v / 0x1_0000_0000_0000, v % 0x1_0000_0000_0000;
    CanonicalParts(v, q, x);
    SplitIs(v, q, x);
    SplitIs(Canonical49(v), if q % 2 == 0 then 0 else 0xFFFF, x);
  }

  lemma SplitIs(a: nat, q: nat, x: nat)
    requires P(48) == 0x1_0000_0000_0000 && a == 0x1_0000_0000_0000 * q + x && x < 0x1_0000_0000_0000
    ensures Shr(a, 48) == q && Low(a, 48) == x
  {
    hide P, Shr, Low;
    SplitUnique(a, 48, q, x);
  }

  lemma CanonicalParts(v: nat, q: nat, x: nat)
    requires v == 0x1_0000_0000_0000 * q + x && x < 0x1_0000_0000_0000 && q < 0x1_0000
    ensures Canonical49(v) == (if q % 2 == 0 then x else 0xFFFF_0000_0000_0000 + x)
  {
    DivUnique(v, 0x2_0000_0000_0000, q / 2, 0x1_0000_0000_0000 * (q % 2) + x);
  }

  // ----- writable bits

  lemma {:induction false} AndCommutes(a: nat, b: nat)
    ensures And(a, b) == And(b, a)
    decreases a
  {
    if a != 0 && b != 0 {
      AndCommutes(a / 2, b / 2);
    }
  }

  /** Masking all ones leaves the mask. */
  lemma AllOnes(mask: nat)
    requires mask < W64
    ensures And(W64 - 1, mask) == mask
  {
    hide And;
    assert P(64) == W64 by { DoublePowers(); }
    AndCommutes(W64 - 1, mask);
    AndMask(mask, 64);
    hide P, Low, Shr;
    Small(mask, 64);
  }

  /** What a write of all ones after reset leaves, CSR by CSR. */
  lemma WritableBits(cfg: Cfg)
    requires ValidCfg(cfg)
    ensures Legal(cfg, 0x302, 0, W64 - 1) == 0xB109 && Legal(cfg, 0x303, 0, W64 - 1) == 0x222
    ensures Legal(cfg, 0x342, 0, W64 - 1) == 0x8000_0000_0000_00FF
    ensures Legal(cfg, 0x142, 0, W64 - 1) == 0x8000_0000_0000_001F
    ensures Legal(cfg, 0x105, 0, W64 - 1) == 0xFFFF_FFFF_FFFF_FF01
    ensures Legal(cfg, 0x141, 0, W64 - 1) == Legal(cfg, 0x341, 0, W64 - 1) == W64 - if cfg.rvc then 2 else 4
    ensures Legal(cfg, 0x143, 0, W64 - 1) == Legal(cfg, 0x343, 0, W64 - 1) == W64 - 1
    ensures Legal(cfg, 0x140, 0, W64 - 1) == Legal(cfg, 0x340, 0, W64 - 1) == W64 - 1
    ensures Legal(cfg, 0x180, 0, W64 - 1) == 0 && Legal(cfg, 0x180, 0, 0x8FFF_FFFF_FFFF_FFFF) == 0x8000_0FFF_FFFF_FFFF
  {
    hide And;
    AllOnes(0xB109);
    AllOnes(0x222);
    AllOnes(0x8000_0000_0000_00FF);
    AllOnes(0x8000_0000_0000_001F);
    AndNone(0xB109);
    AndNone(0x222);
  }
}
