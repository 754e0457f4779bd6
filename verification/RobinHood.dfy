/** The Robin Hood hash table that holds the bytes of the golden memory model:
    open addressing, info bytes that pack probe distance and hash bits, shifting
    insertion and erasure, halving of all info bytes eight at a time, and
    rehashing. Its contents are a map at all times. */
module RobinHood {
  import opened Bits
  import opened SlotLaws

  // ----- sizes

  const SIZE_MAX := 0xFFFF_FFFF_FFFF_FFFF
  const INITIAL_ELEMENTS := 8
  const INITIAL_INC := 32

  /** calcMaxNumElementsAllowed with a load factor of 80 percent. */
  function MaxAllowed(n: nat): nat
  {
    if n <= SIZE_MAX / 100 then n * 80 / 100 else n / 100 * 80
  }

  /** calcNumElementsWithBuffer */
  function WithBuffer(n: nat): nat { n + (if MaxAllowed(n) <= 255 then MaxAllowed(n) else 255) }

  lemma MaxAllowedGrows(n: nat)
    requires n >= 8
    ensures 0 < MaxAllowed(n) < MaxAllowed(2 * n)
  {
  }

  // ----- eight bytes as one little-endian word

  function Word8(s: seq<nat>): nat { if s == [] then 0 else s[0] + Shl(Word8(s[1..]), 8) }

  predicate AllBytes(s: seq<nat>) { forall i :: 0 <= i < |s| ==> s[i] < 256 }

  lemma {:induction false} WordSuffix(s: seq<nat>, k: nat)
    requires AllBytes(s) && k <= |s|
    ensures Shr(Word8(s), 8 * k) == Word8(s[k..])
  {
    hide Shl, Shr, Low;
    if k == 0 {
      ShlNone(Word8(s), 0);
      PZero();
      SplitUnique(Word8(s), 0, Word8(s), 0);
      assert s[0..] == s;
    } else {
      assert P(8) == 256;
      SplitUnique(Word8(s), 8, Word8(s[1..]), s[0]);
      ShrShr(Word8(s), 8, 8 * (k - 1));
      WordSuffix(s[1..], k - 1);
      assert s[1..][k - 1..] == s[k..];
    }
  }

  /** Shifting the word right by one and masking with 0x7f in every byte halves
      every byte. */
  lemma HalvedByte(s: seq<nat>, k: nat)
    requires AllBytes(s) && k < |s|
    ensures Low(Shr(Shr(Word8(s), 1), 8 * k), 7) == s[k] / 2
  {
    hide Shl, Shr, Low;
    var w := Word8(s);
    ShrShr(w, 1, 8 * k);
    ShrShr(w, 8 * k, 1);
    WordSuffix(s, k);
    var rest := Word8(s[k..][1..]);
    assert s[k..] != [] && s[k..][0] == s[k];
    var v := Word8(s[k..]);
    assert v == s[k] + Shl(rest, 8);
    ShlShl(rest, 7, 1);
    ShlOne(Shl(rest, 7));
    ShlOne(Shl(rest, 7) + s[k] / 2);
    PZero();
    SplitUnique(v, 1, Shl(rest, 7) + s[k] / 2, s[k] % 2);
    assert P(7) == 128;
    SplitUnique(Shl(rest, 7) + s[k] / 2, 7, rest, s[k] / 2);
  }

  ghost predicate IsPow2(n: nat) { exists k: nat :: n == P(k) }

  lemma Pow2Doubles(n: nat)
    requires IsPow2(n)
    ensures IsPow2(2 * n)
  {
    var k: nat :| n == P(k);
    PStep(k);
  }

  datatype Outcome = Inserted | Existing | Overflow

  class Table<K(0, ==), V(0)> {
    const hash: K -> nat
    var kv: array<(K, V)>
    var info: array<nat>
    var num: nat
    var mask: nat
    var maxNum: nat
    var inc: nat
    var shift: nat
    ghost var contents: map<K, V>

    /** Slots that can hold a pair; none before the first allocation. */
    function Cap(): nat
      reads this
    { if mask == 0 then 0 else WithBuffer(mask + 1) }

    function TheShape(): Shape
      reads this
    { Shape(Cap(), mask, inc, shift) }

    /** No info byte can overflow when every pair moves one slot further. */
    ghost predicate Room()
      reads this, info
    {
      forall i :: 0 <= i < Cap() && i < info.Length ==> info[i] + inc <= 255
    }

    ghost predicate Valid()
      reads this, info, kv
    {
      && (info as object) != (kv as object)
      && info.Length == Cap() + 8 && kv.Length == Cap()
      && Represents(hash, TheShape(), info[..], kv[..], contents)
      && num == |contents| <= MaxAllowed(mask + 1)
      && (mask == 0 ==> maxNum == 0 && inc == INITIAL_INC)
      && (mask != 0 ==> mask >= 7 && IsPow2(mask + 1))
      && (maxNum != 0 ==> maxNum == MaxAllowed(mask + 1) && Room())
    }

    /** Nothing is allocated before the first insertion; the eight bytes read in
        place of info bytes are those of the zero mask. */
    constructor (hash: K -> nat)
      ensures Valid() && Honest() && contents == map[] && this.hash == hash
      ensures fresh(info) && fresh(kv)
    {
      this.hash := hash;
      kv := new (K, V)[0];
      info := new nat[8](_ => 0);
      num, mask, maxNum, inc, shift := 0, 0, 0, INITIAL_INC, 0;
      contents := map[];
      new;
      assert P(5) == 32;
    }

    // ----- lookup

    /** What the probe counter and the byte of a slot say about the key. */
    lemma ProbeHere(key: K, i: nat)
      requires Valid() && Home(hash(key), mask) <= i < Cap() + 8
      ensures i < info.Length
      ensures var s := TheShape();
              && Probe(hash, s, key, i + 1) == Probe(hash, s, key, i) + inc
              && (Probe(hash, s, key, i) <= info[i] ==> i < Cap())
              && (HasKey(info[..], kv[..], key, i) ==> i < Cap() && info[i] == Probe(hash, s, key, i) && kv[i].0 == key)
    {
      hide Home, KeyInfo, ValidShape, IsPow2, P, InOrder, StandsForMap, MaxAllowed, WithBuffer;
      ProbeStep(hash, TheShape(), key, i);
      if HasKey(info[..], kv[..], key, i) {
        assert Placed(hash, TheShape(), kv[..][i].0, info[..][i], i);
      }
    }

    lemma Found(key: K, i: nat)
      requires Valid() && i < Cap() && info[i] != 0 && kv[i].0 == key
      ensures key in contents && kv[i] == (key, contents[key])
    {
      hide Home, KeyInfo, ValidShape, IsPow2, P, InOrder, Bytes, Keyed, MaxAllowed, WithBuffer;
      assert kv[..][i] == kv[i] && info[..][i] == info[i];
    }

    /** A key not found before a slot with a smaller byte is not in the table. */
    lemma Missing(key: K, i: nat)
      requires Valid() && Home(hash(key), mask) <= i < Cap() + 8
      requires Probe(hash, TheShape(), key, i) > info[i]
      requires NotBefore(key, i)
      ensures key !in contents
    {
      hide Home, KeyInfo, ValidShape, IsPow2, P, InOrder, Bytes, Keyed, MaxAllowed, WithBuffer, Probe;
      assert |info[..]| == Cap() + 8 by { ProbeHere(key, i); }
      if key in contents {
        var j: nat :| HasKey(info[..], kv[..], key, j);
        NoEarlyStop(hash, TheShape(), info[..], kv[..], key, j, i);
      }
    }

    /** The key is in no slot before i. */
    ghost predicate NotBefore(key: K, i: nat)
      requires kv.Length <= info.Length
      reads this, info, kv
    {
      forall j: nat :: HasKey(info[..], kv[..], key, j) ==> j >= i
    }

    lemma StartProbe(key: K)
      requires Valid()
      ensures var h := Home(hash(key), mask);
              h <= Cap() && Probe(hash, TheShape(), key, h) == KeyInfo(hash(key), inc, shift) && NotBefore(key, h)
    {
      hide KeyInfo, ValidShape, IsPow2, P, InOrder, Bytes, StandsForMap, MaxAllowed, WithBuffer, Home;
      HomeInRange(hash(key), TheShape());
      ProbeStep(hash, TheShape(), key, Home(hash(key), mask));
      forall j: nat | HasKey(info[..], kv[..], key, j)
        ensures j >= Home(hash(key), mask)
      {
        assert Placed(hash, TheShape(), kv[..][j].0, info[..][j], j);
      }
    }

    lemma NextProbe(key: K, i: nat)
      requires Valid() && Home(hash(key), mask) <= i < Cap() + 8 && NotBefore(key, i)
      requires i < Cap() ==> !(Probe(hash, TheShape(), key, i) == info[i] && kv[i].0 == key)
      ensures NotBefore(key, i + 1)
    {
      hide Home, KeyInfo, Represents, IsPow2, MaxAllowed, WithBuffer, Probe;
      ProbeHere(key, i);
    }

    /** findIdx: the slot of the key, or the number of slots. Two probes are made
        per turn of the loop, and it stops at the first smaller byte. */
    method FindIdx(key: K) returns (idx: nat)
      requires Valid()
      ensures idx <= Cap()
      ensures key in contents <==> idx < Cap()
      ensures idx < Cap() ==> info[idx] != 0 && kv[idx] == (key, contents[key])
    {
      hide Home, KeyInfo, Represents, IsPow2, MaxAllowed, WithBuffer, Probe, NotBefore, HasKey;
      ghost var s := TheShape();
      StartProbe(key);
      idx := Home(hash(key), mask);
      var byte := KeyInfo(hash(key), inc, shift);
      while true
        invariant Home(hash(key), mask) <= idx <= s.cap && byte == Probe(hash, s, key, idx)
        invariant NotBefore(key, idx)
        decreases s.cap + 2 - idx
      {
        ProbeHere(key, idx);
        if byte == info[idx] && key == kv[idx].0 {
          Occupied(key, idx);
          Found(key, idx);
          return;
        }
        NextProbe(key, idx);
        byte, idx := byte + inc, idx + 1;
        ProbeHere(key, idx);
        if byte == info[idx] && key == kv[idx].0 {
          Occupied(key, idx);
          Found(key, idx);
          return;
        }
        NextProbe(key, idx);
        byte, idx := byte + inc, idx + 1;
        ProbeHere(key, idx);
        if byte > info[idx] {
          break;
        }
      }
      Missing(key, idx);
      idx := Cap();
    }

    lemma Occupied(key: K, i: nat)
      requires Valid() && Home(hash(key), mask) <= i < Cap() && info[i] == Probe(hash, TheShape(), key, i)
      ensures info[i] != 0
    {
      hide Home, KeyInfo, IsPow2, MaxAllowed, WithBuffer, Bytes, Keyed, StandsForMap;
      ProbeStep(hash, TheShape(), key, i);
    }

    // ----- moving slots

    static method MoveUp(a: array<(K, V)>, start: nat, ins: nat)
      requires ins < start < a.Length
      modifies a
      ensures forall i :: 0 <= i < a.Length && (i <= ins || i > start) ==> a[i] == old(a[i])
      ensures forall i :: ins < i <= start ==> a[i] == old(a[i - 1])
    {
      var idx := start;
      a[idx] := a[idx - 1];
      idx := idx - 1;
      while idx != ins
        invariant ins <= idx < start
        invariant forall i :: idx < i <= start ==> a[i] == old(a[i - 1])
        invariant forall i :: 0 <= i < a.Length && (i <= idx || i > start) ==> a[i] == old(a[i])
      {
        a[idx] := a[idx - 1];
        idx := idx - 1;
      }
    }

    /** The bytes of shiftUp, written back as bytes; full is set when one of them
        leaves no room for a further step. */
    static method BumpUp(a: array<nat>, start: nat, ins: nat, inc: nat) returns (full: bool)
      requires ins < start < a.Length
      requires forall i :: ins <= i < start ==> a[i] + inc <= 255
      modifies a
      ensures forall i :: 0 <= i < a.Length && (i <= ins || i > start) ==> a[i] == old(a[i])
      ensures forall i :: ins < i <= start ==> a[i] == old(a[i - 1]) + inc
      ensures !full ==> forall i :: ins < i <= start ==> a[i] + inc <= 255
      ensures full ==> exists i :: ins < i <= start && a[i] + inc > 255
    {
      full := false;
      ghost var was, at := a[..], start;
      var idx := start;
      while idx != ins
        invariant ins <= idx <= start
        invariant forall i :: idx < i <= start ==> a[i] == was[i - 1] + inc
        invariant forall i :: 0 <= i < a.Length && (i <= idx || i > start) ==> a[i] == was[i]
        invariant !full ==> forall i :: idx < i <= start ==> a[i] + inc <= 255
        invariant full ==> idx < at <= start && a[at] + inc > 255
      {
        assert a[idx - 1] == old(a[idx - 1]);
        a[idx] := (a[idx - 1] + inc) % 256;
        if a[idx] + inc > 0xFF {
          full := true;
          at := idx;
        }
        idx := idx - 1;
      }
    }

    /** shiftUp: move the slots from ins on up by one, into the empty slot start. */
    method ShiftUp(start: nat, ins: nat)
      requires ins < start < kv.Length <= info.Length && (info as object) != (kv as object)
      requires forall i :: ins <= i < start ==> info[i] + inc <= 255
      modifies info, kv, `maxNum
      ensures forall i :: 0 <= i < kv.Length && (i <= ins || i > start) ==> kv[i] == old(kv[i])
      ensures forall i :: ins < i <= start ==> kv[i] == old(kv[i - 1])
      ensures forall i :: 0 <= i < info.Length && (i <= ins || i > start) ==> info[i] == old(info[i])
      ensures forall i :: ins < i <= start ==> info[i] == old(info[i - 1]) + inc
      ensures maxNum == old(maxNum) || maxNum == 0
      ensures maxNum != 0 ==> forall i :: ins < i <= start ==> info[i] + inc <= 255
      ensures maxNum != old(maxNum) ==> exists i :: ins < i <= start && info[i] + inc > 255
    {
      MoveUp(kv, start, ins);
      var full := BumpUp(info, start, ins, inc);
      if full {
        maxNum := 0;
      }
    }

    /** shiftDown: close the gap at p until a slot is empty or at home. */
    static method CloseGap(kv: array<(K, V)>, info: array<nat>, inc: nat, p: nat) returns (q: nat)
      requires (info as object) != (kv as object) && kv.Length < info.Length && p < kv.Length && inc > 0
      requires info[kv.Length] < 2 * inc
      modifies info, kv
      ensures p <= q < kv.Length
      ensures ErasedAt(inc, old(info[..]), old(kv[..]), p, q, info[..], kv[..])
    {
      hide ErasedAt, GapAt;
      ghost var info0, kv0 := info[..], kv[..];
      q := p;
      GapStart(inc, info0, kv0, p);
      while info[q + 1] >= 2 * inc
        invariant p <= q < kv.Length
        invariant GapAt(inc, info0, kv0, p, q, info[..], kv[..])
        decreases kv.Length - q
      {
        GapStep(inc, info0, kv0, p, q, info[..], kv[..]);
        ghost var info1, kv1 := info[..], kv[..];
        info[q] := info[q + 1] - inc;
        kv[q] := kv[q + 1];
        assert info[..] == info1[q := info1[q + 1] - inc];
        assert kv[..] == kv1[q := kv1[q + 1]];
        q := q + 1;
      }
      ghost var info1 := info[..];
      GapClosed(inc, info0, kv0, p, q, info1, kv[..]);
      info[q] := 0;
      assert info[..] == info1[q := 0];
    }

    /** The gap has moved from p to q. */
    static ghost predicate GapAt(inc: nat, info0: seq<nat>, kv0: seq<(K, V)>, p: nat, q: nat, info: seq<nat>,
                                 kv: seq<(K, V)>)
    {
      && p <= q < |kv0| == |kv| && |kv0| < |info0| == |info|
      && (forall i :: 0 <= i < |info| && (i < p || i >= q) ==> info[i] == info0[i])
      && (forall i :: 0 <= i < |kv| && (i < p || i >= q) ==> kv[i] == kv0[i])
      && (forall i :: p < i <= q ==> info0[i] >= 2 * inc)
      && (forall i :: p <= i < q ==> info[i] == info0[i + 1] - inc)
      && (forall i :: p <= i < q ==> kv[i] == kv0[i + 1])
    }

    static lemma GapStart(inc: nat, info0: seq<nat>, kv0: seq<(K, V)>, p: nat)
      requires p < |kv0| < |info0|
      ensures GapAt(inc, info0, kv0, p, p, info0, kv0)
    {
    }

    static lemma GapStep(inc: nat, info0: seq<nat>, kv0: seq<(K, V)>, p: nat, q: nat, info: seq<nat>, kv: seq<(K, V)>)
      requires GapAt(inc, info0, kv0, p, q, info, kv) && info[q + 1] >= 2 * inc && info0[|kv0|] < 2 * inc
      ensures q + 1 < |kv| && GapAt(inc, info0, kv0, p, q + 1, info[q := info[q + 1] - inc], kv[q := kv[q + 1]])
    {
      assert info[q + 1] == info0[q + 1] && kv[q + 1] == kv0[q + 1];
      var info1, kv1 := info[q := info[q + 1] - inc], kv[q := kv[q + 1]];
      forall i | p <= i < q + 1
        ensures info1[i] == info0[i + 1] - inc && kv1[i] == kv0[i + 1]
      {
        if i < q {
          assert info1[i] == info[i] && kv1[i] == kv[i];
        }
      }
    }

    static lemma GapClosed(inc: nat, info0: seq<nat>, kv0: seq<(K, V)>, p: nat, q: nat, info: seq<nat>, kv: seq<(K, V)>)
      requires GapAt(inc, info0, kv0, p, q, info, kv) && info[q + 1] < 2 * inc
      ensures ErasedAt(inc, info0, kv0, p, q, info[q := 0], kv)
    {
      assert info[q + 1] == info0[q + 1];
      var info1 := info[q := 0];
      forall i | p <= i < q
        ensures info1[i] == info0[i + 1] - inc
      {
        assert info1[i] == info[i];
      }
    }

    lemma Sentinel()
      requires Valid()
      ensures info.Length == Cap() + 8 && info[Cap()] <= 1 && 2 <= inc <= 32
    {
      hide Home, KeyInfo, IsPow2, MaxAllowed, WithBuffer, Keyed, StandsForMap, InOrder, ValidShape;
      SmallInc(TheShape());
      assert info[..][Cap()] == info[Cap()];
    }

    lemma BytesBound()
      requires Valid()
      ensures forall i :: 0 <= i < Cap() ==> info[..][i] <= 255
    {
      hide Home, KeyInfo, IsPow2, MaxAllowed, WithBuffer, Keyed, StandsForMap, InOrder, ValidShape;
    }

    /** Erase the pair in slot p. */
    method EraseSlot(key: K, p: nat)
      requires Valid() && p < Cap() && info[p] != 0 && kv[p].0 == key
      modifies this, info, kv
      ensures Valid() && contents == old(contents) - {key}
      ensures info == old(info) && kv == old(kv)
      ensures mask == old(mask) && maxNum == old(maxNum) && inc == old(inc) && shift == old(shift)
      ensures old(Stuck()) ==> Stuck()
    {
      hide Represents, IsPow2, MaxAllowed, WithBuffer, ErasedAt;
      Found(key, p);
      Sentinel();
      BytesBound();
      ghost var s, info0, kv0 := TheShape(), info[..], kv[..];
      var q := CloseGap(kv, info, inc, p);
      Erasure(hash, s, info0, kv0, p, q, info[..], kv[..], contents);
      ErasedRoom(s.cap, inc, info0, kv0, p, q, info[..], kv[..]);
      num := num - 1;
      contents := contents - {key};
    }

    static lemma ErasedRoom(cap: nat, inc: nat, info0: seq<nat>, kv0: seq<(K, V)>, p: nat, q: nat, info: seq<nat>,
                            kv: seq<(K, V)>)
      requires cap + 8 == |info0| && |kv0| == cap && p <= q < cap && inc <= 32
      requires ErasedAt(inc, info0, kv0, p, q, info, kv)
      requires forall i :: 0 <= i < cap ==> info0[i] <= 255
      ensures (forall i :: 0 <= i < cap ==> info0[i] + inc <= 255) ==> forall i :: 0 <= i < cap ==> info[i] + inc <= 255
    {
    }

    /** erase(key) */
    method Erase(key: K) returns (n: nat)
      requires Valid()
      modifies this, info, kv
      ensures Valid() && contents == old(contents) - {key}
      ensures n == (if key in old(contents) then 1 else 0)
      ensures info == old(info) && kv == old(kv)
      ensures mask == old(mask) && maxNum == old(maxNum) && inc == old(inc) && shift == old(shift)
      ensures old(Stuck()) ==> Stuck()
    {
      hide Home, KeyInfo, Represents, IsPow2, MaxAllowed, WithBuffer, Probe, NotBefore, HasKey;
      ghost var s := TheShape();
      StartProbe(key);
      var idx := Home(hash(key), mask);
      var byte := KeyInfo(hash(key), inc, shift);
      var found := false;
      while true
        invariant Home(hash(key), mask) <= idx <= s.cap && byte == Probe(hash, s, key, idx)
        invariant NotBefore(key, idx) && !found
        modifies {}
        decreases s.cap + 2 - idx
      {
        ProbeHere(key, idx);
        if byte == info[idx] && key == kv[idx].0 {
          Occupied(key, idx);
          found := true;
          break;
        }
        NextProbe(key, idx);
        byte, idx := byte + inc, idx + 1;
        ProbeHere(key, idx);
        if byte > info[idx] {
          break;
        }
      }
      if found {
        Found(key, idx);
        EraseSlot(key, idx);
        return 1;
      }
      Missing(key, idx);
      n := 0;
    }

    // ----- insertion

    /** Some byte has no room for another step. */
    ghost predicate Crowded()
      reads this, info
    {
      exists i: nat :: i < Cap() && i < info.Length && info[i] + inc > 255
    }

    /** The load limit is switched off only while some byte is full. Erasing can
        end that without switching the limit on again. */
    ghost predicate Honest()
      reads this, info
    {
      mask != 0 && maxNum == 0 ==> Crowded()
    }

    /** Probing for the key stops at p. */
    ghost predicate StopsAt(key: K, p: nat)
      reads this, info
    {
      var s := TheShape();
      var h := Home(hash(key), mask);
      && h <= p <= Cap() && p < info.Length && Probe(hash, s, key, p) > info[p]
      && (p > h ==> Probe(hash, s, key, p - 1) <= info[p - 1])
    }

    lemma EmptyEnd()
      requires Valid() && mask != 0
      ensures Cap() > 0 && info[Cap() - 1] == 0
    {
      hide IsPow2, MaxAllowed, Bytes, Keyed, StandsForMap, ValidShape;
      LastSlotEmpty(hash, TheShape(), info[..], kv[..], contents, MaxAllowed(mask + 1));
      assert info[..][Cap() - 1] == info[Cap() - 1];
    }

    lemma StopsInside(key: K, p: nat)
      requires Valid() && mask != 0 && StopsAt(key, p)
      ensures p < Cap() && info[Cap() - 1] == 0
    {
      hide IsPow2, MaxAllowed, Bytes, Keyed, StandsForMap, Home, WithBuffer, Probe;
      EmptyEnd();
      HomeInRange(hash(key), TheShape());
      if p > Home(hash(key), mask) {
        ProbeStep(hash, TheShape(), key, p - 1);
      }
    }

    /** Write the pair into slot p after moving the slots from p to e - 1 up. */
    method WriteSlot(key: K, value: V, p: nat, e: nat, byte: nat)
      requires (info as object) != (kv as object) && p <= e < kv.Length <= info.Length && byte <= 255
      requires forall i :: p <= i < e ==> info[i] + inc <= 255
      modifies info, kv, `maxNum
      ensures InsertedAt(inc, old(info[..]), old(kv[..]), p, e, byte, key, value, info[..], kv[..])
      ensures maxNum == old(maxNum) || maxNum == 0
      ensures maxNum != 0 ==> forall i :: p <= i <= e ==> info[i] + inc <= 255
      ensures maxNum != old(maxNum) ==> exists i :: p <= i <= e && info[i] + inc > 255
    {
      hide InsertedAt;
      ghost var info0, kv0 := info[..], kv[..];
      if byte + inc > 0xFF {
        maxNum := 0;
      }
      if e != p {
        ShiftUp(e, p);
      }
      ghost var at := p;
      if byte + inc <= 0xFF && maxNum != old(maxNum) {
        at :| p < at <= e && info[at] + inc > 255;
      }
      kv[p] := (key, value);
      info[p] := byte % 256;
      assert maxNum != old(maxNum) ==> info[at] + inc > 255;
      Shifted(inc, info0, kv0, p, e, byte, key, value, info[..], kv[..]);
    }

    /** The tail of doInsert, doCreateByKey and insert_move: find an empty slot,
        shift up, put the pair at its place. */
    method Place(key: K, value: V, p: nat, byte: nat)
      requires Valid() && mask != 0 && key !in contents && maxNum != 0 && num < MaxAllowed(mask + 1)
      requires StopsAt(key, p) && byte == Probe(hash, TheShape(), key, p)
      modifies this, info, kv
      ensures Valid() && Honest() && contents == old(contents)[key := value]
      ensures p < Cap() && kv[p] == (key, value) && info[p] != 0
      ensures info == old(info) && kv == old(kv) && mask == old(mask) && inc == old(inc) && shift == old(shift)
    {
      hide IsPow2, MaxAllowed, Represents, Home, WithBuffer, Probe, InsertedAt, InsertPoint;
      ghost var s, info0, kv0 := TheShape(), info[..], kv[..];
      StopsInside(key, p);
      var idx := p;
      while 0 != info[idx]
        invariant p <= idx < Cap() && forall i :: p <= i < idx ==> info[i] != 0
        decreases Cap() - idx
        modifies {}
      {
        idx := idx + 1;
      }
      InsertReady(key, p, idx);
      WriteSlot(key, value, p, idx, byte);
      Insertion(hash, s, info0, kv0, p, idx, key, value, info[..], kv[..], contents);
      InsertedFacts(s.inc, s.cap, info0, kv0, p, idx, byte, key, value, info[..], kv[..]);
      assert kv[p] == kv[..][p] && info[p] == info[..][p];
      num := num + 1;
      contents := contents[key := value];
    }

    static lemma InsertedFacts(inc: nat, cap: nat, info0: seq<nat>, kv0: seq<(K, V)>, p: nat, e: nat, byte: nat, k: K,
                               v: V, info: seq<nat>, kv: seq<(K, V)>)
      requires p <= e < |kv0| == cap <= |info0|
      requires InsertedAt(inc, info0, kv0, p, e, byte, k, v, info, kv)
      ensures |info| == |info0| && |kv| == |kv0| && kv[p] == (k, v) && info[p] == byte
      ensures forall i :: 0 <= i < cap && (i < p || i > e) ==> info[i] == info0[i]
    {
    }

    lemma InsertReady(key: K, p: nat, e: nat)
      requires info.Length == Cap() + 8 && kv.Length == Cap() && (info as object) != (kv as object)
      requires Represents(hash, TheShape(), info[..], kv[..], contents) && key !in contents && Room()
      requires StopsAt(key, p) && p <= e < Cap() && info[e] == 0 && forall i :: p <= i < e ==> info[i] != 0
      ensures InsertPoint(hash, TheShape(), info[..], key, p, e)
      ensures 0 < Probe(hash, TheShape(), key, p) <= 255
    {
      hide Home, Probe, Keyed, StandsForMap, Bytes;
      var s := TheShape();
      SmallInc(s);
      if p > Home(hash(key), mask) {
        ProbeStep(hash, s, key, p - 1);
        assert info[p - 1] + inc <= 255;
      } else {
        ProbeStep(hash, s, key, p);
      }
    }

    static lemma Shifted(inc: nat, info0: seq<nat>, kv0: seq<(K, V)>, p: nat, e: nat, byte: nat, k: K, v: V,
                         info: seq<nat>, kv: seq<(K, V)>)
      requires p <= e < |kv0| <= |info0| && |info| == |info0| && |kv| == |kv0|
      requires forall i :: 0 <= i < |info| && (i < p || i > e) ==> info[i] == info0[i]
      requires forall i :: 0 <= i < |kv| && (i < p || i > e) ==> kv[i] == kv0[i]
      requires info[p] == byte && kv[p] == (k, v)
      requires forall i :: p < i <= e ==> info[i] == info0[i - 1] + inc
      requires forall i :: p < i <= e ==> kv[i] == kv0[i - 1]
      ensures InsertedAt(inc, info0, kv0, p, e, byte, k, v, info, kv)
    {
    }

    // ----- growing

    /** Load eight bytes as one word, shift it right, mask every byte, store it. */
    static method HalveWord(a: array<nat>, i: nat)
      requires i + 8 <= a.Length && AllBytes(a[i..i + 8])
      modifies a
      ensures forall j :: i <= j < i + 8 ==> a[j] == old(a[j]) / 2
      ensures forall j :: 0 <= j < a.Length && (j < i || j >= i + 8) ==> a[j] == old(a[j])
    {
      hide Shr, Low, Word8;
      ghost var bytes := a[i..i + 8];
      var w := Shr(Word8(a[i..i + 8]), 1);
      for k := 0 to 8
        invariant forall j :: i <= j < i + k ==> a[j] == old(a[j]) / 2
        invariant forall j :: 0 <= j < a.Length && (j < i || j >= i + k) ==> a[j] == old(a[j])
      {
        HalvedByte(bytes, k);
        a[i + k] := Low(Shr(w, 8 * k), 7);
      }
    }

    /** The loop of try_increase_info over n bytes; it may run into the padding. */
    static method HalveAll(a: array<nat>, n: nat)
      requires a.Length == n + 8 && AllBytes(a[..])
      modifies a
      ensures forall j :: 0 <= j < n ==> a[j] == old(a[j]) / 2
      ensures forall j :: n <= j < a.Length ==> a[j] <= old(a[j])
    {
      var i := 0;
      while i < n
        invariant i < n + 8
        invariant forall j :: 0 <= j < i ==> a[j] == old(a[j]) / 2
        invariant forall j :: i <= j < a.Length ==> a[j] == old(a[j])
      {
        HalveWord(a, i);
        i := i + 8;
      }
    }

    /** try_increase_info: give up one hash bit per byte for one more distance bit. */
    method TryIncreaseInfo() returns (ok: bool)
      requires Valid() && mask != 0
      modifies this, info
      ensures Valid() && contents == old(contents) && info == old(info) && kv == old(kv) && mask == old(mask)
      ensures num == old(num)
      ensures ok <==> old(inc) > 2
      ensures ok ==> inc == old(inc) / 2 && maxNum == MaxAllowed(mask + 1) > 0
      ensures ok ==> forall i :: 0 <= i < Cap() ==> info[i] == old(info[i]) / 2
      ensures !ok ==> inc == old(inc) && maxNum == old(maxNum) && info[..] == old(info[..])
    {
      hide IsPow2, MaxAllowed, Represents, WithBuffer;
      if inc <= 2 {
        return false;
      }
      ghost var s, info0 := TheShape(), info[..];
      HalveReady();
      MaxAllowedGrows(mask + 1);
      inc := inc / 2;
      shift := shift + 1;
      HalveAll(info, Cap());
      info[Cap()] := 1;
      Halving(hash, s, info0, kv[..], info[..], contents);
      assert forall i :: 0 <= i < Cap() ==> info[..][i] + inc <= 255;
      assert Room();
      maxNum := MaxAllowed(mask + 1);
      ok := true;
    }

    lemma HalveReady()
      requires Valid() && inc > 2
      ensures AllBytes(info[..]) && shift < 4
      ensures forall i :: Cap() <= i < Cap() + 8 ==> info[..][i] <= 1
    {
      hide IsPow2, MaxAllowed, Keyed, StandsForMap, WithBuffer, P, InOrder;
      PZero();
    }

    /** init_data: an empty table with the given number of buckets. */
    method InitData(n: nat)
      requires n >= 8 && IsPow2(n)
      modifies this
      ensures Valid() && contents == map[] && mask + 1 == n && maxNum == MaxAllowed(n) && inc == INITIAL_INC
      ensures fresh(info) && fresh(kv) && (info as object) != (kv as object)
    {
      hide IsPow2, Represents, MaxAllowed, WithBuffer;
      BufferFits(n);
      num, mask, maxNum := 0, n - 1, MaxAllowed(n);
      var cap := WithBuffer(n);
      kv := new (K, V)[cap];
      info := new nat[cap + 8](i => if i == cap then 1 else 0);
      inc, shift := INITIAL_INC, 0;
      contents := map[];
      EmptyTable(hash, TheShape(), info[..], kv[..]);
    }

    static lemma BufferFits(n: nat)
      ensures n <= WithBuffer(n)
    {
    }

    static lemma EmptyTable(hash: K -> nat, s: Shape, info: seq<nat>, kv: seq<(K, V)>)
      requires |info| == s.cap + 8 && |kv| == s.cap && s.inc == 32 && s.shift == 0 && s.mask < s.cap
      requires forall i :: 0 <= i < s.cap ==> info[i] == 0
      requires forall i :: s.cap <= i < s.cap + 8 ==> info[i] <= 1
      ensures Represents(hash, s, info, kv, map[])
    {
      assert P(5) == 32;
    }

    /** Probing for a key known to be absent: skip bytes not below the counter. */
    method ProbeAbsent(key: K) returns (p: nat, byte: nat)
      requires Valid()
      ensures StopsAt(key, p) && byte == Probe(hash, TheShape(), key, p)
    {
      hide Home, KeyInfo, Represents, IsPow2, MaxAllowed, WithBuffer, Probe, NotBefore, HasKey;
      ghost var s := TheShape();
      StartProbe(key);
      p := Home(hash(key), mask);
      byte := KeyInfo(hash(key), inc, shift);
      ProbeHere(key, p);
      while byte <= info[p]
        invariant Home(hash(key), mask) <= p <= s.cap && byte == Probe(hash, s, key, p)
        invariant p > Home(hash(key), mask) ==> Probe(hash, s, key, p - 1) <= info[p - 1]
        decreases s.cap + 2 - p
      {
        ProbeHere(key, p);
        byte, p := byte + inc, p + 1;
      }
    }

    /** insert_move: add a pair whose key is new; fails when no byte has room and
        the increment cannot be halved again. */
    method InsertMove(key: K, value: V) returns (ok: bool)
      requires Valid() && Honest() && mask != 0 && key !in contents && num < MaxAllowed(mask + 1)
      modifies this, info, kv
      ensures Valid() && Honest() && contents == if ok then old(contents)[key := value] else old(contents)
      ensures info == old(info) && kv == old(kv) && mask == old(mask)
      ensures !ok <==> old(maxNum == 0 && inc <= 2)
      ensures !ok <==> Crammed(hash, old(contents.Keys), mask + 1)
      ensures !ok ==> |old(contents)| >= 127
    {
      hide Represents, IsPow2, MaxAllowed, WithBuffer, StopsAt, Probe, Crammed;
      UsedUp();
      if 0 == maxNum {
        var increased := TryIncreaseInfo();
        if !increased {
          CrowdedCount();
          return false;
        }
      }
      var p, byte := ProbeAbsent(key);
      Place(key, value, p, byte);
      ok := true;
    }

    lemma CrowdedCount()
      requires Valid() && Crowded() && inc <= 2
      ensures |contents| >= 127
    {
      hide IsPow2, MaxAllowed, WithBuffer, Bytes, Keyed, StandsForMap, ValidShape;
      SmallInc(TheShape());
      var i: nat :| i < Cap() && i < info.Length && info[i] + inc > 255;
      CrowdedRun(hash, TheShape(), info[..], kv[..], contents, i);
    }

    /** The limit is switched off and the increment used up exactly for crammed keys. */
    lemma UsedUp()
      requires Valid() && mask != 0
      ensures Crammed(hash, contents.Keys, mask + 1) ==> maxNum == 0 && inc == 2
      ensures Honest() && maxNum == 0 && inc <= 2 ==> Crammed(hash, contents.Keys, mask + 1)
    {
      hide IsPow2, MaxAllowed, WithBuffer, Represents, Crammed;
      assert forall i: nat :: i < Cap() ==> info[..][i] == info[i];
      SmallestInc();
      if Crammed(hash, contents.Keys, mask + 1) {
        CrammedFills(hash, TheShape(), info[..], kv[..], contents);
      }
      if Honest() && maxNum == 0 && inc <= 2 {
        var i: nat :| i < Cap() && i < info.Length && info[i] + inc > 255;
        FullIsCrammed(hash, TheShape(), info[..], kv[..], contents, i);
      }
    }

    /** At most 127 keys can have one hash; with 127 of them the increment is used
        up and the limit is switched off. */
    lemma OneHash(x: nat)
      requires Valid()
      ensures |WithHash(hash, contents.Keys, x)| <= 127
      ensures |WithHash(hash, contents.Keys, x)| == 127 ==> mask != 0 && maxNum == 0 && inc == 2
      ensures |WithHash(hash, contents.Keys, x)| >= 64 ==> inc == 2
    {
      hide IsPow2, MaxAllowed, WithBuffer, Represents, Home;
      var keys := WithHash(hash, contents.Keys, x);
      WindowBound(hash, TheShape(), info[..], kv[..], contents, keys, Home(x, mask), Home(x, mask));
      assert forall i: nat :: i < Cap() ==> info[..][i] == info[i];
      SmallestInc();
      if |keys| >= 64 {
        SmallCount(inc, |keys|);
      }
    }

    /** rehashPowerOfTwo: move every pair into a new, empty table of n buckets, in
        slot order. When a pair cannot be moved, it and the pairs after it are lost.
        That happens exactly when some used slot comes after crammed keys. */
    method RehashPowerOfTwo(n: nat) returns (ok: bool)
      requires Valid() && n >= 8 && IsPow2(n) && num <= MaxAllowed(n)
      modifies this
      ensures Valid() && Honest() && mask + 1 == n && fresh(info) && fresh(kv)
      ensures ok ==> contents == old(contents) && num == old(num)
      ensures !ok ==> Left(old(info[..]), old(kv[..]), contents)
      ensures !ok ==> SubMap(contents, old(contents)) && 127 <= |contents| < |old(contents)|
      ensures !ok <==> Loses(hash, old(info[..]), old(kv[..]), n)
    {
      hide Represents, IsPow2, MaxAllowed, WithBuffer, Moved, LateIn, Room, Crowded, SubMap, Crammed;
      ghost var s, info0, kv0, all := TheShape(), info[..], kv[..], contents;
      var oldKv, oldInfo, oldCap := kv, info, Cap();
      MaxAllowedGrows(n);
      InitData(n);
      MovedNone(info0, kv0);
      var i := 0;
      while i < oldCap
        invariant i <= oldCap && Valid() && Honest() && mask + 1 == n
        invariant fresh(info) && fresh(kv) && oldInfo[..] == info0 && oldKv[..] == kv0
        invariant Moved(info0, kv0, i, contents) && |contents| <= |all|
        invariant forall j: nat :: j < i ==> !LateIn(hash, info0, kv0, n, j)
      {
        MovedNext(hash, s, info0, kv0, i, contents, all);
        assert oldInfo[i] == info0[i] && oldKv[i] == kv0[i];
        LateNow(hash, info0, kv0, n, i, contents);
        if oldInfo[i] != 0 {
          ok := InsertMove(oldKv[i].0, oldKv[i].1);
          if !ok {
            LeftIsSub(hash, s, info0, kv0, contents, all);
            return false;
          }
        }
        i := i + 1;
      }
      MovedAll(hash, s, info0, kv0, contents, all);
      LateInside(hash, info0, kv0, n);
      ok := true;
    }

    static lemma LateNow(hash: K -> nat, info: seq<nat>, kv: seq<(K, V)>, n: nat, i: nat, m: map<K, V>)
      requires i < |kv| <= |info| && Moved(info, kv, i, m)
      ensures LateIn(hash, info, kv, n, i) <==> info[i] != 0 && Crammed(hash, m.Keys, n)
    {
      hide Moved, Crammed;
      MovedKeys(info, kv, i, m);
    }

    static lemma LateInside(hash: K -> nat, info: seq<nat>, kv: seq<(K, V)>, n: nat)
      requires |kv| <= |info|
      ensures forall j: nat :: LateIn(hash, info, kv, n, j) ==> j < |kv|
    {
    }

    static lemma MovedNone(info: seq<nat>, kv: seq<(K, V)>)
      requires |kv| <= |info|
      ensures Moved(info, kv, 0, map[])
    {
    }

    /** How far the load limit is below what rules out another doubling. */
    function Deficit(): nat
      reads this
    {
      if 2 * num + 1 > MaxAllowed(mask + 1) then 2 * num + 1 - MaxAllowed(mask + 1) else 0
    }

    /** The limit was switched off, the increment is used up and the table is less
        than half full: increase_size gives up at once. */
    predicate Stuck()
      reads this
    {
      mask != 0 && maxNum == 0 && inc <= 2 && num < MaxAllowed(mask + 1) && 2 * num < MaxAllowed(mask + 1)
    }

    /** The limit is reached, and neither a first allocation nor halving will do. */
    predicate NeedsRehash()
      reads this
    {
      && mask != 0 && num >= maxNum && (num < MaxAllowed(mask + 1) ==> inc <= 2)
      && 2 * num >= MaxAllowed(mask + 1)
    }

    /** Exactly when a new key does not fit: the table is stuck; or it has to be
        rehashed, and the rehash loses pairs, or the keys are crammed afterwards and
        there is no second doubling, or they still are crammed after that. */
    ghost predicate Overflows()
      requires kv.Length <= info.Length
      reads this, info, kv
    {
      var n := mask + 1;
      || Stuck()
      || (&& NeedsRehash()
          && (|| Loses(hash, info[..], kv[..], 2 * n)
              || (&& Crammed(hash, contents.Keys, 2 * n)
                  && (2 * num < MaxAllowed(2 * n) || Crammed(hash, contents.Keys, 4 * n)))))
    }

    lemma BelowLimit()
      requires Valid()
      ensures num < maxNum ==> !Overflows()
    {
      hide Represents, IsPow2, MaxAllowed, WithBuffer, Loses, Crammed;
    }

    /** No new key fits a stuck table; otherwise it takes a rehash and 127 pairs. */
    lemma OverflowNeeds()
      requires Valid()
      ensures Overflows() ==> Stuck() || (NeedsRehash() && |contents| >= 127)
      ensures Stuck() ==> Overflows()
    {
      hide IsPow2, MaxAllowed, WithBuffer, Loses, Bytes, Keyed, ValidShape, StandsForMap;
      var n := 2 * (mask + 1);
      if Loses(hash, info[..], kv[..], n) {
        LosesIsCrammed(hash, info[..], kv[..], contents, n);
      }
      if Crammed(hash, contents.Keys, n) {
        var a: nat, b: nat :| Crams(hash, contents.Keys, n, a, b);
        SubsetSize(InWindow(hash, contents.Keys, n, a, b), contents.Keys);
      }
    }

    /** After a rehash only crammed keys keep a new key out. */
    lemma Rehashed(n: nat)
      requires Valid() && Honest() && n >= 8 && mask + 1 == 2 * n && num <= MaxAllowed(n)
      ensures Overflows() <==>
                && Crammed(hash, contents.Keys, 2 * n)
                && (2 * num < MaxAllowed(2 * n) || Crammed(hash, contents.Keys, 4 * n))
    {
      hide IsPow2, MaxAllowed, WithBuffer, Loses, Crammed, Bytes, Keyed, ValidShape, StandsForMap;
      UsedUp();
      SmallestInc();
      MaxAllowedGrows(n);
      SecondDoubling(n);
      if Loses(hash, info[..], kv[..], 4 * n) {
        LosesIsCrammed(hash, info[..], kv[..], contents, 4 * n);
      }
    }

    static lemma SecondDoubling(n: nat)
      requires n >= 8
      ensures 2 * MaxAllowed(n) < MaxAllowed(4 * n)
    {
    }

    /** Nothing is lost, or a failed rehash kept 127 pairs or more but not all. */
    ghost predicate Kept(was: map<K, V>)
      reads this
    {
      contents == was || 127 <= |contents| < |was|
    }

    /** increase_size: allocate, halve the info bytes, or double the buckets. */
    method IncreaseSize() returns (ok: bool)
      requires Valid() && num >= maxNum
      modifies this, info
      ensures Valid() && (ok ==> Honest() && contents == old(contents) && num == old(num))
      ensures ok ==> Deficit() < old(Deficit()) || (Deficit() == old(Deficit()) && inc < old(inc))
      ensures !ok <==> old(Stuck() || (NeedsRehash() && Loses(hash, info[..], kv[..], 2 * (mask + 1))))
      ensures if ok then Overflows() <==> old(Overflows()) else old(Overflows())
      ensures !ok ==> old(Stuck()) || |old(contents)| >= 127
      ensures !ok && old(2 * num < MaxAllowed(mask + 1)) ==> contents == old(contents)
      ensures !ok && old(2 * num >= MaxAllowed(mask + 1)) ==> Left(old(info[..]), old(kv[..]), contents)
      ensures !ok && old(2 * num >= MaxAllowed(mask + 1)) ==> 127 <= |contents| < |old(contents)|
      ensures !ok ==> SubMap(contents, old(contents)) && Kept(old(contents))
      ensures old(Stuck()) ==> Stuck() && contents == old(contents)
      ensures (info == old(info) && kv == old(kv)) || (fresh(info) && fresh(kv))
    {
      hide Represents, IsPow2, MaxAllowed, WithBuffer, Room, Crowded, Loses, Crammed, Left;
      if 0 == mask {
        FirstSize();
        InitData(INITIAL_ELEMENTS);
        BelowLimit();
        return true;
      }
      MaxAllowedGrows(mask + 1);
      var maxAllowed := MaxAllowed(mask + 1);
      if num < maxAllowed {
        var increased := TryIncreaseInfo();
        if increased {
          BelowLimit();
          return true;
        }
        SmallestInc();
      }
      if num * 2 < maxAllowed {
        return false;
      }
      Pow2Doubles(mask + 1);
      ghost var n := mask + 1;
      ok := RehashPowerOfTwo((mask + 1) * 2);
      if ok {
        Rehashed(n);
      }
    }

    lemma SmallestInc()
      requires Valid()
      ensures inc >= 2 && inc % 2 == 0
    {
      hide Keyed, Bytes, StandsForMap, MaxAllowed, WithBuffer, IsPow2;
      SmallInc(TheShape());
    }

    static lemma FirstSize()
      ensures IsPow2(8) && MaxAllowed(1) == 0 && MaxAllowed(8) == 6
    {
      assert 8 == P(3);
    }

    /** Skip smaller bytes, then look at the slots with the key's own byte. */
    method ProbeKey(key: K) returns (found: bool, p: nat, byte: nat)
      requires Valid()
      ensures found ==> p < Cap() && key in contents && kv[p] == (key, contents[key]) && info[p] != 0
      ensures !found ==> key !in contents && StopsAt(key, p) && byte == Probe(hash, TheShape(), key, p)
    {
      hide Home, KeyInfo, Represents, IsPow2, MaxAllowed, WithBuffer, Probe, NotBefore, HasKey;
      ghost var s := TheShape();
      StartProbe(key);
      p := Home(hash(key), mask);
      byte := KeyInfo(hash(key), inc, shift);
      ProbeHere(key, p);
      while byte < info[p]
        invariant Home(hash(key), mask) <= p <= s.cap && byte == Probe(hash, s, key, p)
        invariant p > Home(hash(key), mask) ==> Probe(hash, s, key, p - 1) <= info[p - 1]
        invariant NotBefore(key, p)
        decreases s.cap + 2 - p
      {
        ProbeHere(key, p);
        NextProbe(key, p);
        byte, p := byte + inc, p + 1;
      }
      ProbeHere(key, p);
      while byte == info[p]
        invariant Home(hash(key), mask) <= p <= s.cap && byte == Probe(hash, s, key, p) >= info[p]
        invariant p > Home(hash(key), mask) ==> Probe(hash, s, key, p - 1) <= info[p - 1]
        invariant NotBefore(key, p)
        decreases s.cap + 2 - p
      {
        ProbeHere(key, p);
        if key == kv[p].0 {
          Occupied(key, p);
          Found(key, p);
          return true, p, byte;
        }
        NextProbe(key, p);
        StaysAbove(key, p);
        byte, p := byte + inc, p + 1;
      }
      Missing(key, p);
      found := false;
    }

    lemma StaysAbove(key: K, i: nat)
      requires Valid() && Home(hash(key), mask) <= i < Cap() && Probe(hash, TheShape(), key, i) == info[i]
      ensures info[i + 1] <= Probe(hash, TheShape(), key, i + 1)
    {
      hide Home, KeyInfo, IsPow2, MaxAllowed, WithBuffer, Keyed, StandsForMap;
      ProbeStep(hash, TheShape(), key, i);
      if i + 1 < Cap() {
        assert InOrder(info[..], inc, i + 1);
      } else {
        assert info[..][i + 1] <= 1;
      }
    }

    lemma LimitIs()
      requires Valid() && num < maxNum
      ensures mask != 0 && maxNum == MaxAllowed(mask + 1)
    {
      hide Represents, IsPow2, MaxAllowed, WithBuffer;
    }

    /** Below the limit an absent key is placed; 127 others with its hash would have
        switched the limit off. */
    method PlaceNew(key: K, value: V, p: nat, byte: nat)
      requires Valid() && num < maxNum && key !in contents
      requires StopsAt(key, p) && byte == Probe(hash, TheShape(), key, p)
      modifies this, info, kv
      ensures Valid() && Honest() && contents == old(contents)[key := value]
      ensures |WithHash(hash, old(contents.Keys), hash(key))| < 127
      ensures p < Cap() && kv[p] == (key, value) && info[p] != 0
      ensures info == old(info) && kv == old(kv)
    {
      hide Represents, IsPow2, MaxAllowed, WithBuffer, StopsAt, Probe, Room, Crowded, WithHash;
      LimitIs();
      Place(key, value, p, byte);
      HashAdds(hash, old(contents), key, value);
      OneHash(hash(key));
    }

    /** doInsert (and doCreateByKey, with a default value): add the pair unless the
        key is present. p is the slot of the key unless the table overflows. */
    method DoInsert(key: K, value: V) returns (r: Outcome, p: nat)
      requires Valid()
      modifies this, info, kv
      ensures Valid() && (r == Existing <==> key in old(contents))
      ensures r == Existing ==> contents == old(contents)
      ensures r == Inserted ==> Honest() && contents == old(contents)[key := value]
      ensures r == Overflow ==> SubMap(contents, old(contents)) && Kept(old(contents))
      ensures old(Stuck()) ==> contents == old(contents) && Stuck()
      ensures r != Overflow ==> p < Cap() && info[p] != 0 && kv[p] == (key, contents[key])
      ensures r == Overflow <==> key !in old(contents) && old(Overflows())
      ensures key !in old(contents) && |WithHash(hash, old(contents.Keys), hash(key))| >= 127 ==> r == Overflow
      ensures r == Overflow ==> old(Stuck()) || (old(NeedsRehash()) && |old(contents)| >= 127)
      ensures (info == old(info) && kv == old(kv)) || (fresh(info) && fresh(kv))
    {
      hide Represents, IsPow2, MaxAllowed, WithBuffer, StopsAt, Probe, Room, Crowded, SubMap, WithHash, Left,
           Overflows, NeedsRehash, Stuck, Honest, Loses;
      OverflowNeeds();
      while true
        invariant Valid() && contents == old(contents) && (old(Stuck()) ==> Stuck())
        invariant (info == old(info) && kv == old(kv)) || (fresh(info) && fresh(kv))
        invariant Overflows() <==> old(Overflows())
        decreases Deficit(), inc
      {
        var found, idx, byte := ProbeKey(key);
        if found {
          return Existing, idx;
        }
        BelowLimit();
        if num >= maxNum {
          var ok := IncreaseSize();
          if !ok {
            return Overflow, 0;
          }
        } else {
          PlaceNew(key, value, idx, byte);
          return Inserted, idx;
        }
      }
    }

    /** operator[] followed by an assignment, as a byte store uses the table. */
    method Store(key: K, value: V) returns (ok: bool)
      requires Valid()
      modifies this, info, kv
      ensures Valid() && (ok ==> contents == old(contents)[key := value])
      ensures !ok <==> key !in old(contents) && old(Overflows())
      ensures !ok ==> old(Stuck()) || (old(NeedsRehash()) && |old(contents)| >= 127)
      ensures !ok ==> SubMap(contents, old(contents)) && Kept(old(contents))
      ensures (info == old(info) && kv == old(kv)) || (fresh(info) && fresh(kv))
    {
      hide Represents, IsPow2, MaxAllowed, WithBuffer;
      var r, p := DoInsert(key, value);
      if r == Overflow {
        return false;
      }
      ghost var info0, kv0 := info[..], kv[..];
      kv[p] := (key, value);
      assert kv[..] == kv0[p := (key, value)];
      Update(hash, TheShape(), info0, kv0, p, key, value, contents);
      contents := contents[key := value];
      ok := true;
    }
  }
}
