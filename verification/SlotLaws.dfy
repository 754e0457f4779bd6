/** The laws of the Robin Hood slot array: info bytes, probe order and the map
    the slots stand for. Everything here is about values; the Table class changes
    its arrays in place and uses these laws. */
module SlotLaws {
  import opened Bits

  /** inc * d: what d steps away from the home slot add to an info byte. */
  function Far(inc: nat, d: nat): nat { inc * d }

  lemma FarNone(inc: nat)
    ensures Far(inc, 0) == 0
  {
  }

  lemma FarStep(inc: nat, d: nat)
    ensures Far(inc, d + 1) == Far(inc, d) + inc
  {
  }

  lemma FarAtLeast(inc: nat, d: nat, k: nat)
    requires d >= k
    ensures Far(inc, d) >= Far(inc, k)
  {
    MulLe(k, d, inc);
  }

  /** keyToIdx, the index: the hash above its low 5 bits, masked. */
  function Home(h: nat, mask: nat): nat { Shr(h, 5) % (mask + 1) }

  /** keyToIdx, the info byte of a key in its home slot. */
  function KeyInfo(h: nat, inc: nat, shift: nat): nat { inc + Shr(Low(h, 5), shift) }

  lemma KeyInfoRange(h: nat, inc: nat, shift: nat)
    requires shift <= 4 && inc == P(5 - shift)
    ensures inc <= KeyInfo(h, inc, shift) < 2 * inc
    ensures 2 <= inc <= 32 && inc % 2 == 0
  {
    hide Shr, Low, Shl, P;
    ShlP(5 - shift, shift);
    ShrLt(Low(h, 5), shift, inc);
    PZero();
    PMono(1, 5 - shift);
    PMono(5 - shift, 5);
    PStep(4); PStep(3);
    PStep(4 - shift);
  }

  /** The byte after an empty slot is in its home; otherwise it is at most one
      step further from home than the byte before. */
  predicate InOrder(info: seq<nat>, inc: nat, i: nat)
    requires i < |info|
  {
    info[i] != 0 ==>
      info[i] >= inc && (if i == 0 || info[i - 1] == 0 then info[i] < 2 * inc else info[i] <= info[i - 1] + inc)
  }

  /** The geometry of a table. */
  datatype Shape = Shape(cap: nat, mask: nat, inc: nat, shift: nat)

  predicate ValidShape(s: Shape)
  {
    && s.shift <= 4 && s.inc == P(5 - s.shift)
    && (s.mask != 0 ==> s.mask < s.cap)
  }

  /** Is slot i holding key k as far from home as its info byte says? */
  predicate Placed<K>(hash: K -> nat, s: Shape, k: K, byte: nat, i: nat)
  {
    var h := Home(hash(k), s.mask);
    h <= i && byte == KeyInfo(hash(k), s.inc, s.shift) + Far(s.inc, i - h)
  }

  /** The byte-level invariant: probe order, empty tail with its sentinel, bytes. */
  ghost predicate Bytes(s: Shape, info: seq<nat>)
  {
    && |info| == s.cap + 8
    && (forall i :: 0 <= i < s.cap ==> InOrder(info, s.inc, i))
    && (forall i :: 0 <= i < s.cap ==> info[i] <= 255)
    && (forall i :: s.cap <= i < s.cap + 8 ==> info[i] <= 1)
  }

  ghost predicate Keyed<K, V>(hash: K -> nat, s: Shape, info: seq<nat>, kv: seq<(K, V)>)
    requires |info| == s.cap + 8 && |kv| == s.cap
  {
    && (forall i :: 0 <= i < s.cap && info[i] != 0 ==> Placed(hash, s, kv[i].0, info[i], i))
    && (forall i, j :: 0 <= i < j < s.cap && info[i] != 0 && info[j] != 0 ==> kv[i].0 != kv[j].0)
  }

  /** Slot i holds key k. */
  predicate HasKey<K(==), V>(info: seq<nat>, kv: seq<(K, V)>, k: K, i: nat)
    requires |kv| <= |info|
  {
    i < |kv| && info[i] != 0 && kv[i].0 == k
  }

  /** The occupied slots are exactly the pairs of the map. */
  ghost predicate StandsForMap<K, V>(info: seq<nat>, kv: seq<(K, V)>, m: map<K, V>)
    requires |kv| <= |info|
  {
    && (forall i :: 0 <= i < |kv| && info[i] != 0 ==> kv[i].0 in m && m[kv[i].0] == kv[i].1)
    && (forall k :: k in m ==> exists i: nat :: HasKey(info, kv, k, i))
  }

  ghost predicate Represents<K, V>(hash: K -> nat, s: Shape, info: seq<nat>, kv: seq<(K, V)>, m: map<K, V>)
  {
    && ValidShape(s) && Bytes(s, info) && |kv| == s.cap
    && Keyed(hash, s, info, kv) && StandsForMap(info, kv, m)
  }

  // ----- searching

  /** What the probe counter shows d slots after home. */
  function Probe<K>(hash: K -> nat, s: Shape, k: K, i: nat): nat
    requires Home(hash(k), s.mask) <= i
  {
    KeyInfo(hash(k), s.inc, s.shift) + Far(s.inc, i - Home(hash(k), s.mask))
  }

  lemma ProbeStep<K>(hash: K -> nat, s: Shape, k: K, i: nat)
    requires ValidShape(s) && Home(hash(k), s.mask) <= i
    ensures Probe(hash, s, k, i + 1) == Probe(hash, s, k, i) + s.inc
    ensures Probe(hash, s, k, i) >= s.inc >= 2
    ensures Probe(hash, s, k, Home(hash(k), s.mask)) == KeyInfo(hash(k), s.inc, s.shift) < 2 * s.inc
    ensures i > Home(hash(k), s.mask) ==> Probe(hash, s, k, i) >= 2 * s.inc
  {
    hide P, KeyInfo, Home, Far;
    var d := i - Home(hash(k), s.mask);
    KeyInfoRange(hash(k), s.inc, s.shift);
    FarNone(s.inc);
    FarStep(s.inc, d);
    FarStep(s.inc, 0);
    if d > 0 { FarAtLeast(s.inc, d, 1); }
  }

  /** From its home to its slot, every byte is at least the probe counter: a probe
      that stops where the byte is smaller cannot have missed the key. */
  lemma {:induction false} NoEarlyStop<K, V>(hash: K -> nat, s: Shape, info: seq<nat>, kv: seq<(K, V)>, k: K, j: nat,
                                             i: nat)
    requires ValidShape(s) && Bytes(s, info) && |kv| == s.cap && Keyed(hash, s, info, kv)
    requires HasKey(info, kv, k, j) && Home(hash(k), s.mask) <= i <= j
    ensures info[i] >= Probe(hash, s, k, i)
    decreases j - i
  {
    hide Home, KeyInfo, Far, ValidShape;
    assert Placed(hash, s, kv[j].0, info[j], j);
    if i < j {
      NoEarlyStop(hash, s, info, kv, k, j, i + 1);
      ProbeStep(hash, s, k, i);
      ProbeStep(hash, s, k, i + 1);
      assert InOrder(info, s.inc, i + 1);
    }
  }

  lemma HomeInRange(h: nat, s: Shape)
    requires ValidShape(s)
    ensures Home(h, s.mask) <= s.cap
    ensures s.mask != 0 ==> Home(h, s.mask) < s.cap
    ensures Home(h, s.mask) <= s.mask
  {
    hide Shr, P;
  }

  // ----- insertion

  /** The arrays after the slots from p to the empty slot e move up by one and
      the new pair goes to p. */
  ghost predicate InsertedAt<K, V>(inc: nat, info: seq<nat>, kv: seq<(K, V)>, p: nat, e: nat, byte: nat, k: K, v: V,
                                   info': seq<nat>, kv': seq<(K, V)>)
    requires p <= e < |kv| <= |info|
  {
    && |info'| == |info| && |kv'| == |kv|
    && (forall i :: 0 <= i < |info| && (i < p || i > e) ==> info'[i] == info[i])
    && (forall i :: 0 <= i < |kv| && (i < p || i > e) ==> kv'[i] == kv[i])
    && info'[p] == byte && kv'[p] == (k, v)
    && (forall i :: p < i <= e ==> info'[i] == info[i - 1] + inc)
    && (forall i :: p < i <= e ==> kv'[i] == kv[i - 1])
  }

  /** p is where probing for the absent key k stops, e the first empty slot from p. */
  ghost predicate InsertPoint<K>(hash: K -> nat, s: Shape, info: seq<nat>, k: K, p: nat, e: nat)
    requires |info| == s.cap + 8
  {
    var h := Home(hash(k), s.mask);
    && h <= p <= e < s.cap && info[e] == 0
    && (forall i :: p <= i < e ==> info[i] != 0)
    && Probe(hash, s, k, p) > info[p]
    && (p > h ==> Probe(hash, s, k, p - 1) <= info[p - 1])
  }

  lemma InsertBytes<K, V>(hash: K -> nat, s: Shape, info: seq<nat>, kv: seq<(K, V)>, p: nat, e: nat, k: K, v: V,
                          info': seq<nat>, kv': seq<(K, V)>)
    requires ValidShape(s) && Bytes(s, info) && |kv| == s.cap
    requires forall i :: 0 <= i < s.cap ==> info[i] + s.inc <= 255
    requires InsertPoint(hash, s, info, k, p, e)
    requires InsertedAt(s.inc, info, kv, p, e, Probe(hash, s, k, p), k, v, info', kv')
    ensures Bytes(s, info') && Probe(hash, s, k, p) <= 255
  {
    hide Home, KeyInfo, Far, ValidShape;
    var inc := s.inc;
    ProbeStep(hash, s, k, p);
    if p > Home(hash(k), s.mask) {
      ProbeStep(hash, s, k, p - 1);
      assert info[p - 1] + inc <= 255;
    } else {
      SmallInc(s);
    }
    forall i | 0 <= i < s.cap
      ensures InOrder(info', inc, i) && info'[i] <= 255
    {
      assert InOrder(info, inc, i);
      if i > 0 {
        assert InOrder(info, inc, i - 1);
        assert info[i - 1] + inc <= 255;
      }
    }
  }

  lemma SmallInc(s: Shape)
    requires ValidShape(s)
    ensures 2 <= s.inc <= 32
  {
    KeyInfoRange(0, s.inc, s.shift);
  }

  lemma InsertKeys<K, V>(hash: K -> nat, s: Shape, info: seq<nat>, kv: seq<(K, V)>, p: nat, e: nat, k: K, v: V,
                         info': seq<nat>, kv': seq<(K, V)>)
    requires |info| == s.cap + 8 && |kv| == s.cap && Keyed(hash, s, info, kv)
    requires forall i: nat :: !HasKey(info, kv, k, i)
    requires InsertPoint(hash, s, info, k, p, e)
    requires InsertedAt(s.inc, info, kv, p, e, Probe(hash, s, k, p), k, v, info', kv')
    ensures Keyed(hash, s, info', kv')
  {
    hide Home, KeyInfo, Far;
    forall i | 0 <= i < s.cap && info'[i] != 0
      ensures Placed(hash, s, kv'[i].0, info'[i], i)
    {
      if p < i <= e {
        assert Placed(hash, s, kv[i - 1].0, info[i - 1], i - 1);
        FarStep(s.inc, i - 1 - Home(hash(kv[i - 1].0), s.mask));
      } else if i != p {
        assert Placed(hash, s, kv[i].0, info[i], i);
      }
    }
    forall i, j | 0 <= i < j < s.cap && info'[i] != 0 && info'[j] != 0
      ensures kv'[i].0 != kv'[j].0
    {
      var i' := if p < i <= e then i - 1 else i;
      var j' := if p < j <= e then j - 1 else j;
      if i == p {
        assert !HasKey(info, kv, k, j');
      } else if j == p {
        assert !HasKey(info, kv, k, i');
      } else {
        assert info[i'] != 0 && info[j'] != 0 && i' < j';
      }
    }
  }

  lemma InsertMap<K, V>(inc: nat, info: seq<nat>, kv: seq<(K, V)>, p: nat, e: nat, byte: nat, k: K, v: V,
                        info': seq<nat>, kv': seq<(K, V)>, m: map<K, V>)
    requires p <= e < |kv| <= |info| && info[e] == 0 && byte != 0 && inc > 0
    requires forall i :: p <= i < e ==> info[i] != 0
    requires InsertedAt(inc, info, kv, p, e, byte, k, v, info', kv')
    requires StandsForMap(info, kv, m) && k !in m
    ensures StandsForMap(info', kv', m[k := v])
  {
    var m' := m[k := v];
    forall i | 0 <= i < |kv'| && info'[i] != 0
      ensures kv'[i].0 in m' && m'[kv'[i].0] == kv'[i].1
    {
      if i != p {
        var i' := if p < i <= e then i - 1 else i;
        assert info[i'] != 0 && kv'[i] == kv[i'];
      }
    }
    forall k' | k' in m'
      ensures exists i: nat :: HasKey(info', kv', k', i)
    {
      if k' == k {
        assert HasKey(info', kv', k', p);
      } else {
        var i: nat :| HasKey(info, kv, k', i);
        assert HasKey(info', kv', k', if p <= i < e then i + 1 else i);
      }
    }
  }

  lemma Absent<K, V>(info: seq<nat>, kv: seq<(K, V)>, m: map<K, V>, k: K)
    requires |kv| <= |info| && StandsForMap(info, kv, m)
    ensures k in m <==> exists i: nat :: HasKey(info, kv, k, i)
  {
  }

  /** Inserting an absent key keeps the whole invariant and adds the pair. */
  lemma Insertion<K, V>(hash: K -> nat, s: Shape, info: seq<nat>, kv: seq<(K, V)>, p: nat, e: nat, k: K, v: V,
                        info': seq<nat>, kv': seq<(K, V)>, m: map<K, V>)
    requires Represents(hash, s, info, kv, m) && k !in m
    requires forall i :: 0 <= i < s.cap ==> info[i] + s.inc <= 255
    requires InsertPoint(hash, s, info, k, p, e)
    requires InsertedAt(s.inc, info, kv, p, e, Probe(hash, s, k, p), k, v, info', kv')
    ensures Represents(hash, s, info', kv', m[k := v])
  {
    hide Home, KeyInfo, Far, ValidShape, Bytes, Keyed, StandsForMap, InsertedAt, Probe, InOrder;
    assert |info| == s.cap + 8 && |info'| == s.cap + 8 && |kv'| == s.cap by {
      Lengths(s, info, kv, p, e, Probe(hash, s, k, p), k, v, info', kv');
    }
    Absent(info, kv, m, k);
    InsertBytes(hash, s, info, kv, p, e, k, v, info', kv');
    InsertKeys(hash, s, info, kv, p, e, k, v, info', kv');
    ProbeStep(hash, s, k, p);
    InsertMap(s.inc, info, kv, p, e, Probe(hash, s, k, p), k, v, info', kv', m);
  }

  lemma Lengths<K, V>(s: Shape, info: seq<nat>, kv: seq<(K, V)>, p: nat, e: nat, byte: nat, k: K, v: V,
                      info': seq<nat>, kv': seq<(K, V)>)
    requires Bytes(s, info) && |kv| == s.cap && p <= e < s.cap
    requires InsertedAt(s.inc, info, kv, p, e, byte, k, v, info', kv')
    ensures |info| == s.cap + 8 && |info'| == s.cap + 8 && |kv'| == s.cap
  {
  }

  // ----- erasure

  /** The arrays after the slots above p move down by one, up to q. */
  ghost predicate ErasedAt<K, V>(inc: nat, info: seq<nat>, kv: seq<(K, V)>, p: nat, q: nat, info': seq<nat>,
                                 kv': seq<(K, V)>)
    requires p <= q < |kv| && q + 1 < |info|
  {
    && |info'| == |info| && |kv'| == |kv|
    && (forall i :: 0 <= i < |info| && (i < p || i > q) ==> info'[i] == info[i])
    && (forall i :: 0 <= i < |kv| && (i < p || i > q) ==> kv'[i] == kv[i])
    && info'[q] == 0
    && (forall i :: p < i <= q ==> info[i] >= 2 * inc)
    && (forall i :: p <= i < q ==> info'[i] == info[i + 1] - inc)
    && (forall i :: p <= i < q && i + 1 < |kv| ==> kv'[i] == kv[i + 1])
    && info[q + 1] < 2 * inc
  }

  lemma EraseBytes<K, V>(s: Shape, info: seq<nat>, kv: seq<(K, V)>, p: nat, q: nat, info': seq<nat>, kv': seq<(K, V)>)
    requires Bytes(s, info) && |kv| == s.cap && s.inc >= 2
    requires p <= q < s.cap && info[p] != 0
    requires ErasedAt(s.inc, info, kv, p, q, info', kv')
    ensures Bytes(s, info')
  {
    var inc := s.inc;
    forall i | 0 <= i < s.cap
      ensures InOrder(info', inc, i) && info'[i] <= 255
    {
      assert InOrder(info, inc, i);
      if i + 1 < s.cap { assert InOrder(info, inc, i + 1); }
    }
  }

  lemma EraseKeys<K, V>(hash: K -> nat, s: Shape, info: seq<nat>, kv: seq<(K, V)>, p: nat, q: nat, info': seq<nat>,
                        kv': seq<(K, V)>)
    requires ValidShape(s) && |info| == s.cap + 8 && |kv| == s.cap && Keyed(hash, s, info, kv)
    requires p <= q < s.cap && info[p] != 0
    requires ErasedAt(s.inc, info, kv, p, q, info', kv')
    ensures Keyed(hash, s, info', kv')
  {
    hide Home, KeyInfo, Far, ValidShape;
    SmallInc(s);
    forall i | 0 <= i < s.cap && info'[i] != 0
      ensures Placed(hash, s, kv'[i].0, info'[i], i)
    {
      if p <= i < q {
        assert Placed(hash, s, kv[i + 1].0, info[i + 1], i + 1);
        NotHome(hash, s, kv[i + 1].0, info[i + 1], i + 1);
        FarStep(s.inc, i - Home(hash(kv[i + 1].0), s.mask));
      } else {
        assert Placed(hash, s, kv[i].0, info[i], i);
      }
    }
    forall i, j | 0 <= i < j < s.cap && info'[i] != 0 && info'[j] != 0
      ensures kv'[i].0 != kv'[j].0
    {
      var i' := if p <= i < q then i + 1 else i;
      var j' := if p <= j < q then j + 1 else j;
      assert info[i'] != 0 && info[j'] != 0 && i' < j';
    }
  }

  lemma NotHome<K>(hash: K -> nat, s: Shape, k: K, byte: nat, i: nat)
    requires ValidShape(s) && Placed(hash, s, k, byte, i) && byte >= 2 * s.inc
    ensures Home(hash(k), s.mask) < i
  {
    hide Home, KeyInfo, Far, P;
    KeyInfoRange(hash(k), s.inc, s.shift);
    FarNone(s.inc);
  }

  /** Where the pair in a slot comes from, and where a pair goes. */
  lemma ErasedMoves<K, V>(inc: nat, info: seq<nat>, kv: seq<(K, V)>, p: nat, q: nat, info': seq<nat>, kv': seq<(K, V)>,
                          i: nat)
    requires p <= q < |kv| && q + 1 < |info| && |kv| <= |info| && inc >= 2 && i < |kv|
    requires ErasedAt(inc, info, kv, p, q, info', kv')
    ensures |info'| == |info| && |kv'| == |kv|
    ensures var j := if p <= i < q then i + 1 else i;
            info'[i] != 0 ==> j != p && info[j] != 0 && kv'[i] == kv[j]
    ensures var j := if p < i <= q then i - 1 else i;
            i != p && info[i] != 0 ==> info'[j] != 0 && kv'[j] == kv[i]
  {
    if p < i <= q {
      assert info'[i - 1] == info[i] - inc && kv'[i - 1] == kv[i];
    }
  }

  lemma EraseMap<K, V>(inc: nat, info: seq<nat>, kv: seq<(K, V)>, p: nat, q: nat, info': seq<nat>, kv': seq<(K, V)>,
                       m: map<K, V>)
    requires p <= q < |kv| && q + 1 < |info| && |kv| <= |info| && info[p] != 0 && inc >= 2
    requires forall i, j :: 0 <= i < j < |kv| && info[i] != 0 && info[j] != 0 ==> kv[i].0 != kv[j].0
    requires ErasedAt(inc, info, kv, p, q, info', kv')
    requires StandsForMap(info, kv, m)
    ensures |kv'| <= |info'| && StandsForMap(info', kv', m - {kv[p].0})
  {
    hide ErasedAt;
    ErasedMoves(inc, info, kv, p, q, info', kv', p);
    var k := kv[p].0;
    var m' := m - {k};
    forall i | 0 <= i < |kv'| && info'[i] != 0
      ensures kv'[i].0 in m' && m'[kv'[i].0] == kv'[i].1
    {
      ErasedMoves(inc, info, kv, p, q, info', kv', i);
    }
    forall k' | k' in m'
      ensures exists i: nat :: HasKey(info', kv', k', i)
    {
      var i: nat :| HasKey(info, kv, k', i);
      ErasedMoves(inc, info, kv, p, q, info', kv', i);
      assert HasKey(info', kv', k', if p < i <= q then i - 1 else i);
    }
  }

  /** Erasing the slot of a key keeps the whole invariant and removes the pair. */
  lemma Erasure<K, V>(hash: K -> nat, s: Shape, info: seq<nat>, kv: seq<(K, V)>, p: nat, q: nat, info': seq<nat>,
                      kv': seq<(K, V)>, m: map<K, V>)
    requires Represents(hash, s, info, kv, m)
    requires p <= q < s.cap && info[p] != 0
    requires ErasedAt(s.inc, info, kv, p, q, info', kv')
    ensures Represents(hash, s, info', kv', m - {kv[p].0})
  {
    hide Home, KeyInfo, Far, ValidShape, InOrder, StandsForMap;
    SmallInc(s);
    EraseBytes(s, info, kv, p, q, info', kv');
    EraseKeys(hash, s, info, kv, p, q, info', kv');
    EraseMap(s.inc, info, kv, p, q, info', kv', m);
  }

  // ----- halving the info bytes

  lemma HalveKeyInfo(h: nat, inc: nat, shift: nat)
    requires inc % 2 == 0
    ensures KeyInfo(h, inc / 2, shift + 1) == KeyInfo(h, inc, shift) / 2
  {
    hide Shr, Low, P;
    ShrShr(Low(h, 5), shift, 1);
    var b := Shr(Low(h, 5), shift);
    ShrOne(b);
  }

  lemma ShrOne(b: nat)
    ensures Shr(b, 1) == b / 2
  {
    PZero();
  }

  lemma HalveFar(inc: nat, d: nat)
    requires inc % 2 == 0
    ensures 2 * Far(inc / 2, d) == Far(inc, d)
  {
    assert inc == 2 * (inc / 2);
    MulAssoc(2, inc / 2, d);
  }

  /** Halving every byte is recomputing every byte with the halved increment. */
  lemma Halving<K, V>(hash: K -> nat, s: Shape, info: seq<nat>, kv: seq<(K, V)>, info': seq<nat>, m: map<K, V>)
    requires Represents(hash, s, info, kv, m) && s.shift < 4
    requires |info'| == |info|
    requires forall i :: 0 <= i < s.cap ==> info'[i] == info[i] / 2
    requires forall i :: s.cap <= i < |info| ==> info'[i] <= 1
    ensures Represents(hash, s.(inc := s.inc / 2, shift := s.shift + 1), info', kv, m)
    ensures forall i :: 0 <= i < s.cap ==> info'[i] + s.inc / 2 <= 255
  {
    hide Home, KeyInfo, Far, P, StandsForMap;
    var s' := s.(inc := s.inc / 2, shift := s.shift + 1);
    KeyInfoRange(0, s.inc, s.shift);
    PStep(4 - s.shift);
    assert ValidShape(s');
    SmallInc(s');
    forall i | 0 <= i < s.cap
      ensures InOrder(info', s'.inc, i) && info'[i] <= 255 && (info'[i] == 0 <==> info[i] == 0)
    {
      HalveInOrder(info, info', s.inc, i);
    }
    forall i | 0 <= i < s.cap && info'[i] != 0
      ensures Placed(hash, s', kv[i].0, info'[i], i)
    {
      var h := hash(kv[i].0);
      assert Placed(hash, s, kv[i].0, info[i], i);
      HalveKeyInfo(h, s.inc, s.shift);
      HalveFar(s.inc, i - Home(h, s.mask));
    }
    HalveMap(info, info', kv, m);
  }

  lemma HalveInOrder(info: seq<nat>, info': seq<nat>, inc: nat, i: nat)
    requires i < |info| == |info'| && inc >= 4 && inc % 2 == 0
    requires InOrder(info, inc, i) && (i > 0 ==> InOrder(info, inc, i - 1) && info'[i - 1] == info[i - 1] / 2)
    requires info'[i] == info[i] / 2
    ensures InOrder(info', inc / 2, i) && (info'[i] == 0 <==> info[i] == 0)
  {
  }

  lemma HalveMap<K, V>(info: seq<nat>, info': seq<nat>, kv: seq<(K, V)>, m: map<K, V>)
    requires |kv| <= |info| == |info'| && StandsForMap(info, kv, m)
    requires forall i :: 0 <= i < |kv| ==> (info'[i] == 0 <==> info[i] == 0)
    ensures StandsForMap(info', kv, m)
  {
    forall k | k in m
      ensures exists i: nat :: HasKey(info', kv, k, i)
    {
      var i: nat :| HasKey(info, kv, k, i);
      assert HasKey(info', kv, k, i);
    }
  }

  // ----- the buffer behind the buckets is long enough

  lemma {:induction false} DistinctKeys<K, V>(kv: seq<(K, V)>, lo: nat, hi: nat, m: map<K, V>)
    requires lo <= hi <= |kv|
    requires forall i :: lo <= i < hi ==> kv[i].0 in m
    requires forall i, j :: lo <= i < j < hi ==> kv[i].0 != kv[j].0
    ensures hi - lo <= |m|
  {
    if lo < hi {
      var m' := m - {kv[hi - 1].0};
      assert m == m'[kv[hi - 1].0 := m[kv[hi - 1].0]];
      DistinctKeys(kv, lo, hi - 1, m');
    }
  }

  /** While the map has no more pairs than the load limit, the last slot is empty,
      so a search for an empty slot ends inside the buffer. */
  lemma LastSlotEmpty<K, V>(hash: K -> nat, s: Shape, info: seq<nat>, kv: seq<(K, V)>, m: map<K, V>, limit: nat)
    requires Represents(hash, s, info, kv, m) && s.cap > 0
    requires s.cap == s.mask + 1 + (if limit <= 255 then limit else 255)
    requires |m| <= limit
    ensures info[s.cap - 1] == 0
  {
    hide KeyInfo, Far, P, Home;
    var j := s.cap - 1;
    if info[j] != 0 {
      var k := kv[j].0;
      assert Placed(hash, s, k, info[j], j);
      var h := Home(hash(k), s.mask);
      HomeInRange(hash(k), s);
      forall i | h <= i <= j
        ensures info[i] != 0
      {
        assert HasKey(info, kv, k, j);
        NoEarlyStop(hash, s, info, kv, k, j, i);
        ProbeStep(hash, s, k, i);
      }
      DistinctKeys(kv, h, s.cap, m);
      if limit > 255 {
        FarByte(hash(k), s, j - h);
      }
    }
  }

  lemma FarByte(h: nat, s: Shape, d: nat)
    requires ValidShape(s) && d >= 255
    ensures KeyInfo(h, s.inc, s.shift) + Far(s.inc, d) > 255
  {
    hide KeyInfo;
    KeyInfoRange(h, s.inc, s.shift);
    FarAtLeast(s.inc, d, 255);
    MulLe(2, s.inc, 255);
  }

  /** A byte that cannot take another step although the increment is the least
      possible ends a run of at least 127 pairs, which starts at the home of its key. */
  lemma FullRun<K, V>(hash: K -> nat, s: Shape, info: seq<nat>, kv: seq<(K, V)>, m: map<K, V>, j: nat) returns (h: nat)
    requires Represents(hash, s, info, kv, m) && s.inc == 2
    requires j < s.cap && info[j] + s.inc > 255
    ensures h == Home(hash(kv[j].0), s.mask) && h + 126 <= j
    ensures forall i :: h <= i <= j ==> info[i] != 0
  {
    hide KeyInfo, Far, P, Home;
    var k := kv[j].0;
    assert Placed(hash, s, k, info[j], j);
    h := Home(hash(k), s.mask);
    forall i | h <= i <= j
      ensures info[i] != 0
    {
      assert HasKey(info, kv, k, j);
      NoEarlyStop(hash, s, info, kv, k, j, i);
      ProbeStep(hash, s, k, i);
    }
    KeyInfoRange(hash(k), s.inc, s.shift);
    FarTwo(j - h);
  }

  lemma CrowdedRun<K, V>(hash: K -> nat, s: Shape, info: seq<nat>, kv: seq<(K, V)>, m: map<K, V>, j: nat)
    requires Represents(hash, s, info, kv, m) && s.inc == 2
    requires j < s.cap && info[j] + s.inc > 255
    ensures |m| >= 127
  {
    hide KeyInfo, Far, P, Home;
    var h := FullRun(hash, s, info, kv, m, j);
    DistinctKeys(kv, h, j + 1, m);
  }

  /** Keys that sit in n consecutive slots are at most n. */
  lemma {:induction false} KeysInRange<K, V>(info: seq<nat>, kv: seq<(K, V)>, keys: set<K>, lo: nat, n: nat)
    requires |kv| <= |info|
    requires forall k :: k in keys ==> exists i: nat :: HasKey(info, kv, k, i) && lo <= i < lo + n
    ensures |keys| <= n
  {
    if n == 0 {
      assert forall k :: k !in keys;
      assert keys == {};
    } else {
      var last := lo + n - 1;
      if k :| k in keys && HasKey(info, kv, k, last) {
        var rest := keys - {k};
        forall q | q in rest
          ensures exists i: nat :: HasKey(info, kv, q, i) && lo <= i < lo + (n - 1)
        {
          var i: nat :| HasKey(info, kv, q, i) && lo <= i < lo + n;
          assert i != last;
        }
        KeysInRange(info, kv, rest, lo, n - 1);
      } else {
        forall q | q in keys
          ensures exists i: nat :: HasKey(info, kv, q, i) && lo <= i < lo + (n - 1)
        {
          var i: nat :| HasKey(info, kv, q, i) && lo <= i < lo + n;
          assert i != last;
        }
        KeysInRange(info, kv, keys, lo, n - 1);
      }
    }
  }

  /** A byte counts at least one increment for every slot from the home of its key. */
  lemma DistanceBound<K, V>(hash: K -> nat, s: Shape, info: seq<nat>, kv: seq<(K, V)>, m: map<K, V>, k: K, i: nat)
    requires Represents(hash, s, info, kv, m) && HasKey(info, kv, k, i)
    ensures var h := Home(hash(k), s.mask);
            h <= i && Far(s.inc, i - h + 1) <= info[i] <= 255 && s.inc >= 2 && i <= h + 126
  {
    hide KeyInfo, P, Home, Far;
    assert Placed(hash, s, k, info[i], i);
    KeyInfoRange(hash(k), s.inc, s.shift);
    var d := i - Home(hash(k), s.mask);
    FarStep(s.inc, d);
    SmallCount(s.inc, d + 1);
  }

  lemma SmallCount(inc: nat, n: nat)
    requires inc >= 2 && Far(inc, n) <= 255
    ensures n <= 127 && (n == 127 ==> inc == 2 && Far(inc, n) == 254) && (n >= 64 ==> inc <= 3)
  {
    if n >= 64 {
      FarAtLeast(inc, n, 64);
    }
    if n >= 127 {
      FarAtLeast(inc, n, 127);
    }
    if n >= 128 {
      FarAtLeast(inc, n, 128);
    }
  }

  /** Of n keys with homes from a on, one is n - 1 or more slots behind a. */
  lemma Farthest<K, V>(hash: K -> nat, s: Shape, info: seq<nat>, kv: seq<(K, V)>, m: map<K, V>, keys: set<K>, a: nat)
      returns (k: K, i: nat)
    requires Represents(hash, s, info, kv, m) && keys <= m.Keys && keys != {}
    requires forall k :: k in keys ==> a <= Home(hash(k), s.mask)
    ensures k in keys && HasKey(info, kv, k, i) && i >= a + |keys| - 1
  {
    hide Home, Far, InOrder, ValidShape, Placed;
    var n := |keys|;
    if forall q :: q in keys ==> exists j: nat :: HasKey(info, kv, q, j) && a <= j < a + (n - 1) {
      KeysInRange(info, kv, keys, a, n - 1);
    }
    k :| k in keys && !exists j: nat :: HasKey(info, kv, k, j) && a <= j < a + (n - 1);
    i :| HasKey(info, kv, k, i);
    DistanceBound(hash, s, info, kv, m, k, i);
  }

  /** Keys with homes from a to b take an increment each out of a byte, but for the
      b - a slots they can spread over, so there are at most b - a + 127 of them.
      With that many the increment is used up and a byte has no room. */
  lemma WindowBound<K, V>(hash: K -> nat, s: Shape, info: seq<nat>, kv: seq<(K, V)>, m: map<K, V>, keys: set<K>,
                          a: nat, b: nat)
    requires Represents(hash, s, info, kv, m) && keys <= m.Keys && a <= b
    requires forall k :: k in keys ==> a <= Home(hash(k), s.mask) <= b
    ensures |keys| <= b - a + 127
    ensures |keys| > b - a ==> Far(s.inc, |keys| - (b - a)) <= 255
    ensures |keys| == b - a + 127 ==> s.inc == 2 && exists i: nat :: i < s.cap && info[i] + s.inc > 255
  {
    hide Home, Far, InOrder, ValidShape, Placed;
    if |keys| > b - a {
      var n := |keys| - (b - a);
      var k, i := Farthest(hash, s, info, kv, m, keys, a);
      DistanceBound(hash, s, info, kv, m, k, i);
      FarAtLeast(s.inc, i - Home(hash(k), s.mask) + 1, n);
      SmallCount(s.inc, n);
      assert i < s.cap && (n == 127 ==> info[i] + s.inc > 255);
    }
  }

  /** Homes do not fall along a run of used slots. */
  lemma HomesRise<K, V>(hash: K -> nat, s: Shape, info: seq<nat>, kv: seq<(K, V)>, m: map<K, V>, i: nat)
    requires Represents(hash, s, info, kv, m) && i + 1 < s.cap && info[i] != 0 && info[i + 1] != 0
    ensures Home(hash(kv[i].0), s.mask) <= Home(hash(kv[i + 1].0), s.mask)
  {
    hide KeyInfo, P, Home, Far;
    var k, k' := kv[i].0, kv[i + 1].0;
    assert Placed(hash, s, k, info[i], i) && Placed(hash, s, k', info[i + 1], i + 1);
    assert InOrder(info, s.inc, i + 1);
    KeyInfoRange(hash(k), s.inc, s.shift);
    KeyInfoRange(hash(k'), s.inc, s.shift);
    var h, h' := Home(hash(k), s.mask), Home(hash(k'), s.mask);
    if h' < h {
      FarAtLeast(s.inc, i + 1 - h', i - h + 2);
      FarStep(s.inc, i - h + 1);
      FarStep(s.inc, i - h);
    }
  }

  /** A key in the first slot of a run is at home. */
  lemma RunStartsAtHome<K, V>(hash: K -> nat, s: Shape, info: seq<nat>, kv: seq<(K, V)>, m: map<K, V>, i: nat)
    requires Represents(hash, s, info, kv, m) && i < s.cap && info[i] != 0 && (i == 0 || info[i - 1] == 0)
    ensures Home(hash(kv[i].0), s.mask) == i
  {
    hide KeyInfo, P, Home, Far;
    var k := kv[i].0;
    assert Placed(hash, s, k, info[i], i);
    assert InOrder(info, s.inc, i);
    KeyInfoRange(hash(k), s.inc, s.shift);
    var h := Home(hash(k), s.mask);
    if h < i {
      FarAtLeast(s.inc, i - h, 1);
      FarStep(s.inc, 0);
      FarNone(s.inc);
    }
  }

  /** The run that a used slot j is in starts at a slot a, and the homes of its keys
      up to j are between a and the home of j's key. */
  lemma {:induction false} RunTo<K, V>(hash: K -> nat, s: Shape, info: seq<nat>, kv: seq<(K, V)>, m: map<K, V>, j: nat)
      returns (a: nat)
    requires Represents(hash, s, info, kv, m) && j < s.cap && info[j] != 0
    ensures a <= j && forall i :: a <= i <= j ==>
              info[i] != 0 && a <= Home(hash(kv[i].0), s.mask) <= Home(hash(kv[j].0), s.mask)
  {
    hide Represents, Home;
    assert |info| >= |kv| == s.cap by { Sizes(hash, s, info, kv, m); }
    if j == 0 || info[j - 1] == 0 {
      RunStartsAtHome(hash, s, info, kv, m, j);
      a := j;
    } else {
      a := RunTo(hash, s, info, kv, m, j - 1);
      HomesRise(hash, s, info, kv, m, j - 1);
    }
  }

  lemma Sizes<K, V>(hash: K -> nat, s: Shape, info: seq<nat>, kv: seq<(K, V)>, m: map<K, V>)
    requires Represents(hash, s, info, kv, m)
    ensures |info| == s.cap + 8 && |kv| == s.cap
  {
  }

  /** The keys, among some, with homes from a to b in a table of n buckets. */
  ghost function InWindow<K>(hash: K -> nat, keys: set<K>, n: nat, a: nat, b: nat): set<K>
    requires n > 0
  {
    set k | k in keys && a <= Home(hash(k), n - 1) <= b
  }

  /** 127 keys more than the window has room for at distance 0. */
  ghost predicate Crams<K>(hash: K -> nat, keys: set<K>, n: nat, a: nat, b: nat)
  {
    n > 0 && a <= b && |InWindow(hash, keys, n, a, b)| >= b - a + 127
  }

  ghost predicate Crammed<K>(hash: K -> nat, keys: set<K>, n: nat)
  {
    exists a: nat, b: nat :: Crams(hash, keys, n, a, b)
  }

  /** Crammed keys use up the increment and fill a byte. */
  lemma CrammedFills<K, V>(hash: K -> nat, s: Shape, info: seq<nat>, kv: seq<(K, V)>, m: map<K, V>)
    requires Represents(hash, s, info, kv, m) && Crammed(hash, m.Keys, s.mask + 1)
    ensures s.inc == 2 && exists i: nat :: i < s.cap && info[i] + s.inc > 255
  {
    hide Represents, Home;
    Sizes(hash, s, info, kv, m);
    var a: nat, b: nat :| Crams(hash, m.Keys, s.mask + 1, a, b);
    WindowBound(hash, s, info, kv, m, InWindow(hash, m.Keys, s.mask + 1, a, b), a, b);
  }

  /** And a byte is full at the least increment only for crammed keys. */
  lemma FullIsCrammed<K, V>(hash: K -> nat, s: Shape, info: seq<nat>, kv: seq<(K, V)>, m: map<K, V>, j: nat)
    requires Represents(hash, s, info, kv, m) && s.inc == 2 && j < s.cap && info[j] + s.inc > 255
    ensures Crammed(hash, m.Keys, s.mask + 1)
  {
    hide Home, KeyInfo, Far, P, ValidShape, Placed, InOrder;
    var h := FullRun(hash, s, info, kv, m, j);
    var a := RunTo(hash, s, info, kv, m, j);
    var window := InWindow(hash, m.Keys, s.mask + 1, a, h);
    var held := map k | k in window :: m[k];
    assert held.Keys == window;
    DistinctKeys(kv, a, j + 1, held);
    assert Crams(hash, m.Keys, s.mask + 1, a, h);
  }

  /** More keys are crammed if fewer are. */
  lemma CrammedGrows<K>(hash: K -> nat, few: set<K>, keys: set<K>, n: nat)
    requires few <= keys && Crammed(hash, few, n)
    ensures Crammed(hash, keys, n)
  {
    var a: nat, b: nat :| Crams(hash, few, n, a, b);
    SubsetSize(InWindow(hash, few, n, a, b), InWindow(hash, keys, n, a, b));
    assert Crams(hash, keys, n, a, b);
  }

  /** 127 keys with one hash are crammed for every number of buckets. */
  lemma OneHashCrams<K>(hash: K -> nat, keys: set<K>, x: nat, n: nat)
    requires n > 0 && |WithHash(hash, keys, x)| >= 127
    ensures Crammed(hash, keys, n)
  {
    var h := Home(x, n - 1);
    SubsetSize(WithHash(hash, keys, x), InWindow(hash, keys, n, h, h));
    assert Crams(hash, keys, n, h, h);
  }

  // ----- what a failed rehash leaves

  ghost predicate SubMap<K, V>(a: map<K, V>, b: map<K, V>)
  {
    a.Keys <= b.Keys && forall k :: k in a ==> a[k] == b[k]
  }

  /** Exactly the pairs before some occupied slot. */
  ghost predicate Left<K, V>(info: seq<nat>, kv: seq<(K, V)>, m: map<K, V>)
    requires |kv| <= |info|
  {
    exists i: nat :: i < |kv| && info[i] != 0 && Moved(info, kv, i, m)
  }

  lemma LeftIsSub<K, V>(hash: K -> nat, s: Shape, info: seq<nat>, kv: seq<(K, V)>, m: map<K, V>, all: map<K, V>)
    requires Represents(hash, s, info, kv, all) && Left(info, kv, m)
    ensures SubMap(m, all) && |m| < |all|
  {
    hide InOrder, Placed, ValidShape, Moved, StandsForMap, SubMap;
    var n: nat :| n < |kv| && info[n] != 0 && Moved(info, kv, n, m);
    NotMoved(info, kv, n, m, all);
    MovedIsSub(info, kv, n, m, all);
  }

  lemma MovedIsSub<K, V>(info: seq<nat>, kv: seq<(K, V)>, n: nat, m: map<K, V>, all: map<K, V>)
    requires n <= |kv| <= |info| && Moved(info, kv, n, m) && StandsForMap(info, kv, all)
    ensures SubMap(m, all)
  {
    forall k | k in m
      ensures k in all && m[k] == all[k]
    {
      var i: nat :| i < n && HasKey(info, kv, k, i);
    }
  }

  /** The keys with hash x among some keys. */
  ghost function WithHash<K>(hash: K -> nat, keys: set<K>, x: nat): set<K>
  {
    set k | k in keys && hash(k) == x
  }

  lemma HashAdds<K, V>(hash: K -> nat, m: map<K, V>, key: K, value: V)
    requires key !in m
    ensures |WithHash(hash, m[key := value].Keys, hash(key))| == |WithHash(hash, m.Keys, hash(key))| + 1
  {
    assert WithHash(hash, m[key := value].Keys, hash(key)) == WithHash(hash, m.Keys, hash(key)) + {key};
  }

  /** The keys in the slots before n. */
  ghost function KeysBefore<K, V>(info: seq<nat>, kv: seq<(K, V)>, n: nat): set<K>
    requires n <= |kv| <= |info|
  {
    set i | 0 <= i < n && info[i] != 0 :: kv[i].0
  }

  /** Slot j is used, and the keys in the slots before it are crammed for n buckets. */
  ghost predicate LateIn<K, V>(hash: K -> nat, info: seq<nat>, kv: seq<(K, V)>, n: nat, j: nat)
    requires |kv| <= |info|
  {
    j < |kv| && info[j] != 0 && Crammed(hash, KeysBefore(info, kv, j), n)
  }

  /** Moving the pairs to n buckets in slot order does not get to the end. */
  ghost predicate Loses<K, V>(hash: K -> nat, info: seq<nat>, kv: seq<(K, V)>, n: nat)
    requires |kv| <= |info|
  {
    exists j: nat :: LateIn(hash, info, kv, n, j)
  }

  lemma LosesIsCrammed<K, V>(hash: K -> nat, info: seq<nat>, kv: seq<(K, V)>, m: map<K, V>, n: nat)
    requires |kv| <= |info| && StandsForMap(info, kv, m) && Loses(hash, info, kv, n)
    ensures Crammed(hash, m.Keys, n)
  {
    var j: nat :| LateIn(hash, info, kv, n, j);
    CrammedGrows(hash, KeysBefore(info, kv, j), m.Keys, n);
  }

  lemma MovedKeys<K, V>(info: seq<nat>, kv: seq<(K, V)>, n: nat, m: map<K, V>)
    requires n <= |kv| <= |info| && Moved(info, kv, n, m)
    ensures m.Keys == KeysBefore(info, kv, n)
  {
    forall k | k in m
      ensures k in KeysBefore(info, kv, n)
    {
      var i: nat :| i < n && HasKey(info, kv, k, i);
    }
  }

  lemma FarTwo(d: nat)
    ensures Far(2, d) == 2 * d
  {
  }

  // ----- rehashing

  /** m holds exactly the pairs of the slots before n. */
  ghost predicate Moved<K, V>(info: seq<nat>, kv: seq<(K, V)>, n: nat, m: map<K, V>)
    requires n <= |kv| <= |info|
  {
    && (forall i :: 0 <= i < n && info[i] != 0 ==> kv[i].0 in m && m[kv[i].0] == kv[i].1)
    && (forall k :: k in m ==> exists i: nat :: i < n && HasKey(info, kv, k, i))
  }

  lemma MovedNext<K, V>(hash: K -> nat, s: Shape, info: seq<nat>, kv: seq<(K, V)>, n: nat, m: map<K, V>, all: map<K, V>)
    requires Represents(hash, s, info, kv, all) && n < s.cap && Moved(info, kv, n, m)
    ensures info[n] == 0 ==> Moved(info, kv, n + 1, m)
    ensures info[n] != 0 ==> kv[n].0 !in m && |m| < |all| && Moved(info, kv, n + 1, m[kv[n].0 := kv[n].1])
  {
    hide InOrder, Placed, ValidShape, Moved, StandsForMap, HasKey;
    if info[n] == 0 {
      MovedSkip(info, kv, n, m);
    } else {
      NotMoved(info, kv, n, m, all);
      MovedOne(info, kv, n, m);
    }
  }

  lemma MovedSkip<K, V>(info: seq<nat>, kv: seq<(K, V)>, n: nat, m: map<K, V>)
    requires n < |kv| <= |info| && Moved(info, kv, n, m) && info[n] == 0
    ensures Moved(info, kv, n + 1, m)
  {
    forall k | k in m
      ensures exists i: nat :: i < n + 1 && HasKey(info, kv, k, i)
    {
      var i: nat :| i < n && HasKey(info, kv, k, i);
      assert i < n + 1 && HasKey(info, kv, k, i);
    }
  }

  lemma NotMoved<K, V>(info: seq<nat>, kv: seq<(K, V)>, n: nat, m: map<K, V>, all: map<K, V>)
    requires n < |kv| <= |info| && Moved(info, kv, n, m) && StandsForMap(info, kv, all) && info[n] != 0
    requires forall i, j :: 0 <= i < j < |kv| && info[i] != 0 && info[j] != 0 ==> kv[i].0 != kv[j].0
    ensures kv[n].0 !in m && |m| < |all|
  {
    var k0 := kv[n].0;
    forall k | k in m
      ensures k in all && k != k0
    {
      var i: nat :| i < n && HasKey(info, kv, k, i);
      assert info[i] != 0 && kv[i].0 == k;
    }
    assert m.Keys + {k0} <= all.Keys;
    SubsetSize(m.Keys + {k0}, all.Keys);
    assert |m.Keys + {k0}| == |m.Keys| + 1;
  }

  lemma MovedOne<K, V>(info: seq<nat>, kv: seq<(K, V)>, n: nat, m: map<K, V>)
    requires n < |kv| <= |info| && Moved(info, kv, n, m) && info[n] != 0 && kv[n].0 !in m
    ensures Moved(info, kv, n + 1, m[kv[n].0 := kv[n].1])
  {
    var m' := m[kv[n].0 := kv[n].1];
    forall k | k in m'
      ensures exists i: nat :: i < n + 1 && HasKey(info, kv, k, i)
    {
      var i: nat := n;
      if k in m {
        i :| i < n && HasKey(info, kv, k, i);
      }
      assert i < n + 1 && HasKey(info, kv, k, i);
    }
  }

  lemma {:induction false} SubsetSize<T>(a: set<T>, b: set<T>)
    requires a <= b
    ensures |a| <= |b|
  {
    if a != {} {
      var x :| x in a;
      SubsetSize(a - {x}, b - {x});
    }
  }

  /** Once every slot has been moved, the maps agree. */
  lemma MovedAll<K, V>(hash: K -> nat, s: Shape, info: seq<nat>, kv: seq<(K, V)>, m: map<K, V>, all: map<K, V>)
    requires Represents(hash, s, info, kv, all) && Moved(info, kv, s.cap, m)
    ensures m == all
  {
    hide InOrder, Placed, ValidShape, Keyed;
    forall k | k in m
      ensures k in all && all[k] == m[k]
    {
      var i: nat :| i < s.cap && HasKey(info, kv, k, i);
    }
    forall k | k in all
      ensures k in m
    {
      var i: nat :| HasKey(info, kv, k, i);
    }
  }

  /** Storing through the reference that operator[] returns. */
  lemma Update<K, V>(hash: K -> nat, s: Shape, info: seq<nat>, kv: seq<(K, V)>, p: nat, k: K, v: V, m: map<K, V>)
    requires Represents(hash, s, info, kv, m) && HasKey(info, kv, k, p)
    ensures Represents(hash, s, info, kv[p := (k, v)], m[k := v])
  {
    hide Placed, InOrder, ValidShape;
    var kv' := kv[p := (k, v)];
    var m' := m[k := v];
    forall q | q in m'
      ensures exists i: nat :: HasKey(info, kv', q, i)
    {
      assert k in m;
      var i: nat :| HasKey(info, kv, q, i);
      assert HasKey(info, kv', q, i);
    }
  }
}
