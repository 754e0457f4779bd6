/** Runs of the Robin Hood table in which keys share a hash: the 128th such key
    does not fit, erasing all the others does not help, and growing the table in
    time can lose pairs. */
module TableRuns {
  import opened Bits
  import opened SlotLaws
  import opened RobinHood

  /** The keys below n, all with value 0. */
  ghost function FirstKeys(n: nat): (m: map<nat, nat>)
    ensures |m| == n && forall k: nat :: k in m <==> k < n
    ensures forall k :: k in m ==> m[k] == 0
  {
    if n == 0 then map[] else FirstKeys(n - 1)[n - 1 := 0]
  }

  /** The first n keys are among the keys, and they all have hash x. */
  lemma Colliding(hash: nat -> nat, m: map<nat, nat>, n: nat, x: nat)
    requires FirstKeys(n).Keys <= m.Keys && forall k: nat :: k < n ==> hash(k) == x
    ensures |WithHash(hash, m.Keys, x)| >= n
  {
    assert FirstKeys(n).Keys <= WithHash(hash, m.Keys, x);
    SubsetSize(FirstKeys(n).Keys, WithHash(hash, m.Keys, x));
  }

  /** A table that is honest about its limit and has fewer than 127 pairs is not stuck. */
  lemma NotStuck(t: Table<nat, nat>)
    requires t.Valid() && t.Honest() && |t.contents| < 127
    ensures !t.Stuck()
  {
    hide MaxAllowed, WithBuffer, IsPow2, Represents;
    if t.Stuck() {
      t.CrowdedCount();
    }
  }

  /** A table with 127 pairs has 256 buckets or more. */
  lemma Wide(t: Table<nat, nat>)
    requires t.Valid() && |t.contents| >= 127
    ensures t.mask + 1 >= 256 && IsPow2(t.mask + 1) && MaxAllowed(t.mask + 1) >= 204
  {
    hide Represents, WithBuffer;
    var k: nat :| t.mask + 1 == P(k);
    assert P(7) == 128 && P(8) == 256;
    if k < 8 {
      PMono(k, 7);
    } else {
      PMono(8, k);
    }
  }

  /** Up to 127 insertions into an empty table succeed, whatever the hash. */
  method InsertKeys(t: Table<nat, nat>, n: nat)
    requires t.Valid() && t.Honest() && n <= 127 && t.contents == map[]
    modifies t, t.info, t.kv
    ensures t.Valid() && t.Honest() && t.contents == FirstKeys(n)
    ensures (t.info == old(t.info) && t.kv == old(t.kv)) || (fresh(t.info) && fresh(t.kv))
  {
    hide MaxAllowed, WithBuffer, IsPow2, Represents, P, Table.Crowded, Table.Room, SubMap, WithHash,
         Table.Overflows;
    assert FirstKeys(0) == map[];
    for i := 0 to n
      invariant t.Valid() && t.Honest() && t.contents == FirstKeys(i)
      invariant (t.info == old(t.info) && t.kv == old(t.kv)) || (fresh(t.info) && fresh(t.kv))
    {
      NotStuck(t);
      var r, p := t.DoInsert(i, 0);
      assert FirstKeys(i + 1) == FirstKeys(i)[i := 0];
    }
  }

  /** 127 keys with one hash: the increment is used up and the limit switched off. */
  method Fill(hash: nat -> nat, x: nat) returns (t: Table<nat, nat>)
    requires forall k: nat :: k < 127 ==> hash(k) == x
    ensures fresh(t) && fresh(t.info) && fresh(t.kv)
    ensures t.Valid() && t.hash == hash && t.contents == FirstKeys(127) && |WithHash(hash, t.contents.Keys, x)| == 127
    ensures t.mask != 0 && t.maxNum == 0 && t.inc == 2 && MaxAllowed(t.mask + 1) >= 204
  {
    hide MaxAllowed, WithBuffer, IsPow2, Represents, P, Table.Crowded, Table.Room, WithHash;
    t := new Table(hash);
    InsertKeys(t, 127);
    Colliding(hash, t.contents, 127, x);
    t.OneHash(x);
    Wide(t);
  }

  /** 127 keys with one hash go in; the 128th does not, and nothing is lost. */
  method CollidingRun(hash: nat -> nat, x: nat) returns (t: Table<nat, nat>, r: Outcome)
    requires forall k: nat :: k < 128 ==> hash(k) == x
    ensures fresh(t) && t.Valid() && t.contents == FirstKeys(127) && r == Overflow
  {
    hide MaxAllowed, WithBuffer, IsPow2, Represents, P, Table.Crowded, Table.Room, SubMap, WithHash,
         Table.Honest, Table.Overflows;
    t := Fill(hash, x);
    var p;
    r, p := t.DoInsert(127, 0);
  }

  /** Erasing leaves the limit and the increment as they are. */
  method EraseKeys(t: Table<nat, nat>, n: nat)
    requires t.Valid() && t.contents == FirstKeys(n)
    modifies t, t.info, t.kv
    ensures t.Valid() && t.contents == map[] && t.info == old(t.info) && t.kv == old(t.kv)
    ensures t.mask == old(t.mask) && t.maxNum == old(t.maxNum) && t.inc == old(t.inc)
  {
    hide MaxAllowed, WithBuffer, IsPow2, Represents, P, Table.Room, Table.Stuck;
    for i := n downto 0
      invariant t.Valid() && t.contents == FirstKeys(i) && t.info == old(t.info) && t.kv == old(t.kv)
      invariant t.mask == old(t.mask) && t.maxNum == old(t.maxNum) && t.inc == old(t.inc)
    {
      var erased := t.Erase(i);
      assert FirstKeys(i + 1) - {i} == FirstKeys(i);
    }
  }

  lemma EmptyStuck(t: Table<nat, nat>)
    requires t.Valid() && t.contents == map[]
    requires t.mask != 0 && t.maxNum == 0 && t.inc == 2 && MaxAllowed(t.mask + 1) > 0
    ensures t.Stuck()
  {
    hide MaxAllowed, WithBuffer, Represents;
  }

  /** Erasing all 127 keys leaves an empty table that accepts no key at all. */
  method StuckRun(hash: nat -> nat, x: nat, key: nat) returns (t: Table<nat, nat>, r: Outcome)
    requires forall k: nat :: k < 127 ==> hash(k) == x
    ensures fresh(t) && t.Valid() && t.contents == map[] && t.Stuck() && r == Overflow
  {
    hide MaxAllowed, WithBuffer, Table.Valid, Table.Honest, SubMap, WithHash, Table.Stuck, Table.Overflows;
    t := Fill(hash, x);
    EraseKeys(t, 127);
    EmptyStuck(t);
    t.OverflowNeeds();
    var p;
    r, p := t.DoInsert(key, 0);
  }

  // ----- a rehash that loses pairs

  /** Slot 200 for the key 127, slot 0 for all smaller keys. */
  function TwoHomes(k: nat): nat { if k == 127 then 6400 else 0 }

  lemma Homes(k: nat, mask: nat)
    requires mask + 1 >= 256
    ensures Home(TwoHomes(k), mask) == if k == 127 then 200 else 0
  {
    assert P(5) == 32;
    assert Shr(6400, 5) == 200 && Shr(0, 5) == 0;
  }

  /** With 126 keys at home 0 and one at home 200 every byte has room. */
  lemma Apart(s: Shape, info: seq<nat>, kv: seq<(nat, nat)>, m: map<nat, nat>, j: nat)
    requires Represents(TwoHomes, s, info, kv, m) && s.inc == 2 && s.mask + 1 >= 256
    requires |m| == 127 && 127 in m && j < s.cap
    ensures info[j] + 2 <= 255
  {
    hide KeyInfo, Far, P, Home, TwoHomes, Shr;
    if info[j] + 2 > 255 {
      var h := FullRun(TwoHomes, s, info, kv, m, j);
      assert kv[h].0 != kv[h + 1].0;
      Homes(kv[j].0, s.mask);
      assert HasKey(info, kv, kv[j].0, j);
      DistanceBound(TwoHomes, s, info, kv, m, kv[j].0, j);
      forall i | h <= i <= j
        ensures kv[i].0 in m && (kv[i].0 == 127 <==> kv[j].0 == 127)
      {
        Homes(kv[i].0, s.mask);
        assert HasKey(info, kv, kv[i].0, i);
        DistanceBound(TwoHomes, s, info, kv, m, kv[i].0, i);
      }
      if kv[j].0 != 127 {
        DistinctKeys(kv, h, j + 1, m - {127});
      }
    }
  }

  /** So the limit is not switched off. */
  lemma RoomLeft(t: Table<nat, nat>)
    requires t.Valid() && t.Honest() && t.hash == TwoHomes && t.contents == FirstKeys(126)[127 := 0]
    ensures t.num < t.maxNum
  {
    hide Represents, WithBuffer, IsPow2, MaxAllowed;
    Wide(t);
    Colliding(TwoHomes, t.contents, 126, 0);
    t.OneHash(0);
    if t.maxNum == 0 {
      var j: nat :| j < t.Cap() && j < t.info.Length && t.info[j] + t.inc > 255;
      Apart(t.TheShape(), t.info[..], t.kv[..], t.contents, j);
    }
  }

  lemma SlotOf(t: Table<nat, nat>, k: nat) returns (i: nat)
    requires t.Valid() && t.hash == TwoHomes && t.mask + 1 >= 256 && k in t.contents
    ensures |t.kv[..]| <= |t.info[..]| && HasKey(t.info[..], t.kv[..], k, i)
    ensures if k == 127 then i >= 200 else i <= 126
  {
    hide WithBuffer, IsPow2, MaxAllowed, Home, TwoHomes, Far, Placed, ValidShape, Bytes;
    i :| HasKey(t.info[..], t.kv[..], k, i);
    Homes(k, t.mask);
    DistanceBound(TwoHomes, t.TheShape(), t.info[..], t.kv[..], t.contents, k, i);
  }

  /** The pair of key 127 is in a slot after 127 keys with hash 0. */
  lemma LastIsLate(t: Table<nat, nat>, n: nat)
    requires t.Valid() && t.hash == TwoHomes && t.contents == FirstKeys(128) && n > 0
    ensures Loses(TwoHomes, t.info[..], t.kv[..], n)
  {
    hide Table.Valid, Crammed;
    Wide(t);
    var info, kv := t.info[..], t.kv[..];
    var j := SlotOf(t, 127);
    forall k: nat | k < 127
      ensures k in KeysBefore(info, kv, j)
    {
      var i := SlotOf(t, k);
    }
    SubsetSize(FirstKeys(127).Keys, WithHash(TwoHomes, KeysBefore(info, kv, j), 0));
    OneHashCrams(TwoHomes, KeysBefore(info, kv, j), 0, n);
    assert LateIn(TwoHomes, info, kv, n, j);
  }

  method AllButOne() returns (t: Table<nat, nat>)
    ensures fresh(t) && fresh(t.info) && fresh(t.kv)
    ensures t.Valid() && t.Honest() && t.hash == TwoHomes && t.contents == FirstKeys(126)[127 := 0]
  {
    hide MaxAllowed, WithBuffer, Table.Valid, Table.Honest, SubMap, WithHash, TwoHomes, Table.Stuck, Table.Overflows;
    t := new Table(TwoHomes);
    InsertKeys(t, 126);
    NotStuck(t);
    var r, p := t.DoInsert(127, 0);
  }

  /** Key 127 has its home behind the 127 others, which share one; all fit. */
  method Late() returns (t: Table<nat, nat>)
    ensures fresh(t) && fresh(t.info) && fresh(t.kv)
    ensures t.Valid() && t.hash == TwoHomes && t.contents == FirstKeys(128)
  {
    hide MaxAllowed, WithBuffer, Table.Valid, Table.Honest, SubMap, WithHash, TwoHomes, Table.Stuck, Table.Overflows;
    t := AllButOne();
    RoomLeft(t);
    t.BelowLimit();
    var r, p := t.DoInsert(126, 0);
    assert t.contents == FirstKeys(128);
  }

  /** Twice the buckets, as reserve asks for them: the pairs are moved in slot
      order, the last one finds no room, and it is lost. */
  method LossRun() returns (t: Table<nat, nat>, before: nat, ok: bool)
    ensures fresh(t) && t.Valid() && before == 128 && !ok
    ensures SubMap(t.contents, FirstKeys(128)) && |t.contents| == 127
  {
    hide MaxAllowed, WithBuffer, IsPow2, Represents, P, Table.Crowded, Table.Room, SubMap, TwoHomes, Loses, Left;
    t := Late();
    before := t.num;
    LastIsLate(t, 2 * (t.mask + 1));
    Wide(t);
    Pow2Doubles(t.mask + 1);
    MaxAllowedGrows(t.mask + 1);
    ok := t.RehashPowerOfTwo(2 * (t.mask + 1));
  }
}
