/** The cache as the emulator drives it: reads, writes and the sorted dump. */
module CacheBank {
  import opened Bits
  import opened LruStack
  import opened LiveCache

  // ----- mergeSort

  ghost predicate Sorted(s: seq<nat>, key: nat -> nat)
  {
    forall i, j :: 0 <= i < j < |s| ==> key(s[i]) <= key(s[j])
  }

  /** The first i places hold the first m of a and the first n of b, and nothing
      placed is above what is left. */
  ghost predicate Merging(s: seq<nat>, a: seq<nat>, m: nat, b: seq<nat>, n: nat, key: nat -> nat)
  {
    && m <= |a| && n <= |b| && |s| == m + n && Sorted(s, key)
    && multiset(s) == multiset(a[..m]) + multiset(b[..n])
    && (forall i :: 0 <= i < |s| && m < |a| ==> key(s[i]) <= key(a[m]))
    && (forall i :: 0 <= i < |s| && n < |b| ==> key(s[i]) <= key(b[n]))
  }

  lemma MergeLeft(s: seq<nat>, a: seq<nat>, m: nat, b: seq<nat>, n: nat, key: nat -> nat)
    requires Merging(s, a, m, b, n, key) && Sorted(a, key) && Sorted(b, key) && m < |a|
    requires n == |b| || key(a[m]) <= key(b[n])
    ensures Merging(s + [a[m]], a, m + 1, b, n, key)
  {
    assert a[..m + 1] == a[..m] + [a[m]];
  }

  lemma MergeRight(s: seq<nat>, a: seq<nat>, m: nat, b: seq<nat>, n: nat, key: nat -> nat)
    requires Merging(s, a, m, b, n, key) && Sorted(a, key) && Sorted(b, key) && n < |b|
    requires m == |a| || key(b[n]) <= key(a[m])
    ensures Merging(s + [b[n]], a, m, b, n + 1, key)
  {
    assert b[..n + 1] == b[..n] + [b[n]];
  }

  /** Merge two sorted arrays into the front of arr. */
  method Merge(arr: array<nat>, len: nat, arr1: array<nat>, arr2: array<nat>, key: nat -> nat)
    requires len <= arr.Length && arr1.Length + arr2.Length == len && arr != arr1 && arr != arr2
    requires Sorted(arr1[..], key) && Sorted(arr2[..], key)
    modifies arr
    ensures Sorted(arr[..len], key) && multiset(arr[..len]) == multiset(arr1[..]) + multiset(arr2[..])
    ensures arr[len..] == old(arr[len..])
  {
    hide Sorted, Merging;
    ghost var a, b := arr1[..], arr2[..];
    var m, n := 0, 0;
    MergeNone(a, b, key);
    for i := 0 to len
      invariant m <= arr1.Length && n <= arr2.Length && m + n == i
      invariant Merging(arr[..i], a, m, b, n, key) && arr1[..] == a && arr2[..] == b
      invariant arr[len..] == old(arr[len..])
    {
      ghost var before := arr[..i];
      if n >= arr2.Length || (m < arr1.Length && key(arr1[m]) <= key(arr2[n])) {
        MergeLeft(before, a, m, b, n, key);
        arr[i] := arr1[m];
        assert arr[..i + 1] == before + [a[m]];
        m := m + 1;
      } else {
        MergeRight(before, a, m, b, n, key);
        arr[i] := arr2[n];
        assert arr[..i + 1] == before + [b[n]];
        n := n + 1;
      }
    }
    MergeDone(arr[..len], a, b, key);
  }

  lemma MergeNone(a: seq<nat>, b: seq<nat>, key: nat -> nat)
    ensures Merging([], a, 0, b, 0, key)
  {
  }

  lemma MergeDone(s: seq<nat>, a: seq<nat>, b: seq<nat>, key: nat -> nat)
    requires Merging(s, a, |a|, b, |b|, key)
    ensures Sorted(s, key) && multiset(s) == multiset(a) + multiset(b)
  {
    assert a[..|a|] == a && b[..|b|] == b;
  }

  /** mergeSort on the first len places of arr. */
  method MergeSort(arr: array<nat>, len: nat, key: nat -> nat)
    requires len <= arr.Length
    modifies arr
    ensures Sorted(arr[..len], key) && multiset(arr[..len]) == old(multiset(arr[..len]))
    ensures arr[len..] == old(arr[len..])
    decreases len
  {
    if len < 2 {
      return;
    }
    hide Sorted;
    if len == 2 {
      SortPair(arr, key);
      return;
    }
    SortHalves(arr, len, key);
  }

  method SortPair(arr: array<nat>, key: nat -> nat)
    requires arr.Length >= 2
    modifies arr
    ensures Sorted(arr[..2], key) && multiset(arr[..2]) == old(multiset(arr[..2]))
    ensures arr[2..] == old(arr[2..])
  {
    hide Sorted;
    ghost var x, y := arr[0], arr[1];
    assert arr[..2] == [x, y];
    if key(arr[0]) > key(arr[1]) {
      arr[0], arr[1] := arr[1], arr[0];
      assert arr[..2] == [y, x];
    }
    Pair(x, y, key);
  }

  lemma Pair(x: nat, y: nat, key: nat -> nat)
    ensures if key(x) > key(y) then Sorted([y, x], key) else Sorted([x, y], key)
    ensures multiset([y, x]) == multiset([x, y])
  {
  }

  /** A new array with the n places from i on. */
  method Copy(arr: array<nat>, i: nat, n: nat) returns (a: array<nat>)
    requires i + n <= arr.Length
    ensures fresh(a) && a.Length == n && a[..] == arr[i..i + n]
  {
    a := new nat[n];
    for k := 0 to n
      invariant forall j :: 0 <= j < k ==> a[j] == arr[i + j]
    {
      a[k] := arr[i + k];
    }
  }

  method SortHalves(arr: array<nat>, len: nat, key: nat -> nat)
    requires 2 < len <= arr.Length
    modifies arr
    ensures Sorted(arr[..len], key) && multiset(arr[..len]) == old(multiset(arr[..len]))
    ensures arr[len..] == old(arr[len..])
    decreases len, 0
  {
    hide Sorted;
    var mid := len / 2;
    var arr1 := Copy(arr, 0, mid);
    var arr2 := Copy(arr, mid, len - mid);
    Halve(arr[..len], mid);
    assert arr1[..] == arr[..len][..mid] && arr2[..] == arr[..len][mid..];
    assert arr1[..mid] == arr1[..] && arr2[..len - mid] == arr2[..];
    MergeSort(arr1, mid, key);
    MergeSort(arr2, len - mid, key);
    assert arr1[..mid] == arr1[..] && arr2[..len - mid] == arr2[..];
    Merge(arr, len, arr1, arr2, key);
  }

  lemma Halve(s: seq<nat>, mid: nat)
    requires mid <= |s|
    ensures multiset(s) == multiset(s[..mid]) + multiset(s[mid..])
  {
    assert s == s[..mid] + s[mid..];
  }

  // ----- lines and tags

  /** A used line's tag is held. */
  lemma LineHeld(c: State, pos: seq<nat>, sets: nat, assoc: nat, tr: seq<nat>, ws: seq<bool>, l: nat)
    requires Ok(c, pos, sets, assoc, tr, ws) && l < |c.tags| && c.tags[l] != 0
    ensures Held(tr, sets, assoc, c.tags[l]) && c.tags[l] in tr && c.order[l] == LastIndex(tr, c.tags[l])
    ensures c.st[l] <==> Dirty(tr, ws, sets, assoc, c.tags[l])
  {
    hide Base, Ways, Padded, Recent, OfSet, Dirty, LastIndex;
    var t := c.tags[l];
    assert LineOk(c, pos, sets, assoc, tr, ws, l) && SetOk(c, pos, sets, assoc, tr, SetOf(t, sets));
    var b := Base(SetOf(t, sets), assoc);
    assert c.content[b + (pos[l] - b)] == l;
    assert Ways(c.content, c.tags, assoc, SetOf(t, sets))[pos[l] - b] == t;
  }

  /** A held tag is in a line. */
  lemma HeldLine(c: State, pos: seq<nat>, sets: nat, assoc: nat, tr: seq<nat>, ws: seq<bool>, t: nat) returns (l: nat)
    requires Ok(c, pos, sets, assoc, tr, ws) && Held(tr, sets, assoc, t)
    ensures l < |c.tags| && c.tags[l] == t
  {
    hide Base, Ways, Padded, Recent, OfSet, Dirty, LastIndex;
    var s := SetOf(t, sets);
    assert SetOk(c, pos, sets, assoc, tr, s);
    var i :| 0 <= i < assoc && Ways(c.content, c.tags, assoc, s)[i] == t;
    l := c.content[Base(s, assoc) + i];
  }

  /** What the dump lists, as tags: the held ones with a non-zero stamp, each
      once, in the order of their last accesses. */
  ghost predicate Listing(ts: seq<nat>, tr: seq<nat>, sets: nat, assoc: nat)
    requires sets > 0
  {
    && (forall k :: 0 <= k < |ts| ==>
          ts[k] != 0 && ts[k] in tr && Held(tr, sets, assoc, ts[k]) && LastIndex(tr, ts[k]) != 0)
    && (forall j, k :: 0 <= j < k < |ts| ==> LastIndex(tr, ts[j]) < LastIndex(tr, ts[k]))
    && (forall t :: t != 0 && t in tr && Held(tr, sets, assoc, t) && LastIndex(tr, t) != 0 ==> t in ts)
  }

  /** The tags of the used lines, in order. */
  function TagsIn(lines: seq<nat>, tags: seq<nat>): seq<nat>
    requires forall i :: 0 <= i < |lines| ==> lines[i] < |tags|
  {
    if lines == [] then []
    else
      var n := |lines| - 1;
      TagsIn(lines[..n], tags) + if tags[lines[n]] == 0 then [] else [tags[lines[n]]]
  }

  predicate HasTag(lines: seq<nat>, tags: seq<nat>, t: nat, i: nat)
    requires forall k :: 0 <= k < |lines| ==> lines[k] < |tags|
  {
    i < |lines| && tags[lines[i]] == t
  }

  lemma {:induction false} TagsInFacts(lines: seq<nat>, tags: seq<nat>, t: nat)
    requires forall i :: 0 <= i < |lines| ==> lines[i] < |tags|
    ensures t in TagsIn(lines, tags) <==> t != 0 && exists i: nat :: HasTag(lines, tags, t, i)
  {
    if lines != [] {
      var n := |lines| - 1;
      var init := lines[..n];
      TagsInFacts(init, tags, t);
      if i: nat :| HasTag(init, tags, t, i) {
        assert HasTag(lines, tags, t, i);
      }
      if i: nat :| HasTag(lines, tags, t, i) {
        assert i == n || HasTag(init, tags, t, i);
      }
      if tags[lines[n]] == t {
        assert HasTag(lines, tags, t, n);
      }
    }
  }

  /** Sorting by stamp puts the tags in the order of their last accesses. */
  lemma {:induction false} TagsInOrder(c: State, pos: seq<nat>, sets: nat, assoc: nat, tr: seq<nat>, ws: seq<bool>,
                                       lines: seq<nat>, key: nat -> nat, j: nat, k: nat)
    requires Ok(c, pos, sets, assoc, tr, ws) && Sorted(lines, key) && Distinct(lines)
    requires forall i :: 0 <= i < |lines| ==> lines[i] < |c.tags|
    requires forall l: nat :: l < |c.tags| ==> key(l) == c.order[l]
    requires j < k < |TagsIn(lines, c.tags)|
    ensures var ts := TagsIn(lines, c.tags); LastIndex(tr, ts[j]) < LastIndex(tr, ts[k])
  {
    hide Ok;
    var n := |lines| - 1;
    var init, last := lines[..n], lines[n];
    var before := TagsIn(init, c.tags);
    if k < |before| {
      TagsInOrder(c, pos, sets, assoc, tr, ws, init, key, j, k);
    } else {
      TagsInFacts(init, c.tags, before[j]);
      var i: nat :| HasTag(init, c.tags, before[j], i);
      StrictlyLater(c, pos, sets, assoc, tr, ws, lines[i], last);
    }
  }

  lemma StrictlyLater(c: State, pos: seq<nat>, sets: nat, assoc: nat, tr: seq<nat>, ws: seq<bool>, l: nat, m: nat)
    requires Ok(c, pos, sets, assoc, tr, ws) && l < |c.tags| && m < |c.tags| && l != m
    requires c.tags[l] != 0 && c.tags[m] != 0 && c.order[l] <= c.order[m]
    ensures LastIndex(tr, c.tags[l]) < LastIndex(tr, c.tags[m])
  {
    hide LastIndex, Base, Ways, Padded, Recent, OfSet, Dirty;
    LineHeld(c, pos, sets, assoc, tr, ws, l);
    LineHeld(c, pos, sets, assoc, tr, ws, m);
    if c.order[l] == c.order[m] {
      assert c.tags[l] == tr[LastIndex(tr, c.tags[l])] == c.tags[m];
      OneLine(c, pos, sets, assoc, tr, ws, l, m);
    }
  }

  /** The sorted lines with a stamp give the listing. */
  lemma ListingFrom(c: State, pos: seq<nat>, sets: nat, assoc: nat, tr: seq<nat>, ws: seq<bool>, lines: seq<nat>,
                    key: nat -> nat)
    requires Ok(c, pos, sets, assoc, tr, ws) && Sorted(lines, key) && Distinct(lines)
    requires forall i :: 0 <= i < |lines| ==> lines[i] < |c.tags| && c.order[lines[i]] != 0
    requires forall l: nat :: l < |c.tags| ==> key(l) == c.order[l]
    requires forall l: nat :: l < |c.tags| && c.order[l] != 0 ==> l in lines
    ensures Listing(TagsIn(lines, c.tags), tr, sets, assoc)
  {
    hide Ok, Held, LastIndex, Sorted, TagsIn;
    var ts := TagsIn(lines, c.tags);
    assert sets > 0 by { SetsPositive(c, pos, sets, assoc, tr, ws); }
    forall k | 0 <= k < |ts|
      ensures ts[k] != 0 && ts[k] in tr && Held(tr, sets, assoc, ts[k]) && LastIndex(tr, ts[k]) != 0
    {
      TagsInFacts(lines, c.tags, ts[k]);
      var i: nat :| HasTag(lines, c.tags, ts[k], i);
      LineHeld(c, pos, sets, assoc, tr, ws, lines[i]);
    }
    forall j, k | 0 <= j < k < |ts|
      ensures LastIndex(tr, ts[j]) < LastIndex(tr, ts[k])
    {
      TagsInOrder(c, pos, sets, assoc, tr, ws, lines, key, j, k);
    }
    forall t | t != 0 && t in tr && Held(tr, sets, assoc, t) && LastIndex(tr, t) != 0
      ensures t in ts
    {
      var l := HeldLine(c, pos, sets, assoc, tr, ws, t);
      LineHeld(c, pos, sets, assoc, tr, ws, l);
      TagsInFacts(lines, c.tags, t);
      var i :| 0 <= i < |lines| && lines[i] == l;
      assert HasTag(lines, c.tags, t, i);
    }
  }

  lemma SetsPositive(c: State, pos: seq<nat>, sets: nat, assoc: nat, tr: seq<nat>, ws: seq<bool>)
    requires Ok(c, pos, sets, assoc, tr, ws)
    ensures sets > 0 && |tr| == |ws|
    ensures |c.content| == |c.tags| == |c.order| == |c.st|
  {
  }

  lemma {:induction false} DistinctCount(s: seq<nat>, x: nat)
    requires Distinct(s)
    ensures multiset(s)[x] <= 1
  {
    if s != [] {
      assert s == [s[0]] + s[1..];
      DistinctCount(s[1..], x);
    }
  }

  lemma CountTwice(s: seq<nat>, i: nat, j: nat)
    requires i < j < |s| && s[i] == s[j]
    ensures multiset(s)[s[i]] >= 2
  {
    assert s == s[..j] + [s[j]] + s[j + 1..];
    assert s[..j][i] == s[i];
    assert s[i] in multiset(s[..j]);
  }

  /** A rearrangement of distinct elements is distinct, with the same elements. */
  lemma Rearranged(s: seq<nat>, s': seq<nat>)
    requires Distinct(s) && multiset(s) == multiset(s')
    ensures Distinct(s') && |s'| == |s| && forall x :: x in s <==> x in s'
  {
    forall i, j | 0 <= i < j < |s'|
      ensures s'[i] != s'[j]
    {
      if s'[i] == s'[j] {
        DistinctCount(s, s'[i]);
        CountTwice(s', i, j);
      }
    }
    assert |multiset(s)| == |s| && |multiset(s')| == |s'|;
    forall x
      ensures x in s <==> x in s'
    {
      assert x in multiset(s) <==> x in multiset(s');
    }
  }

  /** The lines with a stamp among those referred to before place i, each once. */
  ghost predicate Gathered(found: seq<nat>, stamps: seq<nat>, pos: seq<nat>, i: nat)
  {
    && |stamps| == |pos| && Distinct(found)
    && (forall k :: 0 <= k < |found| ==> found[k] < |pos| && stamps[found[k]] != 0 && pos[found[k]] < i)
    && (forall l: nat :: l < |pos| && stamps[l] != 0 && pos[l] < i ==> l in found)
  }

  lemma GatheredNone(stamps: seq<nat>, pos: seq<nat>)
    requires |stamps| == |pos|
    ensures Gathered([], stamps, pos, 0)
  {
  }

  lemma GatheredNext(found: seq<nat>, stamps: seq<nat>, lines: seq<nat>, pos: seq<nat>, i: nat)
    requires Gathered(found, stamps, pos, i) && Inverse(lines, pos) && i < |lines|
    ensures lines[i] < |stamps|
    ensures Gathered(if stamps[lines[i]] != 0 then found + [lines[i]] else found, stamps, pos, i + 1)
  {
    var line := lines[i];
    var more := if stamps[line] != 0 then found + [line] else found;
    assert pos[line] == i;
    forall l: nat | l < |pos| && stamps[l] != 0 && pos[l] < i + 1
      ensures l in more
    {
      if pos[l] < i {
        assert l in found;
      } else {
        assert l == lines[pos[l]];
      }
    }
  }

  lemma InverseRange(lines: seq<nat>, pos: seq<nat>)
    requires Inverse(lines, pos)
    ensures |lines| == |pos| && forall l :: 0 <= l < |pos| ==> pos[l] < |pos|
  {
  }

  lemma GatheredAll(found: seq<nat>, stamps: seq<nat>, pos: seq<nat>)
    requires Gathered(found, stamps, pos, |pos|) && forall l :: 0 <= l < |pos| ==> pos[l] < |pos|
    ensures Distinct(found) && forall k :: 0 <= k < |found| ==> found[k] < |stamps| && stamps[found[k]] != 0
    ensures forall l: nat :: l < |stamps| && stamps[l] != 0 ==> l in found
  {
  }

  class Cache {
    const sets: nat
    const log2Assoc: nat
    const assoc: nat
    const log2AddrLs: nat
    const lineSize: nat
    const memBase: nat
    const memEnd: nat
    const content: array<nat>
    const tags: array<nat>
    const order: array<nat>
    const st: array<bool>
    var maxOrder: nat
    var nReadHit: nat
    var nReadMiss: nat
    var nWriteHit: nat
    var nWriteMiss: nat
    ghost var trace: seq<nat>
    ghost var writes: seq<bool>
    ghost var pos: seq<nat>

    function TheState(): State
      reads content, tags, order, st
    {
      State(content[..], tags[..], order[..], st[..])
    }

    predicate Powers()
    {
      assoc == P(log2Assoc) && lineSize == P(log2AddrLs)
    }

    predicate Arrays()
    {
      && content != tags && content != order && tags != order
      && Powers() && sets > 0 && assoc >= 2 && lineSize >= 2 && memBase >= lineSize
    }

    /** The lines are what the accesses make them. */
    ghost predicate Consistent()
      reads this, content, tags, order, st
    {
      && Arrays() && maxOrder == |trace|
      && Ok(TheState(), pos, sets, assoc, trace, writes)
    }

    /** And the counters count the hits and misses of all accesses. */
    ghost predicate Valid()
      reads this, content, tags, order, st
    {
      Consistent() && Counted()
    }

    ghost predicate Counted()
      reads this
    {
      && sets > 0 && |trace| == |writes| && 0 !in trace
      && nReadHit == Hits(trace, writes, false, sets, assoc)
      && nWriteHit == Hits(trace, writes, true, sets, assoc)
      && nReadHit + nReadMiss == Count(writes, false)
      && nWriteHit + nWriteMiss == Count(writes, true)
    }

    /** Two caches with the same number of sets and the same accesses: the one with
        more ways has no fewer hits and no more misses, for reads and for writes. */
    static lemma HitsOrdered(a: Cache, b: Cache)
      requires a.Valid() && b.Valid() && a.sets == b.sets && a.assoc <= b.assoc
      requires a.trace == b.trace && a.writes == b.writes
      ensures a.nReadHit <= b.nReadHit && a.nWriteHit <= b.nWriteHit
      ensures a.nReadMiss >= b.nReadMiss && a.nWriteMiss >= b.nWriteMiss
    {
      hide Hits, Count, Ok;
      MoreWays(a.trace, a.writes, false, a.sets, a.assoc, b.assoc);
      MoreWays(a.trace, a.writes, true, a.sets, a.assoc, b.assoc);
    }

    /** A new cache: every reference at its own line, no tag set. The stamps and
        store flags of the lines are not initialised. */
    constructor (sets: nat, log2Assoc: nat, log2AddrLs: nat, memBase: nat, memSize: nat,
                 order: array<nat>, st: array<bool>)
      requires sets > 0 && log2Assoc > 0 && log2AddrLs > 0 && memBase >= P(log2AddrLs)
      requires order.Length == st.Length == Base(sets, P(log2Assoc))
      ensures Valid() && trace == [] && writes == []
      ensures this.sets == sets && assoc == P(log2Assoc) && lineSize == P(log2AddrLs) && this.log2AddrLs == log2AddrLs
      ensures this.memBase == memBase && memEnd == memBase + memSize
      ensures fresh(content) && fresh(tags) && this.order == order && this.st == st
      ensures order[..] == old(order[..]) && st[..] == old(st[..])
    {
      PStep(log2Assoc - 1);
      PStep(log2AddrLs - 1);
      var n := Base(sets, P(log2Assoc));
      this.sets, this.log2Assoc, this.log2AddrLs := sets, log2Assoc, log2AddrLs;
      assoc, lineSize := P(log2Assoc), P(log2AddrLs);
      this.memBase, memEnd := memBase, memBase + memSize;
      this.order, this.st := order, st;
      content := new nat[n](i => i);
      tags := new nat[n](_ => 0);
      maxOrder, nReadHit, nReadMiss, nWriteHit, nWriteMiss := 0, 0, 0, 0, 0;
      trace, writes := [], [];
      pos := seq(n, i => i);
      new;
      NewIsOk(TheState(), pos, sets, assoc);
    }

    static lemma NewIsOk(c: State, pos: seq<nat>, sets: nat, assoc: nat)
      requires sets > 0 && assoc > 0 && |c.content| == Base(sets, assoc) == |pos|
      requires |c.tags| == |c.content| && |c.order| == |c.content| && |c.st| == |c.content|
      requires forall i :: 0 <= i < |pos| ==> c.content[i] == i && pos[i] == i && c.tags[i] == 0
      ensures Ok(c, pos, sets, assoc, [], [])
    {
      hide Base;
      forall s: nat
        ensures SetOk(c, pos, sets, assoc, [], s)
      {
        if s < sets {
          BaseIn(s, sets, assoc);
        }
      }
    }

    /** The tag of an address. */
    function CalcTag(addr: nat): nat { Shr(addr, log2AddrLs) }

    /** calcIndex4Tag without the xor: where the set of a tag starts. */
    function CalcIndex(tag: nat): nat
      requires sets > 0
    {
      Shl(And(tag, sets - 1), log2Assoc)
    }

    lemma IndexIs(tag: nat)
      requires sets > 0 && Powers()
      ensures CalcIndex(tag) == Base(SetOf(tag, sets), assoc)
    {
    }

    /** The ways of the set a tag maps to. */
    ghost function WaysFor(tag: nat): (w: seq<nat>)
      requires Consistent()
      reads this, content, tags, order, st
    {
      assert SetOk(TheState(), pos, sets, assoc, trace, SetOf(tag, sets));
      Ways(content[..], tags[..], assoc, SetOf(tag, sets))
    }

    lemma SetInRange(tag: nat)
      requires Consistent()
      ensures sets > 0
      ensures Base(SetOf(tag, sets), assoc) + assoc <= content.Length == tags.Length == order.Length == st.Length
      ensures forall i :: 0 <= i < content.Length ==> content[i] < tags.Length
      ensures WaysFor(tag) == Padded(Recent(OfSet(trace, sets, SetOf(tag, sets))), assoc)
    {
      hide Base, Ways, Padded, Recent, OfSet, LineOk, Powers;
      assert SetOk(TheState(), pos, sets, assoc, trace, SetOf(tag, sets));
    }

    /** Move the line reference at b + p to b, one place at a time. */
    static method MoveToFront(content: array<nat>, b: nat, p: nat)
      requires b + p < content.Length
      modifies content
      ensures Rotated(old(content[..]), b, p, content[..])
    {
      var tmp := content[b + p];
      var l := b + p;
      while l > b
        invariant b <= l <= b + p
        invariant forall i :: l < i <= b + p ==> content[i] == old(content[i - 1])
        invariant forall i :: 0 <= i < content.Length && (i <= l || i > b + p) ==> content[i] == old(content[i])
      {
        content[l] := content[l - 1];
        l := l - 1;
      }
      content[b] := tmp;
    }

    /** findLinePrivate: the line of the tag, moved to the front of its set. */
    method FindLine(addr: nat) returns (hit: bool, line: nat, ghost p: nat)
      requires Consistent()
      modifies content
      ensures hit <==> CalcTag(addr) in old(WaysFor(CalcTag(addr)))
      ensures hit ==> IsVictim(old(WaysFor(CalcTag(addr))), CalcTag(addr), p) && p < assoc
      ensures hit ==> var b := Base(SetOf(CalcTag(addr), sets), assoc);
                      && b + p < content.Length && line == old(content[b + p])
                      && Rotated(old(content[..]), b, p, content[..])
      ensures !hit ==> content[..] == old(content[..])
    {
      hide Base, Ways, Padded, Recent, OfSet, Position, Ok, Rotated, Powers;
      var tag := CalcTag(addr);
      SetInRange(tag);
      ghost var w := WaysFor(tag);
      WaysAre(tag);
      var theSet := CalcIndex(tag);
      IndexIs(tag);
      if tags[content[theSet]] == tag {
        assert w[0] == tag;
        FirstWay(w, tag, 0);
        NotMoved(content[..], theSet);
        return true, content[theSet], 0;
      }
      var l := 1;
      while l < assoc
        invariant 1 <= l <= assoc && forall i :: 0 <= i < l ==> w[i] != tag
      {
        if tags[content[theSet + l]] == tag {
          break;
        }
        l := l + 1;
      }
      if l == assoc {
        return false, 0, 0;
      }
      assert w[l] == tag;
      FirstWay(w, tag, l);
      line, p := content[theSet + l], l;
      MoveToFront(content, theSet, l);
      hit := true;
    }

    lemma WaysAre(tag: nat)
      requires Consistent()
      ensures sets > 0 && Base(SetOf(tag, sets), assoc) + assoc <= content.Length && |WaysFor(tag)| == assoc
      ensures forall i :: 0 <= i < content.Length ==> content[i] < tags.Length
      ensures forall i :: 0 <= i < assoc ==> WaysFor(tag)[i] == tags[content[Base(SetOf(tag, sets), assoc) + i]]
    {
      hide Base, Ways, Padded, Recent, OfSet, Ok, Powers;
      SetInRange(tag);
    }

    static lemma FirstWay(w: seq<nat>, tag: nat, p: nat)
      requires p < |w| && w[p] == tag && forall i :: 0 <= i < p ==> w[i] != tag
      ensures tag in w && IsVictim(w, tag, p)
    {
    }

    static lemma NotMoved(c: seq<nat>, b: nat)
      requires b < |c|
      ensures Rotated(c, b, 0, c)
    {
    }

    /** findLine2Replace with the LRU policy: the line of the tag, else the last
        one of the set, moved to the front. */
    method FindLine2Replace(addr: nat) returns (line: nat, ghost p: nat)
      requires Consistent() && CalcTag(addr) != 0
      modifies content
      ensures IsVictim(old(WaysFor(CalcTag(addr))), CalcTag(addr), p) && p < assoc
      ensures var b := Base(SetOf(CalcTag(addr), sets), assoc);
              b + p < content.Length && line == old(content[b + p]) && Rotated(old(content[..]), b, p, content[..])
    {
      hide Base, Ways, Padded, Recent, OfSet, Position, Ok, Rotated, Powers;
      var tag := CalcTag(addr);
      ghost var w := WaysFor(tag);
      WaysAre(tag);
      var theSet := CalcIndex(tag);
      IndexIs(tag);
      if tags[content[theSet]] == tag {
        assert w[0] == tag;
        FirstWay(w, tag, 0);
        NotMoved(content[..], theSet);
        return content[theSet], 0;
      }
      var l := assoc;
      while l > 0
        invariant 0 <= l <= assoc && forall i :: l <= i < assoc ==> w[i] != tag
      {
        if tags[content[theSet + (l - 1)]] == tag {
          break;
        }
        l := l - 1;
      }
      var at := if l > 0 then l - 1 else assoc - 1;
      if l > 0 {
        assert w[l - 1] == tag;
        OnlyWay(tag, l - 1);
        FirstWay(w, tag, l - 1);
      }
      line, p := content[theSet + at], at;
      MoveToFront(content, theSet, at);
    }

    /** A tag is in one way of its set. */
    lemma OnlyWay(tag: nat, p: nat)
      requires Consistent() && p < assoc && |WaysFor(tag)| == assoc && WaysFor(tag)[p] == tag != 0
      ensures forall i :: 0 <= i < p ==> WaysFor(tag)[i] != tag
    {
      hide Base, Ways, Recent, OfSet, Ok, Powers;
      SetInRange(tag);
      RecentFacts(OfSet(trace, sets, SetOf(tag, sets)));
    }

    /** The address is in the tracked range. */
    predicate Tracked(addr: nat) { memBase <= addr <= memEnd }

    /** After the references are rotated: set tag, flag and stamp, and record the access. */
    method Stamp(tag: nat, line: nat, flag: bool, ghost wr: bool, ghost p: nat, ghost c: State)
      requires Arrays() && sets > 0 && maxOrder == |trace| && Ok(c, pos, sets, assoc, trace, writes) && tag != 0
      requires p < assoc
      requires var b := Base(SetOf(tag, sets), assoc);
               && b + assoc <= |c.content| && line == c.content[b + p] && Rotated(c.content, b, p, content[..])
      requires tags[..] == c.tags && order[..] == c.order && st[..] == c.st
      requires IsVictim(Ways(c.content, c.tags, assoc, SetOf(tag, sets)), tag, p)
      requires flag <==> wr || (tag in Ways(c.content, c.tags, assoc, SetOf(tag, sets)) && c.st[line])
      modifies tags, order, st, `maxOrder, `trace, `writes, `pos
      ensures Consistent() && trace == old(trace) + [tag] && writes == old(writes) + [wr]
    {
      hide Base, Ways, Padded, Recent, OfSet, Ok, Rotated, IsVictim, Powers;
      SizesOf(c, pos, sets, assoc, trace, writes, line, Base(SetOf(tag, sets), assoc) + p);
      tags[line] := tag;
      st[line] := flag;
      order[line] := maxOrder;
      assert TheState() == State(content[..], c.tags[line := tag], c.order[line := maxOrder], c.st[line := flag]);
      AccessKeeps(c, pos, sets, assoc, trace, writes, p, tag, flag, TheState(), wr);
      maxOrder := maxOrder + 1;
      pos := MovedPos(pos, Base(SetOf(tag, sets), assoc), p);
      trace, writes := trace + [tag], writes + [wr];
    }

    static lemma SizesOf(c: State, pos: seq<nat>, sets: nat, assoc: nat, tr: seq<nat>, ws: seq<bool>, line: nat, i: nat)
      requires Ok(c, pos, sets, assoc, tr, ws) && i < |c.content| && line == c.content[i]
      ensures line < |c.tags| == |c.order| == |c.st|
    {
    }

    /** Bring in or refresh the line of an address, for a read or a write. */
    method Access(addr: nat, wr: bool) returns (hit: bool)
      requires Consistent() && CalcTag(addr) != 0
      modifies content, tags, order, st, `maxOrder, `trace, `writes, `pos
      ensures Consistent() && trace == old(trace) + [CalcTag(addr)] && writes == old(writes) + [wr]
      ensures hit <==> old(Held(trace, sets, assoc, CalcTag(addr)))
    {
      hide Base, Ways, Padded, Recent, OfSet, Ok, Rotated, IsVictim, Powers;
      var tag := CalcTag(addr);
      ghost var c := TheState();
      SetInRange(tag);
      var line;
      ghost var p;
      hit, line, p := FindLine(addr);
      if hit {
        Stamp(tag, line, if wr then true else st[line], wr, p, c);
        return;
      }
      assert TheState() == c;
      line, p := FindLine2Replace(addr);
      Stamp(tag, line, wr, wr, p, c);
    }

    /** LiveCache::read */
    method Read(addr: nat)
      requires Valid()
      modifies content, tags, order, st, `maxOrder, `trace, `writes, `pos, `nReadHit, `nReadMiss
      ensures Valid()
      ensures !Tracked(addr) ==>
                trace == old(trace) && writes == old(writes) && nReadHit == old(nReadHit) && nReadMiss == old(nReadMiss)
      ensures Tracked(addr) ==> trace == old(trace) + [CalcTag(addr)] && writes == old(writes) + [false]
      ensures Tracked(addr) ==>
                if old(Held(trace, sets, assoc, CalcTag(addr)))
                then nReadHit == old(nReadHit) + 1 && nReadMiss == old(nReadMiss)
                else nReadHit == old(nReadHit) && nReadMiss == old(nReadMiss) + 1
    {
      hide Ok, Held, Hits, Count, CalcTag, Powers;
      if addr < memBase || addr > memEnd {
        return;
      }
      TagNotZero(addr);
      CountsStep(CalcTag(addr), false);
      var hit := Access(addr, false);
      if hit {
        nReadHit := nReadHit + 1;
      } else {
        nReadMiss := nReadMiss + 1;
      }
    }

    /** What one more access adds to the counts. */
    lemma CountsStep(tag: nat, w: bool)
      requires sets > 0 && |trace| == |writes|
      ensures forall wr :: Hits(trace + [tag], writes + [w], wr, sets, assoc) ==
                Hits(trace, writes, wr, sets, assoc) + if w == wr && Held(trace, sets, assoc, tag) then 1 else 0
      ensures forall wr :: Count(writes + [w], wr) == Count(writes, wr) + if w == wr then 1 else 0
    {
      hide Hits, Count, Held;
      forall wr
        ensures Hits(trace + [tag], writes + [w], wr, sets, assoc) ==
                Hits(trace, writes, wr, sets, assoc) + if w == wr && Held(trace, sets, assoc, tag) then 1 else 0
        ensures Count(writes + [w], wr) == Count(writes, wr) + if w == wr then 1 else 0
      {
        HitsStep(trace, writes, tag, w, wr, sets, assoc);
        CountStep(writes, w, wr);
      }
    }

    lemma TagNotZero(addr: nat)
      requires Arrays() && memBase <= addr
      ensures CalcTag(addr) != 0
    {
      hide P, Shr, Shl;
      ShlP(0, log2AddrLs);
      PZero();
      ShrLt(addr, log2AddrLs, 1);
    }

    /** LiveCache::write */
    method Write(addr: nat)
      requires Valid()
      modifies content, tags, order, st, `maxOrder, `trace, `writes, `pos, `nWriteHit, `nWriteMiss
      ensures Valid()
      ensures !Tracked(addr) ==>
                && trace == old(trace) && writes == old(writes)
                && nWriteHit == old(nWriteHit) && nWriteMiss == old(nWriteMiss)
      ensures Tracked(addr) ==> trace == old(trace) + [CalcTag(addr)] && writes == old(writes) + [true]
      ensures Tracked(addr) ==>
                if old(Held(trace, sets, assoc, CalcTag(addr)))
                then nWriteHit == old(nWriteHit) + 1 && nWriteMiss == old(nWriteMiss)
                else nWriteHit == old(nWriteHit) && nWriteMiss == old(nWriteMiss) + 1
    {
      hide Ok, Held, Hits, Count, CalcTag, Powers;
      if addr < memBase || addr > memEnd {
        return;
      }
      TagNotZero(addr);
      CountsStep(CalcTag(addr), true);
      var hit := Access(addr, true);
      if hit {
        nWriteHit := nWriteHit + 1;
      } else {
        nWriteMiss := nWriteMiss + 1;
      }
    }

    // ----- the dump

    lemma Permuted()
      requires Consistent()
      ensures Inverse(content[..], pos) && content.Length == order.Length
    {
      hide SetOk, LineOk, Powers, Inverse;
    }

    /** The lines with a non-zero stamp, in no particular order. */
    method Collect() returns (arr: array<nat>, cnt: nat)
      requires Consistent()
      ensures fresh(arr) && cnt <= arr.Length
      ensures forall i :: 0 <= i < cnt ==> arr[i] < order.Length && order[arr[i]] != 0
      ensures forall i, j :: 0 <= i < j < cnt ==> arr[i] != arr[j]
      ensures forall l: nat :: l < order.Length && order[l] != 0 ==> l in arr[..cnt]
    {
      hide Ok, Powers, Gathered, Inverse;
      Permuted();
      ghost var stamps, lines := order[..], content[..];
      var n := content.Length;
      arr := new nat[n];
      cnt := 0;
      ghost var found: seq<nat> := [];
      InverseRange(lines, pos);
      GatheredNone(stamps, pos);
      for i := 0 to n
        invariant cnt <= i && arr[..cnt] == found && Gathered(found, stamps, pos, i)
      {
        GatheredNext(found, stamps, lines, pos, i);
        if order[content[i]] != 0 {
          arr[cnt] := content[i];
          found := found + [content[i]];
          assert arr[..cnt + 1] == found;
          cnt := cnt + 1;
        }
      }
      GatheredAll(found, stamps, pos);
      assert forall i :: 0 <= i < cnt ==> arr[i] == found[i];
    }

    /** The address of a tag, with bit 0 set for a written line. */
    function DumpEntry(tag: nat, written: bool): nat { Shl(tag, log2AddrLs) + if written then 1 else 0 }

    /** The tags of a list of addresses. */
    function TagList(addrs: seq<nat>): (ts: seq<nat>)
      ensures |ts| == |addrs| && forall k :: 0 <= k < |ts| ==> ts[k] == CalcTag(addrs[k])
    {
      seq(|addrs|, k requires 0 <= k < |addrs| => CalcTag(addrs[k]))
    }

    /** The lines with a stamp, sorted by it. */
    method SortedByStamp() returns (arr: array<nat>, cnt: nat)
      requires Consistent()
      ensures fresh(arr) && cnt <= arr.Length && forall i :: 0 <= i < cnt ==> arr[i] < tags.Length
      ensures Listing(TagsIn(arr[..cnt], tags[..]), trace, sets, assoc)
    {
      hide Ok, Sorted, Dirty, TagsIn, Listing, Powers;
      ghost var c := TheState();
      SetsPositive(c, pos, sets, assoc, trace, writes);
      arr, cnt := Collect();
      ghost var found := arr[..cnt];
      var stamps := order[..];
      var key := (l: nat) => if l < |stamps| then stamps[l] else 0;
      MergeSort(arr, cnt, key);
      ghost var lines := arr[..cnt];
      Rearranged(found, lines);
      SortedLines(found, lines, stamps);
      ListingFrom(c, pos, sets, assoc, trace, writes, lines, key);
    }

    /** LiveCache::traverse */
    method Traverse() returns (addrs: seq<nat>)
      requires Valid()
      ensures Listing(TagList(addrs), trace, sets, assoc)
      ensures forall k :: 0 <= k < |addrs| ==>
                var t := CalcTag(addrs[k]);
                addrs[k] == DumpEntry(t, Dirty(trace, writes, sets, assoc, t))
    {
      hide Ok, Dirty, TagsIn, Listing, DumpEntry, CalcTag, Counted, Powers;
      var arr, cnt := SortedByStamp();
      ghost var lines := arr[..cnt];
      ghost var c := TheState();
      SetsPositive(c, pos, sets, assoc, trace, writes);
      addrs := [];
      ghost var ts := [];
      TagsNone(c.tags);
      for i := 0 to cnt
        invariant arr[..cnt] == lines && ts == TagsIn(lines[..i], c.tags) && |addrs| == |ts|
        invariant forall k :: 0 <= k < |ts| ==>
                    CalcTag(addrs[k]) == ts[k] && addrs[k] == DumpEntry(ts[k], Dirty(trace, writes, sets, assoc, ts[k]))
      {
        assert arr[i] == lines[i];
        TagsNext(lines, i, c.tags);
        if tags[arr[i]] != 0 {
          LineHeld(c, pos, sets, assoc, trace, writes, lines[i]);
          TagOfEntry(tags[arr[i]], st[arr[i]]);
          addrs := addrs + [DumpEntry(tags[arr[i]], st[arr[i]])];
          ts := ts + [tags[arr[i]]];
        }
      }
      assert lines[..cnt] == lines;
      assert TagList(addrs) == ts;
    }

    lemma TagOfEntry(tag: nat, written: bool)
      requires Powers() && lineSize >= 2
      ensures CalcTag(DumpEntry(tag, written)) == tag
    {
      hide P, Shr, Shl;
      SplitUnique(DumpEntry(tag, written), log2AddrLs, tag, if written then 1 else 0);
    }

    static lemma TagsNone(tags: seq<nat>)
      ensures TagsIn([], tags) == []
    {
    }

    static lemma TagsNext(lines: seq<nat>, i: nat, tags: seq<nat>)
      requires i < |lines| && forall k :: 0 <= k < |lines| ==> lines[k] < |tags|
      ensures TagsIn(lines[..i + 1], tags) ==
                TagsIn(lines[..i], tags) + if tags[lines[i]] == 0 then [] else [tags[lines[i]]]
    {
      assert lines[..i + 1][..i] == lines[..i] && lines[..i + 1][i] == lines[i];
    }

    static lemma SortedLines(found: seq<nat>, lines: seq<nat>, stamps: seq<nat>)
      requires forall x :: x in found <==> x in lines
      requires forall i :: 0 <= i < |found| ==> found[i] < |stamps| && stamps[found[i]] != 0
      requires forall l: nat :: l < |stamps| && stamps[l] != 0 ==> l in found
      ensures forall i :: 0 <= i < |lines| ==> lines[i] < |stamps| && stamps[lines[i]] != 0
      ensures forall l: nat :: l < |stamps| && stamps[l] != 0 ==> l in lines
    {
      forall i | 0 <= i < |lines|
        ensures lines[i] < |stamps| && stamps[lines[i]] != 0
      {
        assert lines[i] in found;
      }
    }
  }

  /** The first access has stamp 0, so after one read the dump is empty although
      its line is held. */
  method FirstAccess(sets: nat, memBase: nat, memSize: nat, addr: nat, order: array<nat>, st: array<bool>)
      returns (c: Cache, addrs: seq<nat>)
    requires sets > 0 && 64 <= memBase <= addr <= memBase + memSize
    requires order.Length == st.Length == Base(sets, 16)
    modifies order, st
    ensures c.Valid() && c.sets == sets && c.assoc == 16
    ensures c.trace == [addr / 64] && Held(c.trace, sets, 16, addr / 64) && addrs == []
  {
    hide Ok, Listing;
    assert P(4) == 16 && P(6) == 64;
    c := new Cache(sets, 4, 6, memBase, memSize, order, st);
    c.Read(addr);
    addrs := c.Traverse();
    assert [addr / 64] == [] + [addr / 64];
    JustHeld([], addr / 64, sets, 16);
    if addrs != [] {
      FirstNotListed(sets, addr / 64, c.TagList(addrs));
    }
  }

  lemma FirstNotListed(sets: nat, t: nat, ts: seq<nat>)
    requires sets > 0 && ts != []
    ensures !Listing(ts, [t], sets, 16)
  {
    if ts[0] in [t] {
      assert LastIndex([t], ts[0]) == 0;
    }
  }

  /** A tag is held right after its access. */
  lemma JustHeld(tr: seq<nat>, t: nat, sets: nat, assoc: nat)
    requires sets > 0 && assoc > 0
    ensures Held(tr + [t], sets, assoc, t)
  {
    hide Recent, OfSet, Padded;
    OfSetStep(tr, t, sets, SetOf(t, sets));
    RecentStep(OfSet(tr, sets, SetOf(t, sets)), t);
    assert Padded(Recent(OfSet(tr + [t], sets, SetOf(t, sets))), assoc)[0] == t;
  }

  /** A read, then a read or write of another line: the dump is the address of the
      second line, with bit 0 for a write. */
  method SecondAccess(sets: nat, memBase: nat, memSize: nat, a: nat, b: nat, write: bool, order: array<nat>,
                      st: array<bool>) returns (c: Cache, addrs: seq<nat>)
    requires sets > 0 && 64 <= memBase && memBase <= a <= memBase + memSize && memBase <= b <= memBase + memSize
    requires a / 64 != b / 64 && order.Length == st.Length == Base(sets, 16)
    modifies order, st
    ensures c.Valid() && c.trace == [a / 64, b / 64]
    ensures addrs == [b / 64 * 64 + if write then 1 else 0]
  {
    hide Ok, Listing, Held, Dirty, Hits, Count;
    assert P(4) == 16 && P(6) == 64;
    c := new Cache(sets, 4, 6, memBase, memSize, order, st);
    c.Read(a);
    if write {
      c.Write(b);
    } else {
      c.Read(b);
    }
    assert c.trace == [a / 64, b / 64] && c.writes == [false, write];
    addrs := c.Traverse();
    OnlySecond(sets, a / 64, b / 64, c.TagList(addrs));
    SecondDirty(sets, a / 64, b / 64, write);
    assert c.CalcTag(addrs[0]) == c.TagList(addrs)[0];
  }

  lemma OnlySecond(sets: nat, t: nat, u: nat, ts: seq<nat>)
    requires sets > 0 && t != u && u != 0 && Listing(ts, [t, u], sets, 16)
    ensures ts == [u]
  {
    hide Held;
    var tr := [t, u];
    assert tr == [t] + [u];
    JustHeld([t], u, sets, 16);
    LastStep([t], u, t);
    LastStep([t], u, u);
    assert LastIndex([t], t) == 0;
    assert u in ts && (|ts| > 1 ==> LastIndex(tr, ts[0]) < LastIndex(tr, ts[1]));
    forall k | 0 <= k < |ts|
      ensures ts[k] == u
    {
      assert ts[k] in tr;
    }
  }

  lemma SecondDirty(sets: nat, t: nat, u: nat, write: bool)
    requires sets > 0 && t != u
    ensures Dirty([t, u], [false, write], sets, 16, u) <==> write
  {
    hide Held;
    assert [t, u] == [t] + [u] && [false, write] == [false] + [write];
    DirtyStep([t], [false], u, write, sets, 16, u);
    DirtyStep([], [], t, false, sets, 16, u);
    assert [t] == [] + [t] && [false] == [] + [false];
  }
}
