/** The recency stack: what a set of a least-recently-used cache holds after any
    sequence of accesses. Tags are non-zero; zero marks an unused way. */
module LruStack {
  import Bits

  ghost predicate Distinct(s: seq<nat>)
  {
    forall i, j :: 0 <= i < j < |s| ==> s[i] != s[j]
  }

  /** The sequence without the first occurrence of t. */
  function Remove(s: seq<nat>, t: nat): seq<nat>
  {
    if s == [] then [] else if s[0] == t then s[1..] else [s[0]] + Remove(s[1..], t)
  }

  /** The distinct tags of a trace, the most recent one first. */
  function Recent(tr: seq<nat>): seq<nat>
  {
    if tr == [] then [] else [tr[|tr| - 1]] + Remove(Recent(tr[..|tr| - 1]), tr[|tr| - 1])
  }

  /** The set of a tag, of n: the tag masked with n - 1. When n is no power of two
      some sets are never used. */
  function SetOf(t: nat, n: nat): (s: nat)
    requires n > 0
    ensures s < n
  {
    Bits.And(t, n - 1)
  }

  lemma SetOfPower(t: nat, k: nat)
    ensures SetOf(t, Bits.P(k)) == t % Bits.P(k)
  {
    Bits.AndMask(t, k);
  }

  /** The accesses that go to set s of n. */
  function OfSet(tr: seq<nat>, n: nat, s: nat): seq<nat>
    requires n > 0
  {
    if tr == [] then []
    else OfSet(tr[..|tr| - 1], n, s) + if SetOf(tr[|tr| - 1], n) == s then [tr[|tr| - 1]] else []
  }

  /** The first k of r, filled up with zeros. */
  function Padded(r: seq<nat>, k: nat): (p: seq<nat>)
    ensures |p| == k
    ensures forall i :: 0 <= i < k ==> p[i] == if i < |r| then r[i] else 0
  {
    seq(k, i requires 0 <= i => if i < |r| then r[i] else 0)
  }

  /** One access, as the ways of a set change: a hit moves to the front, a miss
      pushes everything back and drops the last way. */
  function Touch(ways: seq<nat>, t: nat): seq<nat>
    requires |ways| > 0
  {
    if t in ways then [t] + Remove(ways, t) else [t] + ways[..|ways| - 1]
  }

  /** Where the first occurrence is. */
  function Position(s: seq<nat>, t: nat): (p: nat)
    ensures p <= |s|
    ensures p < |s| ==> s[p] == t
    ensures forall i :: 0 <= i < p ==> s[i] != t
  {
    if s == [] || s[0] == t then 0 else 1 + Position(s[1..], t)
  }

  lemma {:induction false} RemoveAt(s: seq<nat>, t: nat)
    ensures var p := Position(s, t);
            Remove(s, t) == if p < |s| then s[..p] + s[p + 1..] else s
  {
    if s != [] && s[0] != t {
      RemoveAt(s[1..], t);
    }
  }

  lemma {:induction false} RecentFacts(tr: seq<nat>)
    ensures Distinct(Recent(tr))
    ensures forall t :: t in Recent(tr) <==> t in tr
  {
    if tr != [] {
      var n := |tr| - 1;
      var t, r := tr[n], Recent(tr[..n]);
      RecentFacts(tr[..n]);
      RemoveFacts(r, t);
      assert tr == tr[..n] + [t];
    }
  }

  lemma RemoveFacts(s: seq<nat>, t: nat)
    requires Distinct(s)
    ensures Distinct(Remove(s, t)) && t !in Remove(s, t)
    ensures forall u :: u != t ==> (u in Remove(s, t) <==> u in s)
  {
    hide Remove, Position;
    RemoveAt(s, t);
    var p := Position(s, t);
    var r := Remove(s, t);
    assert p < |s| ==> forall i :: 0 <= i < |r| ==> r[i] == if i < p then s[i] else s[i + 1];
    forall u | u != t && u in s
      ensures u in r
    {
      var i :| 0 <= i < |s| && s[i] == u;
      assert p < |s| ==> r[if i < p then i else i - 1] == u;
    }
  }

  lemma Pushed(s: seq<nat>, t: nat, i: nat)
    requires Position(s, t) < |s| && i < |s|
    ensures |Remove(s, t)| == |s| - 1
    ensures ([t] + Remove(s, t))[i] == if i == 0 then t else if i <= Position(s, t) then s[i - 1] else s[i]
  {
    hide Remove, Position;
    RemoveAt(s, t);
  }

  lemma HitIsRecent(r: seq<nat>, t: nat, k: nat)
    requires t != 0 && Position(r, t) < |r| && Position(r, t) < k
    ensures Touch(Padded(r, k), t) == Padded([t] + Remove(r, t), k)
  {
    hide Remove, Position, Padded;
    var w := Padded(r, k);
    SamePosition(r, t, k);
    assert t in w;
    Pushed(w, t, 0);
    Pushed(r, t, 0);
    var w', r' := [t] + Remove(w, t), [t] + Remove(r, t);
    forall i | 0 <= i < k
      ensures w'[i] == Padded(r', k)[i]
    {
      Pushed(w, t, i);
      if i < |r| {
        Pushed(r, t, i);
      }
    }
  }

  lemma MissIsRecent(r: seq<nat>, t: nat, k: nat)
    requires k > 0 && t != 0 && (Position(r, t) == |r| || Position(r, t) >= k)
    ensures Touch(Padded(r, k), t) == Padded([t] + Remove(r, t), k)
  {
    hide Remove, Position, Padded;
    var w := Padded(r, k);
    SamePosition(r, t, k);
    assert t !in w;
    RemoveAt(r, t);
    var w', r' := [t] + w[..k - 1], [t] + Remove(r, t);
    forall i | 0 <= i < k
      ensures w'[i] == Padded(r', k)[i]
    {
      if Position(r, t) < |r| && i < |r| {
        Pushed(r, t, i);
      }
    }
  }

  /** The ways of a set are the first of the recency stack, and stay so. */
  lemma TouchIsRecent(r: seq<nat>, t: nat, k: nat)
    requires k > 0 && t != 0
    ensures Touch(Padded(r, k), t) == Padded([t] + Remove(r, t), k)
  {
    hide Remove, Position, Padded, Touch;
    if Position(r, t) < |r| && Position(r, t) < k {
      HitIsRecent(r, t, k);
    } else {
      MissIsRecent(r, t, k);
    }
  }

  lemma SamePosition(r: seq<nat>, t: nat, k: nat)
    requires t != 0
    ensures var p, q := Position(r, t), Position(Padded(r, k), t);
            if p < |r| && p < k then q == p else q == k
  {
    var p, q := Position(r, t), Position(Padded(r, k), t);
    if p < |r| && p < k {
      assert Padded(r, k)[p] == t;
    }
  }

  /** The stack property: what is held with fewer ways is held with more. */
  lemma Inclusion(tr: seq<nat>, small: nat, large: nat, t: nat)
    requires small <= large && t != 0 && t in Padded(Recent(tr), small)
    ensures t in Padded(Recent(tr), large)
  {
    var i :| 0 <= i < small && Padded(Recent(tr), small)[i] == t;
    assert Padded(Recent(tr), large)[i] == t;
  }

  // ----- last accesses

  /** The index of the last access to t, or |tr| when there is none. */
  function LastIndex(tr: seq<nat>, t: nat): (i: nat)
    ensures t in tr ==> i < |tr| && tr[i] == t && forall j :: i < j < |tr| ==> tr[j] != t
    ensures t !in tr ==> i == |tr|
  {
    if tr == [] then 0
    else if tr[|tr| - 1] == t then |tr| - 1
    else
      var i := LastIndex(tr[..|tr| - 1], t);
      assert tr == tr[..|tr| - 1] + [tr[|tr| - 1]];
      if i == |tr| - 1 then |tr| else i
  }

  lemma LastStep(tr: seq<nat>, u: nat, t: nat)
    ensures LastIndex(tr + [u], t) == if t == u then |tr| else if t in tr then LastIndex(tr, t) else |tr| + 1
  {
    assert (tr + [u])[..|tr|] == tr;
  }

  /** The stack is the tags of the trace in the order of their last accesses. */
  lemma {:induction false} RecentByLast(tr: seq<nat>, i: nat, j: nat)
    requires i < j < |Recent(tr)|
    ensures Recent(tr)[i] in tr && Recent(tr)[j] in tr
    ensures LastIndex(tr, Recent(tr)[i]) > LastIndex(tr, Recent(tr)[j])
  {
    hide Remove, Position, LastIndex;
    RecentFacts(tr);
    var n := |tr| - 1;
    var t, tr0 := tr[n], tr[..n];
    var r := Recent(tr0);
    var a, b := Recent(tr)[i], Recent(tr)[j];
    assert a in Recent(tr) && b in Recent(tr);
    assert tr == tr0 + [t];
    RecentFacts(tr0);
    RemoveFacts(r, t);
    assert Recent(tr) == [t] + Remove(r, t);
    assert b == Remove(r, t)[j - 1] && b != t && b in tr0;
    LastStep(tr0, t, a);
    LastStep(tr0, t, b);
    if i > 0 {
      assert a == Remove(r, t)[i - 1] && a != t && a in tr0;
      OldOrder(r, t, i - 1, j - 1);
      RecentByLast(tr0, Shifted(r, t, i - 1), Shifted(r, t, j - 1));
    }
  }

  /** The place in s of element i of s without t. */
  function Shifted(s: seq<nat>, t: nat, i: nat): nat { if i < Position(s, t) then i else i + 1 }

  lemma OldOrder(s: seq<nat>, t: nat, i: nat, j: nat)
    requires i < j < |Remove(s, t)|
    ensures Shifted(s, t, i) < Shifted(s, t, j) <= |s|
    ensures Position(s, t) < |s| ==>
              Shifted(s, t, j) < |s| && s[Shifted(s, t, i)] == Remove(s, t)[i] && s[Shifted(s, t, j)] == Remove(s, t)[j]
    ensures Position(s, t) == |s| ==> Shifted(s, t, i) == i && Shifted(s, t, j) == j && Remove(s, t) == s
  {
    hide Remove, Position;
    RemoveAt(s, t);
  }
}
