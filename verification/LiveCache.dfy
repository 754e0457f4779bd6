/** The set-associative cache model: lines reached through an array of references
    that is kept in recency order, stamps, and the sorted dump. */
module LiveCache {
  import opened LruStack

  // ----- sets and ways

  /** Where set s starts: set << log2Assoc. */
  function Base(s: nat, assoc: nat): nat { s * assoc }

  lemma BaseIn(s: nat, n: nat, assoc: nat)
    requires s < n
    ensures Base(s, assoc) + assoc <= Base(n, assoc)
  {
    assert Base(s + 1, assoc) == Base(s, assoc) + assoc;
    assert (n - (s + 1)) * assoc >= 0;
    assert Base(n, assoc) - Base(s + 1, assoc) == (n - (s + 1)) * assoc;
  }

  lemma BaseApart(s: nat, t: nat, assoc: nat)
    requires s != t
    ensures Base(s, assoc) + assoc <= Base(t, assoc) || Base(t, assoc) + assoc <= Base(s, assoc)
  {
    if s < t {
      BaseIn(s, t, assoc);
    } else {
      BaseIn(t, s, assoc);
    }
  }

  /** The tags of a set, most recent first. */
  function Ways(content: seq<nat>, tags: seq<nat>, assoc: nat, s: nat): (w: seq<nat>)
    requires Base(s, assoc) + assoc <= |content| && forall i :: 0 <= i < |content| ==> content[i] < |tags|
    ensures |w| == assoc
    ensures forall i :: 0 <= i < assoc ==> w[i] == tags[content[Base(s, assoc) + i]]
  {
    seq(assoc, i requires 0 <= i < assoc && Base(s, assoc) + assoc <= |content|
                          && forall j :: 0 <= j < |content| ==> content[j] < |tags|
        => tags[content[Base(s, assoc) + i]])
  }

  /** content and pos are inverse to each other: content is a permutation. */
  ghost predicate Inverse(content: seq<nat>, pos: seq<nat>)
  {
    && |content| == |pos|
    && (forall i :: 0 <= i < |content| ==> content[i] < |content| && pos[content[i]] == i)
    && (forall l :: 0 <= l < |pos| ==> pos[l] < |pos| && content[pos[l]] == l)
  }

  /** The reference at b + p has moved to b, the ones before it up by one. */
  ghost predicate Rotated(c: seq<nat>, b: nat, p: nat, c': seq<nat>)
    requires b + p < |c|
  {
    && |c'| == |c| && c'[b] == c[b + p]
    && (forall i :: b < i <= b + p ==> c'[i] == c[i - 1])
    && (forall i :: 0 <= i < |c| && (i < b || i > b + p) ==> c'[i] == c[i])
  }

  function MovedPos(pos: seq<nat>, b: nat, p: nat): (r: seq<nat>)
    ensures |r| == |pos|
    ensures forall l :: 0 <= l < |pos| ==>
              r[l] == if pos[l] == b + p then b else if b <= pos[l] < b + p then pos[l] + 1 else pos[l]
  {
    seq(|pos|, l requires 0 <= l < |pos|
        => if pos[l] == b + p then b else if b <= pos[l] < b + p then pos[l] + 1 else pos[l])
  }

  lemma RotatedInverse(c: seq<nat>, pos: seq<nat>, b: nat, p: nat, c': seq<nat>)
    requires Inverse(c, pos) && b + p < |c| && Rotated(c, b, p, c')
    ensures Inverse(c', MovedPos(pos, b, p))
  {
    hide MovedPos;
    var pos' := MovedPos(pos, b, p);
    forall i | 0 <= i < |c|
      ensures c'[i] < |c| && pos'[c'[i]] == i
    {
      var j := if i == b then b + p else if b < i <= b + p then i - 1 else i;
      assert c'[i] == c[j] && pos[c[j]] == j;
    }
    forall l | 0 <= l < |pos|
      ensures pos'[l] < |pos| && c'[pos'[l]] == l
    {
      assert c[pos[l]] == l;
    }
  }

  /** Moving way p to the front. */
  lemma RotatedWays(c: seq<nat>, tags: seq<nat>, assoc: nat, s: nat, p: nat, c': seq<nat>)
    requires p < assoc && Base(s, assoc) + assoc <= |c| && forall i :: 0 <= i < |c| ==> c[i] < |tags|
    requires Rotated(c, Base(s, assoc), p, c')
    ensures forall i :: 0 <= i < |c'| ==> c'[i] < |tags|
    ensures var w := Ways(c, tags, assoc, s); Ways(c', tags, assoc, s) == [w[p]] + w[..p] + w[p + 1..]
  {
    hide Base, Ways;
    var b := Base(s, assoc);
    forall i | 0 <= i < |c'|
      ensures c'[i] < |tags|
    {
      var j := if i == b then b + p else if b < i <= b + p then i - 1 else i;
      assert c'[i] == c[j];
    }
    var w, w' := Ways(c, tags, assoc, s), Ways(c', tags, assoc, s);
    var v := [w[p]] + w[..p] + w[p + 1..];
    forall i | 0 <= i < assoc
      ensures w'[i] == v[i]
    {
      assert 0 < i <= p ==> c'[b + i] == c[b + (i - 1)];
    }
  }

  lemma OtherWays(c: seq<nat>, tags: seq<nat>, assoc: nat, s: nat, p: nat, c': seq<nat>, u: nat)
    requires p < assoc && Base(s, assoc) + assoc <= |c| && forall i :: 0 <= i < |c| ==> c[i] < |tags|
    requires Rotated(c, Base(s, assoc), p, c') && u != s && Base(u, assoc) + assoc <= |c|
    requires forall i :: 0 <= i < |c'| ==> c'[i] < |tags|
    ensures Ways(c', tags, assoc, u) == Ways(c, tags, assoc, u)
  {
    hide Base, Ways;
    BaseApart(s, u, assoc);
  }

  // ----- the history of a tag

  /** The tag is in its set after the accesses. */
  ghost predicate Held(tr: seq<nat>, sets: nat, assoc: nat, t: nat)
    requires sets > 0
  {
    t in Padded(Recent(OfSet(tr, sets, SetOf(t, sets))), assoc)
  }

  /** With the same sets, whatever hits with fewer ways hits with more. */
  lemma HitsIncluded(tr: seq<nat>, sets: nat, small: nat, large: nat, t: nat)
    requires sets > 0 && small <= large && t != 0 && Held(tr, sets, small, t)
    ensures Held(tr, sets, large, t)
  {
    Inclusion(OfSet(tr, sets, SetOf(t, sets)), small, large, t);
  }

  /** The reads (or writes) of a run that find their tag. */
  ghost function Hits(tr: seq<nat>, ws: seq<bool>, wr: bool, sets: nat, assoc: nat): nat
    requires sets > 0 && |tr| == |ws|
  {
    if tr == [] then 0
    else
      var n := |tr| - 1;
      Hits(tr[..n], ws[..n], wr, sets, assoc) + if ws[n] == wr && Held(tr[..n], sets, assoc, tr[n]) then 1 else 0
  }

  lemma HitsStep(tr: seq<nat>, ws: seq<bool>, u: nat, w: bool, wr: bool, sets: nat, assoc: nat)
    requires sets > 0 && |tr| == |ws|
    ensures Hits(tr + [u], ws + [w], wr, sets, assoc) ==
              Hits(tr, ws, wr, sets, assoc) + if w == wr && Held(tr, sets, assoc, u) then 1 else 0
  {
    assert (tr + [u])[..|tr|] == tr && (ws + [w])[..|ws|] == ws;
  }

  /** The reads (or writes) of a run. */
  ghost function Count(ws: seq<bool>, wr: bool): nat
  {
    if ws == [] then 0 else Count(ws[..|ws| - 1], wr) + if ws[|ws| - 1] == wr then 1 else 0
  }

  lemma CountStep(ws: seq<bool>, w: bool, wr: bool)
    ensures Count(ws + [w], wr) == Count(ws, wr) + if w == wr then 1 else 0
  {
    assert (ws + [w])[..|ws|] == ws;
  }

  /** A run hits no less often with more ways. */
  lemma {:induction false} MoreWays(tr: seq<nat>, ws: seq<bool>, wr: bool, sets: nat, small: nat, large: nat)
    requires sets > 0 && |tr| == |ws| && 0 !in tr && small <= large
    ensures Hits(tr, ws, wr, sets, small) <= Hits(tr, ws, wr, sets, large)
  {
    hide Held;
    if tr != [] {
      var n := |tr| - 1;
      MoreWays(tr[..n], ws[..n], wr, sets, small, large);
      if Held(tr[..n], sets, small, tr[n]) {
        HitsIncluded(tr[..n], sets, small, large, tr[n]);
      }
    }
  }

  /** The tag was written since it was last brought in. */
  ghost predicate Dirty(tr: seq<nat>, ws: seq<bool>, sets: nat, assoc: nat, t: nat)
    requires sets > 0 && |tr| == |ws|
  {
    if tr == [] then false
    else
      var n := |tr| - 1;
      if tr[n] != t then Dirty(tr[..n], ws[..n], sets, assoc, t)
      else ws[n] || (Held(tr[..n], sets, assoc, t) && Dirty(tr[..n], ws[..n], sets, assoc, t))
  }

  lemma DirtyStep(tr: seq<nat>, ws: seq<bool>, u: nat, w: bool, sets: nat, assoc: nat, t: nat)
    requires sets > 0 && |tr| == |ws|
    ensures Dirty(tr + [u], ws + [w], sets, assoc, t) <==>
              if u != t then Dirty(tr, ws, sets, assoc, t)
              else w || (Held(tr, sets, assoc, t) && Dirty(tr, ws, sets, assoc, t))
  {
    assert (tr + [u])[..|tr|] == tr && (ws + [w])[..|ws|] == ws;
  }

  lemma OfSetStep(tr: seq<nat>, u: nat, sets: nat, s: nat)
    requires sets > 0
    ensures OfSet(tr + [u], sets, s) == OfSet(tr, sets, s) + if SetOf(u, sets) == s then [u] else []
  {
    assert (tr + [u])[..|tr|] == tr;
  }

  lemma RecentStep(tr: seq<nat>, u: nat)
    ensures Recent(tr + [u]) == [u] + Remove(Recent(tr), u)
  {
    assert (tr + [u])[..|tr|] == tr;
  }

  /** The state of the cache as values: what the invariant is about. */
  datatype State = State(content: seq<nat>, tags: seq<nat>, order: seq<nat>, st: seq<bool>)

  ghost predicate Sized(c: State, pos: seq<nat>, sets: nat, assoc: nat)
  {
    && sets > 0 && assoc > 0 && |c.content| == Base(sets, assoc)
    && |c.tags| == |c.content| && |c.order| == |c.content| && |c.st| == |c.content|
    && Inverse(c.content, pos)
    && (forall i :: 0 <= i < |c.content| ==> c.content[i] < |c.tags|)
  }

  /** Set s holds the last distinct tags that map to it. */
  ghost predicate SetOk(c: State, pos: seq<nat>, sets: nat, assoc: nat, tr: seq<nat>, s: nat)
    requires Sized(c, pos, sets, assoc)
  {
    s < sets ==>
      && Base(s, assoc) + assoc <= |c.content|
      && Ways(c.content, c.tags, assoc, s) == Padded(Recent(OfSet(tr, sets, s)), assoc)
  }

  /** Line l, if used, has the stamp of the last access to its tag. */
  ghost predicate LineOk(c: State, pos: seq<nat>, sets: nat, assoc: nat, tr: seq<nat>, ws: seq<bool>, l: nat)
    requires Sized(c, pos, sets, assoc) && |tr| == |ws|
  {
    l < |c.tags| && c.tags[l] != 0 ==>
      && c.tags[l] in tr && c.order[l] == LastIndex(tr, c.tags[l])
      && (c.st[l] <==> Dirty(tr, ws, sets, assoc, c.tags[l]))
      && (exists s: nat :: InSet(c, pos, sets, assoc, l, s))
  }

  /** Line l is one of the ways of set s, and its tag maps there. */
  ghost predicate InSet(c: State, pos: seq<nat>, sets: nat, assoc: nat, l: nat, s: nat)
    requires Sized(c, pos, sets, assoc)
  {
    l < |pos| && s < sets && SetOf(c.tags[l], sets) == s && Base(s, assoc) <= pos[l] < Base(s, assoc) + assoc
  }

  ghost predicate Ok(c: State, pos: seq<nat>, sets: nat, assoc: nat, tr: seq<nat>, ws: seq<bool>)
  {
    && Sized(c, pos, sets, assoc) && |tr| == |ws| && 0 !in tr
    && (forall s: nat :: SetOk(c, pos, sets, assoc, tr, s))
    && (forall l: nat :: LineOk(c, pos, sets, assoc, tr, ws, l))
  }

  /** A non-zero tag is in at most one line. */
  lemma OneLine(c: State, pos: seq<nat>, sets: nat, assoc: nat, tr: seq<nat>, ws: seq<bool>, l: nat, m: nat)
    requires Ok(c, pos, sets, assoc, tr, ws) && l < |c.tags| && m < |c.tags| && c.tags[l] == c.tags[m] != 0
    ensures l == m
  {
    hide Ways, Base, Recent, OfSet, Padded;
    var t := c.tags[l];
    var s := SetOf(t, sets);
    assert LineOk(c, pos, sets, assoc, tr, ws, l) && LineOk(c, pos, sets, assoc, tr, ws, m);
    assert SetOk(c, pos, sets, assoc, tr, s);
    var b := Base(s, assoc);
    var w, r := Ways(c.content, c.tags, assoc, s), Recent(OfSet(tr, sets, s));
    var i, j := pos[l] - b, pos[m] - b;
    assert c.content[b + i] == l && c.content[b + j] == m;
    assert w[i] == t && w[j] == t;
    RecentFacts(OfSet(tr, sets, s));
  }

  // ----- one access

  /** Way p of set s moves to the front and takes the tag, the next stamp and the
      store flag. */
  ghost predicate Accessed(c: State, s: nat, assoc: nat, p: nat, t: nat, stamp: nat, flag: bool, c': State)
  {
    var b := Base(s, assoc);
    && b + p < |c.content| && c.content[b + p] < |c.tags| == |c.order| == |c.st|
    && Rotated(c.content, b, p, c'.content)
    && c'.tags == c.tags[c.content[b + p] := t]
    && c'.order == c.order[c.content[b + p] := stamp]
    && c'.st == c.st[c.content[b + p] := flag]
  }

  /** The way an access to t uses: its own, or the last one on a miss. */
  ghost predicate IsVictim(w: seq<nat>, t: nat, p: nat)
  {
    if t in w then p == Position(w, t) < |w| else p + 1 == |w|
  }

  lemma AccessSized(c: State, pos: seq<nat>, sets: nat, assoc: nat, s: nat, p: nat, t: nat, stamp: nat, flag: bool,
                    c': State)
    requires Sized(c, pos, sets, assoc) && s < sets && p < assoc && Accessed(c, s, assoc, p, t, stamp, flag, c')
    ensures Sized(c', MovedPos(pos, Base(s, assoc), p), sets, assoc)
  {
    hide Base, MovedPos, Rotated;
    RotatedInverse(c.content, pos, Base(s, assoc), p, c'.content);
  }

  lemma TouchedWays(w: seq<nat>, t: nat, p: nat)
    requires IsVictim(w, t, p)
    ensures p < |w| && [t] + w[..p] + w[p + 1..] == Touch(w, t)
  {
    hide Remove, Position;
    RemoveAt(w, t);
  }

  lemma AccessOwnSet(c: State, pos: seq<nat>, sets: nat, assoc: nat, tr: seq<nat>, s: nat, p: nat, t: nat, stamp: nat,
                     flag: bool, c': State)
    requires Sized(c, pos, sets, assoc) && s < sets && SetOk(c, pos, sets, assoc, tr, s) && t != 0
    requires SetOf(t, sets) == s
    requires p < assoc && IsVictim(Ways(c.content, c.tags, assoc, s), t, p)
    requires Accessed(c, s, assoc, p, t, stamp, flag, c')
    requires Sized(c', MovedPos(pos, Base(s, assoc), p), sets, assoc)
    ensures SetOk(c', MovedPos(pos, Base(s, assoc), p), sets, assoc, tr + [t], s)
  {
    hide Base, MovedPos, Ways, Padded, Recent, OfSet, Touch, IsVictim, Rotated;
    var w := Ways(c.content, c.tags, assoc, s);
    RotatedWays(c.content, c.tags, assoc, s, p, c'.content);
    TouchedWays(w, t, p);
    FrontTag(c, pos, sets, assoc, s, p, t, stamp, flag, c');
    OfSetStep(tr, t, sets, s);
    RecentStep(OfSet(tr, sets, s), t);
    TouchIsRecent(Recent(OfSet(tr, sets, s)), t, assoc);
  }

  /** Only the front way changes its tag. */
  lemma FrontTag(c: State, pos: seq<nat>, sets: nat, assoc: nat, s: nat, p: nat, t: nat, stamp: nat, flag: bool,
                 c': State)
    requires Sized(c, pos, sets, assoc) && s < sets && p < assoc && Base(s, assoc) + assoc <= |c.content|
    requires Accessed(c, s, assoc, p, t, stamp, flag, c') && Sized(c', MovedPos(pos, Base(s, assoc), p), sets, assoc)
    ensures var w := Ways(c.content, c.tags, assoc, s);
            Ways(c'.content, c'.tags, assoc, s) == [t] + w[..p] + w[p + 1..]
  {
    hide Base, MovedPos, Ways, Rotated;
    var b := Base(s, assoc);
    var w := Ways(c.content, c.tags, assoc, s);
    RotatedWays(c.content, c.tags, assoc, s, p, c'.content);
    FrontIs(c.content, b, p, c'.content);
    OwnTags(c'.content, MovedPos(pos, b, p), c.tags, assoc, s, t);
    var v := [w[p]] + w[..p] + w[p + 1..];
    assert v[0 := t] == [t] + w[..p] + w[p + 1..];
  }

  lemma OwnTags(c: seq<nat>, pos: seq<nat>, tags: seq<nat>, assoc: nat, s: nat, t: nat)
    requires Inverse(c, pos) && |tags| == |c| && Base(s, assoc) + assoc <= |c| && assoc > 0
    ensures Ways(c, tags[c[Base(s, assoc)] := t], assoc, s) == Ways(c, tags, assoc, s)[0 := t]
  {
    hide Base, Ways;
    var b := Base(s, assoc);
    var w, w' := Ways(c, tags, assoc, s), Ways(c, tags[c[b] := t], assoc, s);
    forall i | 0 < i < assoc
      ensures w'[i] == w[i]
    {
      OnlyFront(c, pos, b, b + i);
    }
  }

  lemma OnlyFront(c: seq<nat>, pos: seq<nat>, b: nat, i: nat)
    requires Inverse(c, pos) && b < |c| && i < |c| && i != b
    ensures c[i] != c[b]
  {
    assert pos[c[i]] == i && pos[c[b]] == b;
  }

  lemma AccessOtherSet(c: State, pos: seq<nat>, sets: nat, assoc: nat, tr: seq<nat>, s: nat, p: nat, t: nat, stamp: nat,
                       flag: bool, c': State, u: nat)
    requires Sized(c, pos, sets, assoc) && s < sets && SetOk(c, pos, sets, assoc, tr, u) && SetOf(t, sets) == s
    requires u != s
    requires p < assoc && Base(s, assoc) + assoc <= |c.content| && Accessed(c, s, assoc, p, t, stamp, flag, c')
    requires Sized(c', MovedPos(pos, Base(s, assoc), p), sets, assoc)
    ensures SetOk(c', MovedPos(pos, Base(s, assoc), p), sets, assoc, tr + [t], u)
  {
    hide Base, MovedPos, Ways, Padded, Recent, OfSet, Rotated;
    if u < sets {
      OfSetStep(tr, t, sets, u);
      OtherWays(c.content, c.tags, assoc, s, p, c'.content, u);
      BaseApart(s, u, assoc);
      FrontIs(c.content, Base(s, assoc), p, c'.content);
      OtherTags(c'.content, MovedPos(pos, Base(s, assoc), p), c.tags, assoc, u, Base(s, assoc), t);
      assert OfSet(tr, sets, u) + [] == OfSet(tr, sets, u);
    }
  }

  lemma FrontIs(c: seq<nat>, b: nat, p: nat, c': seq<nat>)
    requires b + p < |c| && Rotated(c, b, p, c')
    ensures |c'| == |c| && c'[b] == c[b + p]
  {
  }

  /** Changing the tag of the line at b leaves the sets elsewhere alone. */
  lemma OtherTags(c: seq<nat>, pos: seq<nat>, tags: seq<nat>, assoc: nat, u: nat, b: nat, t: nat)
    requires Inverse(c, pos) && |tags| == |c| && Base(u, assoc) + assoc <= |c| && b < |c|
    requires b < Base(u, assoc) || Base(u, assoc) + assoc <= b
    ensures Ways(c, tags[c[b] := t], assoc, u) == Ways(c, tags, assoc, u)
  {
    hide Base, Ways;
    var e := Base(u, assoc);
    var w, w' := Ways(c, tags, assoc, u), Ways(c, tags[c[b] := t], assoc, u);
    forall i | 0 <= i < assoc
      ensures w'[i] == w[i]
    {
      OnlyFront(c, pos, b, e + i);
    }
  }

  /** Every other used line has another tag. */
  lemma OtherTag(c: State, pos: seq<nat>, sets: nat, assoc: nat, tr: seq<nat>, ws: seq<bool>, s: nat, p: nat, t: nat,
                 l: nat)
    requires Ok(c, pos, sets, assoc, tr, ws) && t != 0 && SetOf(t, sets) == s && p < assoc
    requires Base(s, assoc) + assoc <= |c.content|
    requires IsVictim(Ways(c.content, c.tags, assoc, s), t, p)
    requires l < |c.tags| && l != c.content[Base(s, assoc) + p]
    ensures c.tags[l] != t
  {
    hide Base, Ways, Padded, Recent, OfSet, Dirty;
    var b := Base(s, assoc);
    var w := Ways(c.content, c.tags, assoc, s);
    if c.tags[l] == t {
      assert LineOk(c, pos, sets, assoc, tr, ws, l);
      assert c.content[b + (pos[l] - b)] == l && w[pos[l] - b] == t;
      OneLine(c, pos, sets, assoc, tr, ws, l, c.content[b + p]);
    }
  }

  lemma AccessLine(c: State, pos: seq<nat>, sets: nat, assoc: nat, tr: seq<nat>, ws: seq<bool>, s: nat, p: nat, t: nat,
                   flag: bool, c': State, l: nat, wr: bool)
    requires Ok(c, pos, sets, assoc, tr, ws) && t != 0 && SetOf(t, sets) == s && p < assoc
    requires Base(s, assoc) + assoc <= |c.content|
    requires IsVictim(Ways(c.content, c.tags, assoc, s), t, p)
    requires flag <==> wr || (t in Ways(c.content, c.tags, assoc, s) && c.st[c.content[Base(s, assoc) + p]])
    requires Accessed(c, s, assoc, p, t, |tr|, flag, c') && Sized(c', MovedPos(pos, Base(s, assoc), p), sets, assoc)
    ensures LineOk(c', MovedPos(pos, Base(s, assoc), p), sets, assoc, tr + [t], ws + [wr], l)
  {
    hide Base, Ways, Padded, Recent, OfSet, Dirty, Position, MovedPos, LastIndex, Rotated;
    var line := c.content[Base(s, assoc) + p];
    if l < |c.tags| && c'.tags[l] != 0 {
      if l == line {
        FrontLine(c, pos, sets, assoc, tr, ws, s, p, t, flag, c', wr);
      } else {
        OtherTag(c, pos, sets, assoc, tr, ws, s, p, t, l);
        var u := c.tags[l];
        assert LineOk(c, pos, sets, assoc, tr, ws, l);
        LastStep(tr, t, u);
        DirtyStep(tr, ws, t, wr, sets, assoc, u);
        StaysInSet(c, pos, sets, assoc, s, p, t, |tr|, flag, c', l, SetOf(u, sets));
      }
    }
  }

  lemma StaysInSet(c: State, pos: seq<nat>, sets: nat, assoc: nat, s: nat, p: nat, t: nat, stamp: nat, flag: bool,
                   c': State, l: nat, u: nat)
    requires Sized(c, pos, sets, assoc) && InSet(c, pos, sets, assoc, l, u) && p < assoc && s < sets
    requires Accessed(c, s, assoc, p, t, stamp, flag, c') && l != c.content[Base(s, assoc) + p]
    requires Sized(c', MovedPos(pos, Base(s, assoc), p), sets, assoc)
    ensures InSet(c', MovedPos(pos, Base(s, assoc), p), sets, assoc, l, u)
  {
    hide Base, MovedPos, Rotated;
    if u != s {
      BaseApart(s, u, assoc);
    }
  }

  lemma FrontLine(c: State, pos: seq<nat>, sets: nat, assoc: nat, tr: seq<nat>, ws: seq<bool>, s: nat, p: nat, t: nat,
                  flag: bool, c': State, wr: bool)
    requires Ok(c, pos, sets, assoc, tr, ws) && t != 0 && SetOf(t, sets) == s && p < assoc
    requires Base(s, assoc) + assoc <= |c.content|
    requires IsVictim(Ways(c.content, c.tags, assoc, s), t, p)
    requires flag <==> wr || (t in Ways(c.content, c.tags, assoc, s) && c.st[c.content[Base(s, assoc) + p]])
    requires Accessed(c, s, assoc, p, t, |tr|, flag, c') && Sized(c', MovedPos(pos, Base(s, assoc), p), sets, assoc)
    ensures LineOk(c', MovedPos(pos, Base(s, assoc), p), sets, assoc, tr + [t], ws + [wr],
              c.content[Base(s, assoc) + p])
  {
    hide Base, Ways, Padded, Recent, OfSet, Dirty, Position, MovedPos, LastIndex, Rotated;
    var b := Base(s, assoc);
    var line := c.content[b + p];
    LastStep(tr, t, t);
    DirtyStep(tr, ws, t, wr, sets, assoc, t);
    assert SetOk(c, pos, sets, assoc, tr, s);
    if t in Ways(c.content, c.tags, assoc, s) {
      assert c.tags[line] == t;
      assert LineOk(c, pos, sets, assoc, tr, ws, line);
    }
    assert pos[line] == b + p;
    assert InSet(c', MovedPos(pos, b, p), sets, assoc, line, s);
  }

  /** Every access keeps the invariant. */
  lemma AccessKeeps(c: State, pos: seq<nat>, sets: nat, assoc: nat, tr: seq<nat>, ws: seq<bool>, p: nat, t: nat,
                    flag: bool, c': State, wr: bool)
    requires Ok(c, pos, sets, assoc, tr, ws) && t != 0 && p < assoc
    requires Base(SetOf(t, sets), assoc) + assoc <= |c.content|
    requires IsVictim(Ways(c.content, c.tags, assoc, SetOf(t, sets)), t, p)
    requires var s := SetOf(t, sets);
             flag <==> wr || (t in Ways(c.content, c.tags, assoc, s) && c.st[c.content[Base(s, assoc) + p]])
    requires Accessed(c, SetOf(t, sets), assoc, p, t, |tr|, flag, c')
    ensures Ok(c', MovedPos(pos, Base(SetOf(t, sets), assoc), p), sets, assoc, tr + [t], ws + [wr])
  {
    hide Base, Ways, Padded, Recent, OfSet, Dirty, Position, MovedPos, LastIndex, Rotated, IsVictim, Accessed, LineOk,
         Inverse;
    var s := SetOf(t, sets);
    AccessSized(c, pos, sets, assoc, s, p, t, |tr|, flag, c');
    var pos' := MovedPos(pos, Base(s, assoc), p);
    forall u: nat
      ensures SetOk(c', pos', sets, assoc, tr + [t], u)
    {
      assert SetOk(c, pos, sets, assoc, tr, u);
      if u == s {
        AccessOwnSet(c, pos, sets, assoc, tr, s, p, t, |tr|, flag, c');
      } else {
        AccessOtherSet(c, pos, sets, assoc, tr, s, p, t, |tr|, flag, c', u);
      }
    }
    forall l: nat
      ensures LineOk(c', pos', sets, assoc, tr + [t], ws + [wr], l)
    {
      AccessLine(c, pos, sets, assoc, tr, ws, s, p, t, flag, c', l, wr);
    }
  }
}
