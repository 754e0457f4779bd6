/** The load-reserved / store-conditional protocol across harts: one sequence
    number for memory and one per reservation, over any interleaving. */
module Reservations {

  const WORD: nat := 0x1_0000_0000_0000_0000
  /** ~0, left in load_res by a successful store-conditional */
  const NONE: nat := 0xFFFF_FFFF_FFFF_FFFF

  datatype Place = Ram(pa: nat) | Io

  datatype Hart = Hart(loadRes: nat, resSeq: nat)

  datatype State = State(mem: map<nat, nat>, seqno: nat, harts: seq<Hart>)

  /** A load-reserved, a store-conditional, or any other store (an AMO stores too). */
  datatype Op =
    | Lr(h: nat, addr: nat, size: nat)
    | Sc(h: nat, addr: nat, size: nat, val: nat)
    | St(h: nat, addr: nat, size: nat, val: nat)

  /** Where an address of a hart ends up, and whether an access of a size to it, a
      store or not, faults. */
  datatype Env = Env(place: (nat, nat) -> Place, faults: (nat, nat, nat, bool) -> bool)

  predicate Faults(env: Env, op: Op) { env.faults(op.h, op.addr, op.size, !op.Lr?) }

  function PlaceOf(env: Env, op: Op): Place { env.place(op.h, op.addr) }

  function Reset(harts: nat, mem: map<nat, nat>): State
  {
    State(mem, 0, seq(harts, _ => Hart(0, 0)))
  }

  predicate ValidOp(harts: nat, op: Op)
  {
    op.h < harts && (op.Sc? ==> op.size == 4 || op.size == 8)
  }

  ghost predicate ValidOps(harts: nat, ops: seq<Op>)
  {
    forall k :: 0 <= k < |ops| ==> ValidOp(harts, ops[k])
  }

  /** ++ on a 64-bit counter */
  function Bump(x: nat): nat { (x + 1) % WORD }

  /** Both sequence numbers move when a hart stores to RAM. */
  function StoreRam(s: State, h: nat, pa: nat, val: nat): State
    requires h < |s.harts|
  {
    var me := s.harts[h];
    State(s.mem[pa := val], Bump(s.seqno), s.harts[h := me.(resSeq := Bump(me.resSeq))])
  }

  /** The comparison made by a store-conditional. */
  predicate Passes(env: Env, s: State, op: Op)
    requires op.Sc? && op.h < |s.harts| && op.size > 0
  {
    && op.addr % op.size == 0
    && s.harts[op.h].loadRes == op.addr && s.harts[op.h].resSeq == s.seqno
    && !Faults(env, op)
  }

  function Step(env: Env, s: State, op: Op): (s': State)
    requires ValidOp(|s.harts|, op)
    ensures |s'.harts| == |s.harts|
  {
    match op
    case Lr(h, addr, _) =>
      if Faults(env, op) then s else s.(harts := s.harts[h := Hart(addr, s.seqno)])
    case Sc(h, _, _, val) =>
      if !Passes(env, s, op) then s
      else
        var t := if PlaceOf(env, op).Ram? then StoreRam(s, h, PlaceOf(env, op).pa, val) else s;
        t.(harts := t.harts[h := Hart(NONE, 0)])
    case St(h, _, _, val) =>
      if !Faults(env, op) && PlaceOf(env, op).Ram? then StoreRam(s, h, PlaceOf(env, op).pa, val) else s
  }

  /** The state after the first n operations. */
  function At(env: Env, s0: State, ops: seq<Op>, n: nat): (s: State)
    requires n <= |ops| && ValidOps(|s0.harts|, ops)
    ensures |s.harts| == |s0.harts|
  {
    if n == 0 then s0 else Step(env, At(env, s0, ops, n - 1), ops[n - 1])
  }

  // ----- the history of a hart's reservation

  /** No load-reserved yet; holding one on an address; used up. */
  datatype Status = Fresh | Held(addr: nat) | Spent

  predicate Reserves(env: Env, op: Op, h: nat) { op.Lr? && op.h == h && !Faults(env, op) }

  predicate Succeeds(env: Env, s: State, op: Op)
    requires ValidOp(|s.harts|, op)
  {
    op.Sc? && Passes(env, s, op)
  }

  /** The operation stores to RAM. */
  predicate StoresRam(env: Env, s: State, op: Op)
    requires ValidOp(|s.harts|, op)
  {
    !op.Lr? && PlaceOf(env, op).Ram? && if op.Sc? then Passes(env, s, op) else !Faults(env, op)
  }

  function StatusAt(env: Env, s0: State, ops: seq<Op>, n: nat, h: nat): Status
    requires n <= |ops| && ValidOps(|s0.harts|, ops)
  {
    if n == 0 then Fresh
    else
      var op := ops[n - 1];
      if Reserves(env, op, h) then Held(op.addr)
      else if op.h == h && Succeeds(env, At(env, s0, ops, n - 1), op) then Spent
      else StatusAt(env, s0, ops, n - 1, h)
  }

  /** Stores to RAM by other harts since the last load-reserved of h. */
  function Others(env: Env, s0: State, ops: seq<Op>, n: nat, h: nat): (c: nat)
    requires n <= |ops| && ValidOps(|s0.harts|, ops)
    ensures c <= n
  {
    if n == 0 then 0
    else
      var op := ops[n - 1];
      if Reserves(env, op, h) then 0
      else Others(env, s0, ops, n - 1, h) + if op.h != h && StoresRam(env, At(env, s0, ops, n - 1), op) then 1 else 0
  }

  /** The reservation number res lags behind seqno by c, modulo 2^64. */
  predicate Lags(seqno: nat, res: nat, c: nat)
  {
    seqno < WORD && res < WORD && (seqno - res) % WORD == c % WORD
  }

  lemma LagStep(seqno: nat, res: nat, c: nat)
    requires Lags(seqno, res, c)
    ensures Lags(Bump(seqno), Bump(res), c) && Lags(Bump(seqno), res, c + 1)
  {
    var d := (seqno - res) / WORD - c / WORD;
    assert seqno - res == c + d * WORD;
    var a, b := (seqno + 1) / WORD, (res + 1) / WORD;
    SameMod(Bump(seqno) - Bump(res), c, d - a + b);
    SameMod(Bump(seqno) - res, c + 1, d - a);
  }

  lemma SameMod(x: int, y: int, k: int)
    requires x == y + k * WORD
    ensures x % WORD == y % WORD
  {
    var q := y / WORD;
    assert x == (q + k) * WORD + y % WORD;
    assert 0 <= y % WORD < WORD;
    assert x / WORD == q + k;
  }

  /** What the history of a hart says about its fields: a reservation's number
      lags behind memory's by the stores of the other harts, and an unused hart
      looks like a holder of address 0. */
  predicate Tracks(s: State, h: nat, st: Status, c: nat)
    requires h < |s.harts|
  {
    var me := s.harts[h];
    match st
    case Held(a) => me.loadRes == a && Lags(s.seqno, me.resSeq, c)
    case Fresh => me.loadRes == 0 && Lags(s.seqno, me.resSeq, c)
    case Spent => me.loadRes == NONE && s.seqno < WORD
  }

  lemma TrackOther(env: Env, s: State, op: Op, h: nat, st: Status, c: nat)
    requires ValidOp(|s.harts|, op) && h < |s.harts| && op.h != h && Tracks(s, h, st, c)
    ensures Tracks(Step(env, s, op), h, st, c + if StoresRam(env, s, op) then 1 else 0)
  {
    hide Lags, Bump, Passes;
    assert Step(env, s, op).harts[h] == s.harts[h];
    if st != Spent {
      LagStep(s.seqno, s.harts[h].resSeq, c);
    } else if StoresRam(env, s, op) {
      BumpSmall(s.seqno);
    }
  }

  lemma TrackOwn(env: Env, s: State, op: Op, st: Status, c: nat)
    requires ValidOp(|s.harts|, op) && Tracks(s, op.h, st, c)
    ensures var s' := Step(env, s, op);
            if Reserves(env, op, op.h) then Tracks(s', op.h, Held(op.addr), 0)
            else if Succeeds(env, s, op) then Tracks(s', op.h, Spent, c)
            else Tracks(s', op.h, st, c)
  {
    hide Lags, Bump, Passes;
    BumpSmall(s.seqno);
    if st != Spent {
      LagStep(s.seqno, s.harts[op.h].resSeq, c);
    }
    SeqnoSmall(s, op.h, st, c);
    NoLag(s.seqno);
  }

  lemma BumpSmall(x: nat)
    ensures Bump(x) < WORD
  {
  }

  lemma SeqnoSmall(s: State, h: nat, st: Status, c: nat)
    requires h < |s.harts| && Tracks(s, h, st, c)
    ensures s.seqno < WORD
  {
  }

  lemma NoLag(x: nat)
    ensures x < WORD ==> Lags(x, x, 0)
  {
  }

  /** The invariant of every run. */
  lemma {:induction false} SeqnoCounts(env: Env, harts: nat, mem: map<nat, nat>, ops: seq<Op>, n: nat, h: nat)
    requires ValidOps(harts, ops) && n <= |ops| && h < harts
    ensures var s0 := Reset(harts, mem);
            Tracks(At(env, s0, ops, n), h, StatusAt(env, s0, ops, n, h), Others(env, s0, ops, n, h))
  {
    if n > 0 {
      hide Step, Tracks, Succeeds, Reserves, StoresRam;
      SeqnoCounts(env, harts, mem, ops, n - 1, h);
      var s0 := Reset(harts, mem);
      var s, st, c := At(env, s0, ops, n - 1), StatusAt(env, s0, ops, n - 1, h), Others(env, s0, ops, n - 1, h);
      var op := ops[n - 1];
      assert ValidOp(harts, op);
      if op.h == h {
        TrackOwn(env, s, op, st, c);
      } else {
        TrackOther(env, s, op, h, st, c);
        NotOwn(env, op, h);
      }
    }
  }

  lemma NotOwn(env: Env, op: Op, h: nat)
    requires op.h != h
    ensures !Reserves(env, op, h)
  {
  }

  lemma NoneIsOdd(size: nat)
    requires size == 4 || size == 8
    ensures NONE % size != 0
  {
  }

  /** Exactly when a store-conditional goes through. */
  lemma ScPasses(env: Env, harts: nat, mem: map<nat, nat>, ops: seq<Op>, n: nat)
    requires ValidOps(harts, ops) && n < |ops| && ops[n].Sc?
    ensures var s0 := Reset(harts, mem);
            var op := ops[n];
            var st := StatusAt(env, s0, ops, n, op.h);
            Passes(env, At(env, s0, ops, n), op) <==>
              && op.addr % op.size == 0 && !Faults(env, op)
              && (st == Held(op.addr) || (st == Fresh && op.addr == 0))
              && Others(env, s0, ops, n, op.h) % WORD == 0
  {
    hide Step, Others;
    var op := ops[n];
    assert ValidOp(harts, op);
    SeqnoCounts(env, harts, mem, ops, n, op.h);
    NoneIsOdd(op.size);
    var s0 := Reset(harts, mem);
    var s := At(env, s0, ops, n);
    if StatusAt(env, s0, ops, n, op.h) != Spent {
      ZeroMod(s.seqno, s.harts[op.h].resSeq);
    }
  }

  lemma ZeroMod(a: nat, b: nat)
    requires a < WORD && b < WORD
    ensures (a - b) % WORD == 0 <==> a == b
  {
    if (a - b) % WORD == 0 {
      assert a - b == (a - b) / WORD * WORD;
    }
  }

  /** Holding a reservation with no store counted: there is the load-reserved, and
      no other hart stored to RAM after it. */
  lemma {:induction false} NothingBetween(env: Env, s0: State, ops: seq<Op>, n: nat, h: nat) returns (k: nat)
    requires ValidOps(|s0.harts|, ops) && n <= |ops|
    requires StatusAt(env, s0, ops, n, h).Held? && Others(env, s0, ops, n, h) == 0
    ensures k < n && Reserves(env, ops[k], h) && ops[k].addr == StatusAt(env, s0, ops, n, h).addr
    ensures forall j :: k < j < n && ops[j].h != h ==> !StoresRam(env, At(env, s0, ops, j), ops[j])
  {
    hide Step, Passes;
    if Reserves(env, ops[n - 1], h) {
      k := n - 1;
    } else {
      k := NothingBetween(env, s0, ops, n - 1, h);
    }
  }

  /** Operation k is a load-reserved for the store-conditional n, and no other hart
      stored to RAM in between. */
  ghost predicate Guards(env: Env, s0: State, ops: seq<Op>, k: nat, n: nat)
    requires n < |ops| && ValidOps(|s0.harts|, ops)
  {
    && k < n && Reserves(env, ops[k], ops[n].h) && ops[k].addr == ops[n].addr
    && forall j :: k < j < n && ops[j].h != ops[n].h ==> !StoresRam(env, At(env, s0, ops, j), ops[j])
  }

  /** The hart has reserved since reset, and the counter of stores has not come
      round since then. */
  predicate Sound(env: Env, s0: State, ops: seq<Op>, n: nat)
    requires n < |ops| && ValidOps(|s0.harts|, ops)
  {
    StatusAt(env, s0, ops, n, ops[n].h) != Fresh && Others(env, s0, ops, n, ops[n].h) < WORD
  }

  lemma {:induction false} StillReserved(env: Env, s0: State, ops: seq<Op>, k: nat, n: nat, h: nat)
    requires ValidOps(|s0.harts|, ops) && k < n <= |ops| && Reserves(env, ops[k], h)
    requires forall j :: k < j < n && ops[j].h != h ==> !StoresRam(env, At(env, s0, ops, j), ops[j])
    ensures StatusAt(env, s0, ops, n, h) != Fresh && Others(env, s0, ops, n, h) == 0
    decreases n
  {
    hide Step, Passes;
    if k < n - 1 {
      StillReserved(env, s0, ops, k, n - 1, h);
    }
  }

  /** Atomicity: a store-conditional that goes through was preceded by its
      load-reserved with no RAM store by another hart in between, exactly when it
      is sound. Below 2^64 operations and away from address 0 it always is. */
  lemma Atomic(env: Env, harts: nat, mem: map<nat, nat>, ops: seq<Op>, n: nat)
    requires ValidOps(harts, ops) && n < |ops| && ops[n].Sc?
    requires Passes(env, At(env, Reset(harts, mem), ops, n), ops[n])
    ensures (exists k: nat :: Guards(env, Reset(harts, mem), ops, k, n)) <==> Sound(env, Reset(harts, mem), ops, n)
    ensures n < WORD && ops[n].addr != 0 ==> Sound(env, Reset(harts, mem), ops, n)
  {
    hide Step, Passes, Others, At, StatusAt;
    ScPasses(env, harts, mem, ops, n);
    var s0, h := Reset(harts, mem), ops[n].h;
    assert Others(env, s0, ops, n, h) <= n;
    if Sound(env, s0, ops, n) {
      var k := NothingBetween(env, s0, ops, n, h);
      assert Guards(env, s0, ops, k, n);
    }
    if k: nat :| Guards(env, s0, ops, k, n) {
      StillReserved(env, s0, ops, k, n, h);
    }
  }

  /** The exception is real: after reset a store-conditional to address 0 goes
      through although nothing was reserved. */
  lemma UnreservedScPasses(env: Env, mem: map<nat, nat>, val: nat)
    requires !env.faults(0, 0, 8, true)
    ensures Passes(env, Reset(1, mem), Sc(0, 0, 8, val))
  {
  }

  // ----- a shared counter

  predicate Targets(env: Env, op: Op, c: nat) { !op.Lr? && PlaceOf(env, op) == Ram(c) && (op.St? ==> !Faults(env, op)) }

  function Word(mem: map<nat, nat>, a: nat): nat { if a in mem then mem[a] else 0 }

  /** What the last load-reserved of h read, when it was of RAM. */
  function LastRead(env: Env, s0: State, ops: seq<Op>, n: nat, h: nat): nat
    requires n <= |ops| && ValidOps(|s0.harts|, ops)
  {
    if n == 0 then 0
    else
      var op := ops[n - 1];
      if Reserves(env, op, h) && PlaceOf(env, op).Ram?
      then Word(At(env, s0, ops, n - 1).mem, PlaceOf(env, op).pa)
      else LastRead(env, s0, ops, n - 1, h)
  }

  /** Every operation that would store to c is a store-conditional of one more
      than its hart last read with load-reserved. */
  ghost predicate OnlyIncrements(env: Env, s0: State, ops: seq<Op>, c: nat)
    requires ValidOps(|s0.harts|, ops)
  {
    forall k :: 0 <= k < |ops| && Targets(env, ops[k], c) ==>
      ops[k].Sc? && ops[k].val == Bump(LastRead(env, s0, ops, k, ops[k].h))
  }

  /** Store-conditionals to c that went through. */
  function Increments(env: Env, s0: State, ops: seq<Op>, n: nat, c: nat): nat
    requires n <= |ops| && ValidOps(|s0.harts|, ops)
  {
    if n == 0 then 0
    else Increments(env, s0, ops, n - 1, c)
         + if Targets(env, ops[n - 1], c) && Succeeds(env, At(env, s0, ops, n - 1), ops[n - 1]) then 1 else 0
  }

  /** While nothing was stored by others, the counter is what was read. */
  lemma {:induction false} StillRead(env: Env, harts: nat, mem: map<nat, nat>, ops: seq<Op>, n: nat, c: nat, h: nat)
    requires ValidOps(harts, ops) && n <= |ops|
    requires OnlyIncrements(env, Reset(harts, mem), ops, c)
    requires var st := StatusAt(env, Reset(harts, mem), ops, n, h); st.Held? && env.place(h, st.addr) == Ram(c)
    requires Others(env, Reset(harts, mem), ops, n, h) == 0
    ensures Word(At(env, Reset(harts, mem), ops, n).mem, c) == LastRead(env, Reset(harts, mem), ops, n, h)
  {
    hide Passes;
    var op := ops[n - 1];
    assert ValidOp(harts, op);
    if !Reserves(env, op, h) {
      StillRead(env, harts, mem, ops, n - 1, c, h);
    }
  }

  function Wrap(x: nat): nat { x % WORD }

  lemma MemStep(env: Env, s: State, op: Op, c: nat)
    requires ValidOp(|s.harts|, op)
    ensures Word(Step(env, s, op).mem, c) ==
              if Targets(env, op, c) && (op.Sc? ==> Passes(env, s, op)) then op.val else Word(s.mem, c)
  {
    hide Passes, Bump;
  }

  /** Every store-conditional to c that goes through is sound. */
  ghost predicate AllSound(env: Env, s0: State, ops: seq<Op>, n: nat, c: nat)
    requires n <= |ops| && ValidOps(|s0.harts|, ops)
  {
    forall k :: 0 <= k < n && Targets(env, ops[k], c) && ops[k].Sc? && Passes(env, At(env, s0, ops, k), ops[k]) ==>
      Sound(env, s0, ops, k)
  }

  /** The counter holds its first value plus the successful store-conditionals,
      for every interleaving in which these are sound. */
  lemma {:induction false} CounterCounts(env: Env, harts: nat, mem: map<nat, nat>, ops: seq<Op>, n: nat, c: nat)
    requires ValidOps(harts, ops) && n <= |ops| && AllSound(env, Reset(harts, mem), ops, n, c)
    requires OnlyIncrements(env, Reset(harts, mem), ops, c) && Word(mem, c) < WORD
    ensures Word(At(env, Reset(harts, mem), ops, n).mem, c) ==
              Wrap(Word(mem, c) + Increments(env, Reset(harts, mem), ops, n, c))
  {
    hide LastRead, Others, StatusAt, Step, Passes, Word, Wrap, Bump, OnlyIncrements, Targets, Sound;
    WrapSmall(Word(mem, c));
    if n > 0 {
      CounterCounts(env, harts, mem, ops, n - 1, c);
      var s0 := Reset(harts, mem);
      var op := ops[n - 1];
      assert ValidOp(harts, op);
      MemStep(env, At(env, s0, ops, n - 1), op, c);
      if Targets(env, op, c) {
        OnlySc(env, s0, ops, n - 1, c);
      }
      if Targets(env, op, c) && Passes(env, At(env, s0, ops, n - 1), op) {
        OneMore(env, harts, mem, ops, n - 1, c);
        NextWrap(Word(mem, c) + Increments(env, s0, ops, n - 1, c));
      }
    }
  }

  /** That is every run below 2^64 operations with the counter not at address 0. */
  lemma ShortIsSound(env: Env, harts: nat, mem: map<nat, nat>, ops: seq<Op>, n: nat, c: nat)
    requires ValidOps(harts, ops) && n <= |ops| && n <= WORD
    requires forall h :: 0 <= h < harts ==> env.place(h, 0) != Ram(c)
    ensures AllSound(env, Reset(harts, mem), ops, n, c)
  {
    hide Step, Passes, Sound, At;
    var s0 := Reset(harts, mem);
    forall k | 0 <= k < n && Targets(env, ops[k], c) && ops[k].Sc? && Passes(env, At(env, s0, ops, k), ops[k])
      ensures Sound(env, s0, ops, k)
    {
      assert ValidOp(harts, ops[k]);
      Atomic(env, harts, mem, ops, k);
    }
  }

  /** And it is needed: at address 0 a store-conditional with no load-reserved
      before it sets a counter of 5 to 1. */
  lemma CounterFails(env: Env, c: nat)
    requires env.place(0, 0) == Ram(c) && !env.faults(0, 0, 8, true)
    ensures var s0, ops := Reset(1, map[c := 5]), [Sc(0, 0, 8, 1)];
            && OnlyIncrements(env, s0, ops, c) && Increments(env, s0, ops, 1, c) == 1
            && Word(At(env, s0, ops, 1).mem, c) == 1
  {
    UnreservedScPasses(env, map[c := 5], 1);
    var s0, ops := Reset(1, map[c := 5]), [Sc(0, 0, 8, 1)];
    MemStep(env, At(env, s0, ops, 0), ops[0], c);
  }

  lemma OnlySc(env: Env, s0: State, ops: seq<Op>, k: nat, c: nat)
    requires ValidOps(|s0.harts|, ops) && k < |ops| && OnlyIncrements(env, s0, ops, c) && Targets(env, ops[k], c)
    ensures ops[k].Sc? && ops[k].val == Bump(LastRead(env, s0, ops, k, ops[k].h))
  {
    hide Bump, LastRead;
  }

  /** A store-conditional to the counter that goes through adds one. */
  lemma OneMore(env: Env, harts: nat, mem: map<nat, nat>, ops: seq<Op>, n: nat, c: nat)
    requires ValidOps(harts, ops) && n < |ops| && Sound(env, Reset(harts, mem), ops, n)
    requires OnlyIncrements(env, Reset(harts, mem), ops, c)
    requires ops[n].Sc? && Targets(env, ops[n], c) && Passes(env, At(env, Reset(harts, mem), ops, n), ops[n])
    ensures ops[n].val == Bump(Word(At(env, Reset(harts, mem), ops, n).mem, c))
  {
    hide LastRead, Others, StatusAt, At, Passes, Word, Bump, OnlyIncrements;
    var s0, op := Reset(harts, mem), ops[n];
    assert ValidOp(harts, op);
    OnlySc(env, s0, ops, n, c);
    ScPasses(env, harts, mem, ops, n);
    StillRead(env, harts, mem, ops, n, c, op.h);
  }

  lemma WrapSmall(x: nat)
    requires x < WORD
    ensures Wrap(x) == x
  {
  }

  lemma NextWrap(x: nat)
    ensures Bump(Wrap(x)) == Wrap(x + 1)
  {
    SameMod(x % WORD + 1, x + 1, -(x / WORD));
  }
}
