/**
  Matches with distance 0: exactly which streams have them, and that nothing else makes the output depend on what
  the destination held before.
 */
module LzvnZero {
  import opened Words
  import opened LzvnFormat
  import opened LzvnResume

  /** From `pos` on, with no distance given so far and `n` bytes produced: the first opcode with a match has no distance
      of its own, and the literals in front of it stay below `limit`. */
  predicate ZeroFrom(src: seq<Byte>, pos: nat, n: nat, limit: nat)
    decreases |src| - pos
  {
    && pos < |src|
    && var s := StepAt(src, pos, 0);
    && s.Copies?
    && if s.M > 0 then !s.checked else n + s.L <= limit && ZeroFrom(src, pos + s.opcLen + s.L, n + s.L, limit)
  }

  /** A call will come to a match with distance 0. */
  predicate ZeroAhead(src: seq<Byte>, st: State, limit: nat) {
    && st.src < |src| && |st.out| < limit
    && if st.L == 0 && st.M == 0 then st.dPrev == 0 && ZeroFrom(src, st.src, |st.out|, limit)
       else if st.M > 0 then st.L == 0 && st.D == 0
       else st.D == 0 && |st.out| + st.L <= limit && ZeroFrom(src, st.src + st.L, |st.out| + st.L, limit)
  }

  /** The length of the match with distance 0 that comes first, or 0. */
  function ZeroLength(src: seq<Byte>, pos: nat, dist: nat): (n: nat) {
    if pos < |src| && dist == 0 then
      var s := StepAt(src, pos, 0);
      if s.Copies? && !s.checked then s.M else 0
    else 0
  }

  /** The same for a call, which may have such a match pending. */
  function ZeroPending(src: seq<Byte>, st: State): (n: nat) {
    if st.L == 0 && st.M == 0 then ZeroLength(src, st.src, st.dPrev)
    else if st.L == 0 && st.D == 0 then st.M
    else 0
  }

  /** One opcode: when it comes to distance 0, and how the distance goes on. */
  lemma ExecuteZero(src: seq<Byte>, pos: nat, out: seq<Byte>, dist: nat, good: State, limit: nat, s: Step)
    requires pos < |src| && |out| <= limit && dist <= |out| && s == StepAt(src, pos, dist)
    ensures var r := Execute(src, pos, out, dist, good, limit, s, Unknown);
            && (r.Stop? && r.outcome.exit == ZeroDistance <==> dist == 0 && s.Copies? && s.M > 0 && !s.checked)
            && (r.Go? ==> s.Copies? && r.src == pos + s.opcLen + s.L)
            && (r.Go? && s.M > 0 ==> r.dist > 0)
            && (r.Go? && s.M == 0 ==> r.dist == dist && |r.out| == |out| + s.L)
            && (s.Copies? && s.M == 0 ==> (r.Go? <==> |out| + s.L <= limit))
  {
    hide StepAt, CopyMatch;
  }

  lemma {:induction false} OpcodesZero(src: seq<Byte>, pos: nat, out: seq<Byte>, dist: nat, good: State, limit: nat)
    requires pos < |src| && |out| <= limit && dist <= |out|
    ensures Opcodes(src, pos, out, dist, good, limit, Unknown).exit == ZeroDistance <==>
              dist == 0 && ZeroFrom(src, pos, |out|, limit)
    decreases |src| - pos
  {
    hide Execute, StepAt;
    var s := StepAt(src, pos, dist);
    ExecuteZero(src, pos, out, dist, good, limit, s);
    var r := Execute(src, pos, out, dist, good, limit, s, Unknown);
    if r.Go? {
      OpcodesZero(src, r.src, r.out, r.dist, r.good, limit);
    }
  }

  lemma PendingZero(src: seq<Byte>, st: State, limit: nat)
    requires ValidState(src, st) && st.src < |src| && |st.out| < limit && (st.L > 0 || st.M > 0)
    ensures var c := Copy(src, st.src, st.out, st.L, st.M, st.D, st.L > 0 && st.M > 0, limit, Unknown);
            var r := Settle(c, Cleared(st), st.D);
            && (r.Stop? && r.outcome.exit == ZeroDistance <==> st.M > 0 && st.L == 0 && st.D == 0)
            && (r.Go? ==> r.dist == st.D && r.src == st.src + st.L < |src| && r.dist <= |r.out| <= limit)
            && (r.Go? && st.M > 0 ==> st.D > 0)
            && (st.M == 0 ==> (r.Go? <==> |st.out| + st.L <= limit))
            && (r.Go? && st.M == 0 ==> |r.out| == |st.out| + st.L)
  {
    hide CopyMatch;
  }

  /** The reference meets a match with distance 0 exactly if the stream has one ahead. */
  lemma ZeroExactly(src: seq<Byte>, st: State, limit: nat)
    requires ValidState(src, st) && |st.out| <= limit
    ensures Decode(src, st, limit, Unknown).exit == ZeroDistance <==> ZeroAhead(src, st, limit)
  {
    hide Opcodes, Copy, ZeroFrom;
    if st.src < |src| && |st.out| < limit {
      if st.L == 0 && st.M == 0 {
        OpcodesZero(src, st.src, st.out, st.dPrev, st, limit);
      } else {
        PendingZero(src, st, limit);
        var r := Settle(Copy(src, st.src, st.out, st.L, st.M, st.D, st.L > 0 && st.M > 0, limit, Unknown), Cleared(st), st.D);
        if r.Go? {
          OpcodesZero(src, r.src, r.out, r.dist, r.good, limit);
        }
      }
    }
  }

  lemma CopyKnown(src: seq<Byte>, pos: nat, out: seq<Byte>, L: nat, M: nat, D: nat, checked: bool, limit: nat, held: Held)
    requires pos + L <= |src| && |out| <= limit && Enough(held, limit)
    requires !checked ==> (L == 0 ==> D <= |out|) && (L == 0 || M == 0)
    requires !Copy(src, pos, out, L, M, D, checked, limit, Unknown).Zero?
    ensures Copy(src, pos, out, L, M, D, checked, limit, held) == Copy(src, pos, out, L, M, D, checked, limit, Unknown)
  {
    hide CopyMatch;
  }

  lemma ExecuteKnown(src: seq<Byte>, pos: nat, out: seq<Byte>, dist: nat, good: State, limit: nat, s: Step, held: Held)
    requires pos < |src| && |out| <= limit && dist <= |out| && StepFits(src, pos, dist, s) && Enough(held, limit)
    requires var r := Execute(src, pos, out, dist, good, limit, s, Unknown); r.Stop? ==> r.outcome.exit != ZeroDistance
    ensures Execute(src, pos, out, dist, good, limit, s, held) == Execute(src, pos, out, dist, good, limit, s, Unknown)
  {
    hide Copy;
    if s.Copies? {
      CopyKnown(src, pos + s.opcLen, out, s.L, s.M, s.D, s.checked, limit, held);
    }
  }

  lemma {:induction false} OpcodesKnown(src: seq<Byte>, pos: nat, out: seq<Byte>, dist: nat, good: State, limit: nat,
                                        held: Held)
    requires pos < |src| && |out| <= limit && dist <= |out| && Enough(held, limit)
    requires Opcodes(src, pos, out, dist, good, limit, Unknown).exit != ZeroDistance
    ensures Opcodes(src, pos, out, dist, good, limit, held) == Opcodes(src, pos, out, dist, good, limit, Unknown)
    decreases |src| - pos
  {
    hide Execute, StepAt;
    var s := StepAt(src, pos, dist);
    ExecuteKnown(src, pos, out, dist, good, limit, s, held);
    var r := Execute(src, pos, out, dist, good, limit, s, Unknown);
    if r.Go? {
      OpcodesKnown(src, r.src, r.out, r.dist, r.good, limit, held);
    }
  }

  /** Without a match with distance 0 ahead, what the destination held does not matter. */
  lemma HeldIrrelevant(src: seq<Byte>, st: State, limit: nat, held: Held)
    requires ValidState(src, st) && |st.out| <= limit && Enough(held, limit) && !ZeroAhead(src, st, limit)
    ensures Decode(src, st, limit, held) == Decode(src, st, limit, Unknown)
  {
    ZeroExactly(src, st, limit);
    hide Opcodes, Copy, ZeroAhead;
    if st.src < |src| && |st.out| < limit {
      if st.L == 0 && st.M == 0 {
        OpcodesKnown(src, st.src, st.out, st.dPrev, st, limit, held);
      } else {
        var checked := st.L > 0 && st.M > 0;
        CopyKnown(src, st.src, st.out, st.L, st.M, st.D, checked, limit, held);
        var r := Settle(Copy(src, st.src, st.out, st.L, st.M, st.D, checked, limit, Unknown), Cleared(st), st.D);
        if r.Go? {
          OpcodesKnown(src, r.src, r.out, r.dist, r.good, limit, held);
        }
      }
    }
  }

  /** A match of one byte before any distance, then the end of the stream. */
  const LEFTOVER: seq<Byte> := [0xF1, 6, 0, 0, 0, 0, 0, 0, 0]

  /** A stream whose output is whatever the destination held. */
  lemma Leftover(limit: nat, held: Held)
    requires limit > 0 && held.Bytes? && Enough(held, limit)
    ensures ZeroAhead(LEFTOVER, START, limit)
    ensures Decode(LEFTOVER, START, limit, held) == Outcome(State(9, [held.b[0]], 0, 0, 0, 0, true), AtEnd)
  {
    var src := LEFTOVER;
    var s := StepAt(src, 0, 0);
    assert s == Copies(1, 0, 1, 0, false);
    var out: seq<Byte> := [held.b[0]];
    assert [] + src[1..1] == [] && [] + held.b[0..1] == out;
    assert Copy(src, 1, [], 0, 1, 0, false, limit, held) == Done(1, out);
    assert StepAt(src, 1, 0) == EndOfStream;
  }

  // ---------------------------------------------- bytes known only after they are handed out

  /** Two destinations hold the same in their first `n` bytes. */
  predicate Agree(h1: Held, h2: Held, n: nat) {
    h1.Bytes? && h2.Bytes? && n <= |h1.b| && n <= |h2.b| && h1.b[..n] == h2.b[..n]
  }

  lemma AgreeBelow(h1: Held, h2: Held, n: nat, m: nat)
    requires Agree(h1, h2, n) && m <= n
    ensures Agree(h1, h2, m)
    ensures forall a, b | 0 <= a <= b <= m :: h1.b[a..b] == h2.b[a..b]
  {
    forall a, b | 0 <= a <= b <= m
      ensures h1.b[a..b] == h2.b[a..b]
    {
      var x, y := h1.b[..n], h2.b[..n];
      assert x[a..b] == h1.b[a..b];
      assert y[a..b] == h2.b[a..b];
    }
    assert h1.b[..m] == h1.b[0..m] && h2.b[..m] == h2.b[0..m];
  }

  /** A copy uses only what the destination holds below its end. */
  lemma CopyAgrees(src: seq<Byte>, pos: nat, out: seq<Byte>, L: nat, M: nat, D: nat, checked: bool, limit: nat,
                   h1: Held, h2: Held)
    requires pos + L <= |src| && |out| <= limit && Enough(h1, limit) && Enough(h2, limit)
    requires !checked ==> (L == 0 ==> D <= |out|) && (L == 0 || M == 0)
    requires Copy(src, pos, out, L, M, D, checked, limit, h1).Done?
    requires Agree(h1, h2, |Copy(src, pos, out, L, M, D, checked, limit, h1).out|)
    ensures Copy(src, pos, out, L, M, D, checked, limit, h2) == Copy(src, pos, out, L, M, D, checked, limit, h1)
  {
    hide CopyMatch;
    var n := |Copy(src, pos, out, L, M, D, checked, limit, h1).out|;
    AgreeBelow(h1, h2, n, n);
  }

  lemma ExecuteAgrees(src: seq<Byte>, pos: nat, out: seq<Byte>, dist: nat, good: State, limit: nat, s: Step,
                      h1: Held, h2: Held)
    requires pos < |src| && |out| <= limit && dist <= |out| && StepFits(src, pos, dist, s)
    requires Enough(h1, limit) && Enough(h2, limit)
    requires Execute(src, pos, out, dist, good, limit, s, h1).Go?
    requires Agree(h1, h2, |Execute(src, pos, out, dist, good, limit, s, h1).out|)
    ensures Execute(src, pos, out, dist, good, limit, s, h2) == Execute(src, pos, out, dist, good, limit, s, h1)
  {
    hide Copy;
    if s.Copies? {
      CopyAgrees(src, pos + s.opcLen, out, s.L, s.M, s.D, s.checked, limit, h1, h2);
    }
  }

  /** Where `n` opcodes from `start` on lead. */
  ghost function Reach(src: seq<Byte>, start: Next, limit: nat, held: Held, n: nat): (r: Next)
    requires start.Go? && start.src < |src| && start.dist <= |start.out| <= limit && Enough(held, limit)
    ensures r.Go? ==> r.src < |src| && r.dist <= |r.out| <= limit
  {
    if n == 0 then start
    else
      match Reach(src, start, limit, held, n - 1)
      case Stop(o) => Stop(o)
      case Go(p, o, d, good) => Execute(src, p, o, d, good, limit, StepAt(src, p, d), held)
  }

  lemma {:induction false} ReachGrows(src: seq<Byte>, start: Next, limit: nat, held: Held, n: nat)
    requires start.Go? && start.src < |src| && start.dist <= |start.out| <= limit && Enough(held, limit)
    requires n > 0 && Reach(src, start, limit, held, n).Go?
    ensures var r := Reach(src, start, limit, held, n - 1);
            r.Go? && |r.out| <= |Reach(src, start, limit, held, n).out|
  {
    hide Execute, StepAt;
    var r := Reach(src, start, limit, held, n - 1);
    if r.Go? {
      ExecuteGrows(src, r.src, r.out, r.dist, r.good, limit, StepAt(src, r.src, r.dist), held);
    }
  }

  /** The opcodes so far do not depend on what the destination holds beyond their output. */
  lemma {:induction false} ReachAgrees(src: seq<Byte>, start: Next, limit: nat, h1: Held, h2: Held, n: nat)
    requires start.Go? && start.src < |src| && start.dist <= |start.out| <= limit && Enough(h1, limit) && Enough(h2, limit)
    requires Reach(src, start, limit, h1, n).Go? && Agree(h1, h2, |Reach(src, start, limit, h1, n).out|)
    ensures Reach(src, start, limit, h2, n) == Reach(src, start, limit, h1, n)
    decreases n
  {
    hide Execute, StepAt;
    if n > 0 {
      ReachGrows(src, start, limit, h1, n);
      var r := Reach(src, start, limit, h1, n - 1);
      AgreeBelow(h1, h2, |Reach(src, start, limit, h1, n).out|, |r.out|);
      ReachAgrees(src, start, limit, h1, h2, n - 1);
      ExecuteAgrees(src, r.src, r.out, r.dist, r.good, limit, StepAt(src, r.src, r.dist), h1, h2);
    }
  }

  /** The whole run goes on from wherever its first opcodes lead. */
  lemma {:induction false} ReachOpcodes(src: seq<Byte>, start: Next, limit: nat, held: Held, n: nat)
    requires start.Go? && start.src < |src| && start.dist <= |start.out| <= limit && Enough(held, limit)
    ensures var r := Reach(src, start, limit, held, n);
            Opcodes(src, start.src, start.out, start.dist, start.good, limit, held) ==
              if r.Go? then Opcodes(src, r.src, r.out, r.dist, r.good, limit, held) else r.outcome
    decreases n
  {
    hide Execute, StepAt;
    if n > 0 {
      ReachOpcodes(src, start, limit, held, n - 1);
    }
  }
}
