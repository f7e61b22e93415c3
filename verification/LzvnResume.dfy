/**
  Pausing at a destination limit and resuming is invisible: however the destination is
  handed out in pieces, a stream that decodes to its end gives the same result.
 */
module LzvnResume {
  import opened Words
  import opened LzvnFormat

  /** Copying a match in two parts. */
  lemma {:induction false} CopyMatchSplit(out: seq<Byte>, D: nat, a: nat, b: nat)
    requires 1 <= D <= |out|
    ensures CopyMatch(CopyMatch(out, D, a), D, b) == CopyMatch(out, D, a + b)
    decreases a
  {
    if a > 0 {
      CopyMatchSplit(out + [out[|out| - D]], D, a - 1, b);
    }
  }

  lemma MatchedSplit(out: seq<Byte>, D: nat, a: nat, b: nat, held: Held)
    requires D <= |out| && (D == 0 ==> held.Bytes? && |out| + a + b <= |held.b|)
    ensures Matched(Matched(out, D, a, held), D, b, held) == Matched(out, D, a + b, held)
  {
    if D == 0 {
      var n := |out|;
      assert held.b[n..n + a] + held.b[n + a..n + a + b] == held.b[n..n + a + b];
    } else {
      CopyMatchSplit(out, D, a, b);
    }
  }

  /** The flag with which a call resumes a pending opcode. */
  predicate Rechecks(L: nat, M: nat) {
    L > 0 && M > 0
  }

  lemma PauseInLiteral(src: seq<Byte>, pos: nat, out: seq<Byte>, L: nat, M: nat, D: nat, checked: bool, low: nat,
                       high: nat, held: Held)
    requires Enough(held, high)
    requires pos + L <= |src| && |out| <= low <= high && L > low - |out|
    requires checked || M == 0
    ensures var r := Copy(src, pos, out, L, M, D, checked, low, held);
            Copy(src, pos, out, L, M, D, checked, high, held) ==
              Copy(src, r.src, r.out, r.L, r.M, D, Rechecks(r.L, r.M), high, held)
  {
    var room := low - |out|;
    var room' := if L > high - |out| then high - |out| else L;
    assert out + src[pos..pos + room] + src[pos + room..pos + room'] == out + src[pos..pos + room'];
  }

  lemma PauseInMatch(src: seq<Byte>, pos: nat, out: seq<Byte>, L: nat, M: nat, D: nat, checked: bool, low: nat,
                     high: nat, held: Held)
    requires Enough(held, high)
    requires pos + L <= |src| && |out| + L <= low <= high
    requires !checked ==> (L == 0 ==> D <= |out|) && (L == 0 || M == 0)
    requires Copy(src, pos, out, L, M, D, checked, low, held).Full?
    ensures var r := Copy(src, pos, out, L, M, D, checked, low, held);
            Copy(src, pos, out, L, M, D, checked, high, held) ==
              Copy(src, r.src, r.out, r.L, r.M, D, Rechecks(r.L, r.M), high, held)
  {
    var out1 := out + src[pos..pos + L];
    var a := low - |out1|;
    var out2 := Matched(out1, D, a, held);
    MatchedSplit(out1, D, a, if M > high - |out1| then high - low else M - a, held);
    assert out2 + src[pos + L..pos + L] == out2;
  }

  /** Copying that stops at `low` and goes on to `high` does what copying to `high` does. */
  lemma CopyPause(src: seq<Byte>, pos: nat, out: seq<Byte>, L: nat, M: nat, D: nat, checked: bool, low: nat,
                  high: nat, held: Held)
    requires Enough(held, high)
    requires pos + L <= |src| && |out| <= low <= high
    requires !checked ==> (L == 0 ==> D <= |out|) && (L == 0 || M == 0)
    ensures var r := Copy(src, pos, out, L, M, D, checked, low, held);
            var r' := Copy(src, pos, out, L, M, D, checked, high, held);
            if r.Full? then r' == Copy(src, r.src, r.out, r.L, r.M, D, Rechecks(r.L, r.M), high, held)
            else r' == r
  {
    if L > low - |out| {
      PauseInLiteral(src, pos, out, L, M, D, checked, low, high, held);
    } else if Copy(src, pos, out, L, M, D, checked, low, held).Full? {
      PauseInMatch(src, pos, out, L, M, D, checked, low, high, held);
    }
  }

  /** What one opcode leaves is acceptable to the next call, or to the next opcode. */
  lemma ExecuteValid(src: seq<Byte>, pos: nat, out: seq<Byte>, dist: nat, good: State, limit: nat, s: Step, held: Held)
    requires Enough(held, limit)
    requires pos < |src| && |out| <= limit && dist <= |out| && StepFits(src, pos, dist, s)
    requires s.EndOfStream? ==> pos + 8 <= |src|
    requires Settled(src, good) && |good.out| <= limit
    ensures var r := Execute(src, pos, out, dist, good, limit, s, held);
            if r.Stop? then Leaves(src, good, limit, r.outcome)
            else Settled(src, r.good) && |r.good.out| <= limit && r.good.eos == good.eos
  {}

  /** A state between opcodes. */
  ghost predicate Settled(src: seq<Byte>, st: State) {
    ValidState(src, st) && !Pending(st)
  }

  ghost predicate Leaves(src: seq<Byte>, good: State, limit: nat, r: Outcome) {
    && ValidState(src, r.state) && |r.state.out| <= limit
    && (r.exit == DestinationFull ==>
          r.state.eos == good.eos && |r.state.out| == limit && Pending(r.state) && r.state.src < |src|)
    && (r.exit == AtEnd ==> r.state.eos && Settled(src, r.state))
  }

  /** The states the decoder leaves are states it accepts. */
  lemma {:induction false} OpcodesValid(src: seq<Byte>, pos: nat, out: seq<Byte>, dist: nat, good: State,
                                        limit: nat, held: Held)
    requires Enough(held, limit)
    requires pos < |src| && |out| <= limit && dist <= |out|
    requires Settled(src, good) && |good.out| <= limit
    ensures Leaves(src, good, limit, Opcodes(src, pos, out, dist, good, limit, held))
    decreases |src| - pos
  {
    var s := StepAt(src, pos, dist);
    ExecuteValid(src, pos, out, dist, good, limit, s, held);
    match Execute(src, pos, out, dist, good, limit, s, held)
    case Stop(r) =>
    case Go(p, o, D, here) =>
      OpcodesValid(src, p, o, D, here, limit, held);
  }

  predicate Pending(st: State) {
    st.L > 0 || st.M > 0
  }

  /** An end that was recorded when it was reached does not depend on what was recorded before. */
  lemma GoodForgotten(src: seq<Byte>, pos: nat, out: seq<Byte>, dist: nat, good: State, good': State, limit: nat,
                      held: Held)
    requires Enough(held, limit)
    requires pos < |src| && |out| <= limit && dist <= |out|
    requires good' == good.(src := good'.src, out := good'.out, dPrev := good'.dPrev)
    requires Opcodes(src, pos, out, dist, good, limit, held).exit in {AtEnd, DestinationFull}
    ensures Opcodes(src, pos, out, dist, good', limit, held) == Opcodes(src, pos, out, dist, good, limit, held)
  {
    var s := StepAt(src, pos, dist);
    ExecuteForgets(src, pos, out, dist, good, good', limit, s, held);
  }

  lemma ExecuteForgets(src: seq<Byte>, pos: nat, out: seq<Byte>, dist: nat, good: State, good': State, limit: nat,
                       s: Step, held: Held)
    requires Enough(held, limit)
    requires pos < |src| && |out| <= limit && dist <= |out| && StepFits(src, pos, dist, s)
    requires good' == good.(src := good'.src, out := good'.out, dPrev := good'.dPrev)
    ensures var r := Execute(src, pos, out, dist, good, limit, s, held);
            r.Go? || r.outcome.exit in {AtEnd, DestinationFull} ==> r == Execute(src, pos, out, dist, good', limit, s, held)
  {}

  /** `st` was left at `low`, and calling the decoder on it with limit `high` goes on as `r`, the
      same opcode under the limit `high`, does. */
  ghost predicate Resumes(src: seq<Byte>, st: State, eos: bool, r: Next, low: nat, high: nat, held: Held) {
    && ValidState(src, st) && |st.out| == low <= high && Pending(st) && st.eos == eos && Enough(held, high)
    && (r.Stop? ==> r.outcome.exit != AtEnd)
    && (r.Stop? && r.outcome.exit == DestinationFull ==> Decode(src, st, high, held) == r.outcome)
    && (r.Go? ==>
          && r.src < |src| && r.dist <= |r.out| <= high && low < |r.out|
          && r.good == Cleared(st).(src := r.good.src, out := r.good.out, dPrev := r.good.dPrev)
          && Decode(src, st, high, held) == Opcodes(src, r.src, r.out, r.dist, Cleared(st), high, held))
  }

  ghost predicate Paused(r: Next) {
    r.Stop? && r.outcome.exit == DestinationFull
  }

  /** Copying and settling under two limits. */
  lemma SettlePause(src: seq<Byte>, pos: nat, out: seq<Byte>, L: nat, M: nat, D: nat, checked: bool, good: State,
                    low: nat, high: nat, held: Held)
    requires Enough(held, high)
    requires pos + L < |src| && |out| <= low < high && L <= 271 && M <= 271
    requires if checked then L <= 3 && M > 0 else (L == 0 || M == 0) && D <= |out|
    requires Settled(src, good) && |good.out| <= |out|
    ensures var r := Settle(Copy(src, pos, out, L, M, D, checked, low, held), good, D);
            var r' := Settle(Copy(src, pos, out, L, M, D, checked, high, held), good, D);
            if Paused(r) then Resumes(src, r.outcome.state, good.eos, r', low, high, held) else r' == r
  {
    hide Copy, Opcodes, CopyMatch;
    CopyPause(src, pos, out, L, M, D, checked, low, high, held);
  }

  /** One opcode under two limits. */
  lemma ExecutePause(src: seq<Byte>, pos: nat, out: seq<Byte>, dist: nat, good: State, low: nat, high: nat, s: Step,
                     held: Held)
    requires Enough(held, high)
    requires pos < |src| && |out| <= low < high && dist <= |out| && StepFits(src, pos, dist, s)
    requires Settled(src, good)
    ensures var r := Execute(src, pos, out, dist, good, low, s, held);
            var r' := Execute(src, pos, out, dist, good, high, s, held);
            if Paused(r) then Resumes(src, r.outcome.state, good.eos, r', low, high, held) else r' == r
  {
    hide Copy, Opcodes, StepAt, Decode;
    if s.Copies? {
      var here := good.(src := pos, out := out, dPrev := dist);
      assert Settled(src, here);
      SettlePause(src, pos + s.opcLen, out, s.L, s.M, s.D, s.checked, here, low, high, held);
    }
  }

  /** The output never shrinks on the way to the end of the stream. */
  lemma {:induction false} OpcodesGrow(src: seq<Byte>, pos: nat, out: seq<Byte>, dist: nat, good: State, limit: nat,
                                       held: Held)
    requires Enough(held, limit)
    requires pos < |src| && |out| <= limit && dist <= |out|
    ensures var r := Opcodes(src, pos, out, dist, good, limit, held);
            r.exit == AtEnd ==> |out| <= |r.state.out|
    decreases |src| - pos
  {
    var s := StepAt(src, pos, dist);
    ExecuteGrows(src, pos, out, dist, good, limit, s, held);
    match Execute(src, pos, out, dist, good, limit, s, held)
    case Stop(_) =>
    case Go(p, o, D, here) => OpcodesGrow(src, p, o, D, here, limit, held);
  }

  lemma ExecuteGrows(src: seq<Byte>, pos: nat, out: seq<Byte>, dist: nat, good: State, limit: nat, s: Step, held: Held)
    requires Enough(held, limit)
    requires pos < |src| && |out| <= limit && dist <= |out| && StepFits(src, pos, dist, s)
    ensures var r := Execute(src, pos, out, dist, good, limit, s, held);
            if r.Go? then |out| <= |r.out| else r.outcome.exit == AtEnd ==> r.outcome.state.out == out
  {}

  /** What a run that stopped at `low` with result `r` has to do with `r'`, the same run under a
      larger limit: it is the same unless it was paused, and a pause loses nothing if the longer
      run is stopped by the end of the stream or by its own limit. */
  ghost predicate Extends(src: seq<Byte>, r: Outcome, r': Outcome, low: nat, high: nat, held: Held) {
    if r.exit != DestinationFull then r' == r
    else
      && ValidState(src, r.state) && |r.state.out| == low <= high && Pending(r.state) && Enough(held, high)
      && (r'.exit in {AtEnd, DestinationFull} ==> Decode(src, r.state, high, held) == r')
      && (r'.exit == AtEnd ==> low < |r'.state.out| && !r.state.eos)
  }

  lemma {:induction false} OpcodesPause(src: seq<Byte>, pos: nat, out: seq<Byte>, dist: nat, good: State, low: nat,
                                        high: nat, held: Held)
    requires Enough(held, high)
    requires pos < |src| && |out| <= low < high && dist <= |out|
    requires Settled(src, good) && |good.out| <= low && !good.eos
    ensures Extends(src, Opcodes(src, pos, out, dist, good, low, held), Opcodes(src, pos, out, dist, good, high, held),
                    low, high, held)
    decreases |src| - pos
  {
    var s := StepAt(src, pos, dist);
    ExecuteValid(src, pos, out, dist, good, low, s, held);
    ExecutePause(src, pos, out, dist, good, low, high, s, held);
    var r, r' := Execute(src, pos, out, dist, good, low, s, held), Execute(src, pos, out, dist, good, high, s, held);
    if r.Go? {
      OpcodesPause(src, r.src, r.out, r.dist, r.good, low, high, held);
    } else if Paused(r) && r'.Go? {
      PausedThenGo(src, r.outcome.state, r', low, high, held);
    }
  }

  lemma PausedThenGo(src: seq<Byte>, st: State, r: Next, low: nat, high: nat, held: Held)
    requires Enough(held, high)
    requires low < high && Resumes(src, st, false, r, low, high, held) && r.Go?
    ensures Extends(src, Outcome(st, DestinationFull), Opcodes(src, r.src, r.out, r.dist, r.good, high, held),
                    low, high, held)
  {
    var r' := Opcodes(src, r.src, r.out, r.dist, r.good, high, held);
    if r'.exit in {AtEnd, DestinationFull} {
      GoodForgotten(src, r.src, r.out, r.dist, r.good, Cleared(st), high, held);
    }
    OpcodesGrow(src, r.src, r.out, r.dist, r.good, high, held);
  }

  /** A call that is paused at `low` and resumed with limit `high` does what a call with limit `high` does. */
  lemma DecodePause(src: seq<Byte>, st: State, low: nat, high: nat, held: Held)
    requires Enough(held, high)
    requires ValidState(src, st) && |st.out| < low < high && st.src < |src| && !st.eos
    ensures Extends(src, Decode(src, st, low, held), Decode(src, st, high, held), low, high, held)
  {
    hide Copy, Opcodes, CopyMatch;
    if !Pending(st) {
      OpcodesPause(src, st.src, st.out, st.dPrev, st, low, high, held);
    } else {
      var checked := st.L > 0 && st.M > 0;
      SettlePause(src, st.src, st.out, st.L, st.M, st.D, checked, Cleared(st), low, high, held);
      var r := Settle(Copy(src, st.src, st.out, st.L, st.M, st.D, checked, low, held), Cleared(st), st.D);
      var r' := Settle(Copy(src, st.src, st.out, st.L, st.M, st.D, checked, high, held), Cleared(st), st.D);
      if r.Go? {
        OpcodesPause(src, r.src, r.out, r.dist, r.good, low, high, held);
      } else if Paused(r) && r'.Go? {
        PausedThenGo(src, r.outcome.state, r', low, high, held);
      }
    }
  }

  lemma SettleValid(src: seq<Byte>, pos: nat, out: seq<Byte>, L: nat, M: nat, D: nat, checked: bool, good: State,
                    limit: nat, held: Held)
    requires Enough(held, limit)
    requires pos + L < |src| && |out| <= limit && L <= 271 && M <= 271
    requires if checked then L <= 3 && M > 0 else (L == 0 || M == 0) && D <= |out|
    requires Settled(src, good) && |good.out| <= limit
    ensures var r := Settle(Copy(src, pos, out, L, M, D, checked, limit, held), good, D);
            if r.Stop? then Leaves(src, good, limit, r.outcome) else r.good == good && r.src == pos + L
  {}

  /** A call leaves a state that can be passed back, and that stays within the limit. */
  lemma DecodeValid(src: seq<Byte>, st: State, limit: nat, held: Held)
    requires Enough(held, limit)
    requires ValidState(src, st) && |st.out| <= limit
    ensures ValidState(src, Decode(src, st, limit, held).state) && |Decode(src, st, limit, held).state.out| <= limit
    ensures Decode(src, st, limit, held).exit == AtEnd ==> Decode(src, st, limit, held).state.eos
  {
    if st.src < |src| && |st.out| < limit {
      if !Pending(st) {
        OpcodesValid(src, st.src, st.out, st.dPrev, st, limit, held);
      } else {
        var checked := st.L > 0 && st.M > 0;
        SettleValid(src, st.src, st.out, st.L, st.M, st.D, checked, Cleared(st), limit, held);
        var r := Settle(Copy(src, st.src, st.out, st.L, st.M, st.D, checked, limit, held), Cleared(st), st.D);
        if r.Go? {
          OpcodesValid(src, r.src, r.out, r.dist, r.good, limit, held);
        }
      }
    }
  }

  ghost predicate Growing(limits: seq<nat>) {
    forall i, j :: 0 <= i < j < |limits| ==> limits[i] <= limits[j]
  }

  /** A caller that hands out the destination piece by piece until the end of the stream. */
  ghost function Drive(src: seq<Byte>, st: State, limits: seq<nat>, held: Held): (r: State)
    requires ValidState(src, st) && Growing(limits) && (limits != [] ==> |st.out| <= limits[0])
    requires limits != [] ==> Enough(held, limits[|limits| - 1])
    decreases |limits|
  {
    if limits == [] || st.eos then st
    else
      DecodeValid(src, st, limits[0], held);
      Drive(src, Decode(src, st, limits[0], held).state, limits[1..], held)
  }

  /** One more piece: the call either is paused, with nothing lost, or it ends as the whole run does. */
  lemma NextPiece(src: seq<Byte>, st: State, low: nat, high: nat, held: Held)
    requires Enough(held, high) && Enough(held, low)
    requires ValidState(src, st) && !st.eos && st.src < |src| && |st.out| < low && |st.out| < high
    requires Decode(src, st, high, held).exit == AtEnd
    ensures Piece(src, Decode(src, st, low, held), Decode(src, st, high, held), low, high, held)
  {
    hide Decode;
    if low < high {
      SmallerPiece(src, st, low, high, held);
    } else if high < low {
      LargerPiece(src, st, high, low, held);
    }
  }

  lemma SmallerPiece(src: seq<Byte>, st: State, low: nat, high: nat, held: Held)
    requires Enough(held, high)
    requires ValidState(src, st) && !st.eos && st.src < |src| && |st.out| < low < high
    requires Decode(src, st, high, held).exit == AtEnd
    ensures Piece(src, Decode(src, st, low, held), Decode(src, st, high, held), low, high, held)
  {
    hide Decode;
    DecodePause(src, st, low, high, held);
    ExtendsPiece(src, Decode(src, st, low, held), Decode(src, st, high, held), low, high, held);
  }

  lemma LargerPiece(src: seq<Byte>, st: State, low: nat, high: nat, held: Held)
    requires Enough(held, high)
    requires ValidState(src, st) && !st.eos && st.src < |src| && |st.out| < low < high
    requires Decode(src, st, low, held).exit == AtEnd
    ensures Decode(src, st, high, held) == Decode(src, st, low, held)
  {
    hide Decode;
    DecodePause(src, st, low, high, held);
  }

  lemma ExtendsPiece(src: seq<Byte>, r: Outcome, full: Outcome, low: nat, high: nat, held: Held)
    requires Enough(held, high)
    requires low < high && Extends(src, r, full, low, high, held) && full.exit == AtEnd
    ensures Piece(src, r, full, low, high, held)
  {}

  ghost predicate Piece(src: seq<Byte>, r: Outcome, full: Outcome, low: nat, high: nat, held: Held) {
    || r == full
    || (&& r.exit == DestinationFull && !r.state.eos && ValidState(src, r.state) && |r.state.out| == low < high
        && Enough(held, high)
        && Decode(src, r.state, high, held) == full && low < |full.state.out|)
  }

  lemma NotIdle(src: seq<Byte>, st: State, limit: nat, held: Held)
    requires Enough(held, limit)
    requires ValidState(src, st) && |st.out| <= limit && Decode(src, st, limit, held).exit != Idle
    ensures st.src < |src| && |st.out| < limit
  {}

  lemma FullCall(src: seq<Byte>, st: State, limit: nat, held: Held)
    requires Enough(held, limit)
    requires ValidState(src, st) && |st.out| == limit
    ensures Decode(src, st, limit, held) == Outcome(st, Idle)
  {}

  /** However the destination grows, a stream that one call with a large destination decodes to its end
      leaves the same output, positions and distance, and is reported as ended. */
  lemma {:induction false} PauseTransparent(src: seq<Byte>, st: State, limits: seq<nat>, high: nat, held: Held)
    requires Enough(held, high) && (limits != [] ==> Enough(held, limits[|limits| - 1]))
    requires ValidState(src, st) && !st.eos && Growing(limits) && limits != []
    requires |st.out| <= limits[0] && |st.out| <= high && Decode(src, st, high, held).exit == AtEnd
    requires |Decode(src, st, high, held).state.out| <= limits[|limits| - 1] && |st.out| < limits[|limits| - 1]
    ensures Drive(src, st, limits, held) == Decode(src, st, high, held).state
    decreases |limits|
  {
    hide Decode;
    var low, rest := limits[0], limits[1..];
    var full := Decode(src, st, high, held);
    DecodeValid(src, st, high, held);
    DecodeValid(src, st, low, held);
    var r := Decode(src, st, low, held);
    assert Drive(src, st, limits, held) == Drive(src, r.state, rest, held);
    assert rest != [] ==> rest[|rest| - 1] == limits[|limits| - 1];
    if |st.out| == low {
      FullCall(src, st, low, held);
      PauseTransparent(src, st, rest, high, held);
    } else {
      NotIdle(src, st, high, held);
      NextPiece(src, st, low, high, held);
      if r != full {
        PauseTransparent(src, r.state, rest, high, held);
      }
    }
  }
}
