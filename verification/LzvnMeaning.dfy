/**
  What an LZVN stream means, without limits and pauses: opcodes expand one after the other.
  Every exit of the decoder is explained by this meaning, and a stream printed from a list
  of operations decodes to the expansion of the list.
 */
module LzvnMeaning {
  import opened Words
  import opened LzvnFormat
  import opened LzvnResume

  datatype Option<T> = None | Some(value: T)

  // ------------------------------------------------------------- meaning of opcodes

  /** The output after a literal and a match, unless the distance does not lie in the output. An opcode without a
      distance of its own takes what the destination holds if no distance was given before. */
  function Expanded(out: seq<Byte>, lits: seq<Byte>, M: nat, D: nat, checked: bool, held: Held): (r: Option<seq<Byte>>) {
    var out1 := out + lits;
    if M == 0 then Some(out1)
    else if 1 <= D <= |out1| then Some(CopyMatch(out1, D, M))
    else if D == 0 && !checked && held.Bytes? && |out1| + M <= |held.b| then Some(Matched(out1, 0, M, held))
    else None
  }

  /** A place between opcodes. */
  datatype Spot = Spot(src: nat, out: seq<Byte>, dist: nat)

  function Literal(src: seq<Byte>, pos: nat, s: Step): (r: seq<Byte>)
    requires s.Copies? && pos + s.opcLen + s.L <= |src|
  {
    src[pos + s.opcLen..pos + s.opcLen + s.L]
  }

  /** The place after the opcode at `p`, if it is one that copies and its distance is good. */
  function Advance(src: seq<Byte>, p: Spot, held: Held): (r: Option<Spot>) {
    if p.src >= |src| then None
    else
      var s := StepAt(src, p.src, p.dist);
      if !s.Copies? then None
      else
        match Expanded(p.out, Literal(src, p.src, s), s.M, s.D, s.checked, held)
        case None => None
        case Some(o) => Some(Spot(p.src + s.opcLen + s.L, o, s.D))
  }

  /** The place after `n` opcodes. */
  function After(src: seq<Byte>, n: nat, held: Held): (r: Option<Spot>) {
    if n == 0 then Some(Spot(0, [], 0))
    else
      match After(src, n - 1, held)
      case None => None
      case Some(p) => Advance(src, p, held)
  }

  // -------------------------------------------------------------- explaining an exit

  /** `st` stands inside the opcode at `p`, after part of its literal or of its match. */
  ghost predicate Within(src: seq<Byte>, p: Spot, st: State, held: Held) {
    && p.src < |src| && st.dPrev == p.dist
    && var s := StepAt(src, p.src, p.dist);
    && s.Copies? && st.D == s.D && st.L <= s.L && st.M <= s.M
    && st.src == p.src + s.opcLen + (s.L - st.L)
    && (if st.L > 0 then st.M == s.M && st.out == p.out + src[p.src + s.opcLen..st.src]
        else Expanded(p.out, Literal(src, p.src, s), s.M - st.M, s.D, s.checked, held) == Some(st.out))
  }

  const ORIGIN := Spot(0, [], 0)

  function Boundary(p: Spot): (st: State) {
    State(p.src, p.out, 0, 0, 0, p.dist, false)
  }

  /** The opcode after the one at `p` is `what`, or `p` is where decoding starts and the opcode there is. */
  ghost predicate LeadsTo(src: seq<Byte>, p: Spot, what: Step, held: Held) {
    || (p == ORIGIN && src != [] && StepAt(src, 0, 0) == what)
    || (&& var q := Advance(src, p, held);
        q.Some? && q.value.src < |src| && StepAt(src, q.value.src, q.value.dist) == what)
  }

  /** What is reported on each exit, `p` being the place after some opcodes. Nothing that was expanded is lost: a
      truncated opcode or one with a bad distance is reported where it starts, and one that is undefined, or an
      end-of-stream opcode without its eight bytes, where the opcode before it starts. A distance of 0 is only ever
      met by an opcode without a distance of its own that comes before any distance was given. */
  ghost predicate Explained(src: seq<Byte>, p: Spot, r: Outcome, held: Held) {
    match r.exit
    case AtEnd =>
      && p.src < |src| && StepAt(src, p.src, p.dist) == EndOfStream
      && r.state == State(p.src + 8, p.out, 0, 0, 0, p.dist, true)
    case DestinationFull => Pending(r.state) && Within(src, p, r.state, held)
    case SourceTruncated =>
      && r.state == Boundary(p) && p.src < |src|
      && (StepAt(src, p.src, p.dist) == Truncated || LeadsTo(src, p, EndTruncated, held))
    case UndefinedOpcode => r.state == Boundary(p) && LeadsTo(src, p, Undefined, held)
    case BadDistance =>
      && r.state == Boundary(p) && p.src < |src|
      && var s := StepAt(src, p.src, p.dist);
      s.Copies? && Expanded(p.out, Literal(src, p.src, s), s.M, s.D, s.checked, held).None?
    case ZeroDistance =>
      && r.state == Boundary(p) && held.Unknown? && p.src < |src| && p.dist == 0
      && var s := StepAt(src, p.src, 0);
      s.Copies? && !s.checked && s.M > 0
    case Idle => p == ORIGIN && r.state == Boundary(p)
  }

  /** Copying under a limit agrees with the meaning of the opcode, or with part of it. */
  lemma CopyMeaning(src: seq<Byte>, pos: nat, out: seq<Byte>, s: Step, limit: nat, dist: nat, held: Held)
    requires Enough(held, limit)
    requires pos < |src| && s.Copies? && StepFits(src, pos, dist, s) && dist <= |out| <= limit
    ensures var c := Copy(src, pos + s.opcLen, out, s.L, s.M, s.D, s.checked, limit, held);
            && (c.Done? ==> Expanded(out, Literal(src, pos, s), s.M, s.D, s.checked, held) == Some(c.out))
            && (c.Done? ==> c.src == pos + s.opcLen + s.L)
            && (c.Full? && c.L == 0 ==> Expanded(out, Literal(src, pos, s), s.M - c.M, s.D, s.checked, held) == Some(c.out))
            && (c.Full? && c.L > 0 ==> c.out == out + src[pos + s.opcLen..c.src])
            && (c.Zero? ==> !s.checked && s.M > 0 && s.D == 0 && held.Unknown?)
            && (c.Bad? ==> Expanded(out, Literal(src, pos, s), s.M, s.D, s.checked, held).None?)
  {
    var out1 := out + Literal(src, pos, s);
    if |out1| <= limit && held.Bytes? {
      assert out1 + held.b[|out1|..|out1|] == out1;
    }
  }

  lemma CopiesExplained(src: seq<Byte>, p: Spot, limit: nat, s: Step, held: Held)
    requires Enough(held, limit)
    requires p.src < |src| && p.dist <= |p.out| <= limit && s == StepAt(src, p.src, p.dist) && s.Copies?
    ensures var c := Copy(src, p.src + s.opcLen, p.out, s.L, s.M, s.D, s.checked, limit, held);
            var r := Settle(c, Boundary(p), s.D);
            && (r.Go? ==> Advance(src, p, held) == Some(Spot(r.src, r.out, r.dist)) && r.good == Boundary(p))
            && (r.Stop? ==> Explained(src, p, r.outcome, held) && r.outcome.exit != Idle)
  {
    hide StepAt, Copy, CopyMatch, Expanded;
    CopyMeaning(src, p.src, p.out, s, limit, p.dist, held);
  }

  lemma RefusalExplained(src: seq<Byte>, p: Spot, q: Spot, limit: nat, s: Step, held: Held)
    requires Enough(held, limit)
    requires p.src < |src| && p.dist <= |p.out| <= limit && s == StepAt(src, p.src, p.dist) && !s.Copies?
    requires p == q == ORIGIN || Advance(src, q, held) == Some(p)
    ensures var r := Execute(src, p.src, p.out, p.dist, Boundary(q), limit, s, held);
            && r.Stop? && r.outcome.exit != Idle
            && (Explained(src, p, r.outcome, held) || Explained(src, q, r.outcome, held))
  {
    hide StepAt, Copy, Settle, Within, Advance;
    if s == EndTruncated || s == Undefined {
      assert LeadsTo(src, q, s, held);
      assert q.src < |src| by {
        Advances(src, q, p, held);
      }
    }
  }

  lemma Advances(src: seq<Byte>, q: Spot, p: Spot, held: Held)
    requires p.src < |src| && (p == q == ORIGIN || Advance(src, q, held) == Some(p))
    ensures q.src < |src|
  {}

  /** One opcode: its exit is explained by the place before it or by `q`, the place last recorded. */
  lemma ExecuteExplained(src: seq<Byte>, p: Spot, q: Spot, limit: nat, s: Step, held: Held)
    requires Enough(held, limit)
    requires p.src < |src| && p.dist <= |p.out| <= limit && s == StepAt(src, p.src, p.dist)
    requires p == q == ORIGIN || Advance(src, q, held) == Some(p)
    ensures var r := Execute(src, p.src, p.out, p.dist, Boundary(q), limit, s, held);
            && (r.Go? ==> Advance(src, p, held) == Some(Spot(r.src, r.out, r.dist)) && r.good == Boundary(p))
            && (r.Stop? ==> Explained(src, p, r.outcome, held) || Explained(src, q, r.outcome, held))
            && (r.Stop? ==> r.outcome.exit != Idle)
  {
    hide StepAt, Copy, Settle, Explained, Advance;
    if s.Copies? {
      CopiesExplained(src, p, limit, s, held);
    } else {
      RefusalExplained(src, p, q, limit, s, held);
    }
  }

  /** Where the output and the source of a run that has come to `p` end up. */
  lemma {:induction false} OpcodesExplained(src: seq<Byte>, n: nat, k: nat, limit: nat, held: Held) returns (m: nat)
    requires Enough(held, limit)
    requires After(src, n, held).Some? && After(src, k, held).Some? && (n == k == 0 || n == k + 1)
    requires var p := After(src, n, held).value; p.src < |src| && p.dist <= |p.out| <= limit
    ensures var p, q := After(src, n, held).value, After(src, k, held).value;
            var r := Opcodes(src, p.src, p.out, p.dist, Boundary(q), limit, held);
            After(src, m, held).Some? && Explained(src, After(src, m, held).value, r, held) && r.exit != Idle
    decreases |src| - After(src, n, held).value.src
  {
    hide StepAt, Execute, Explained, Advance;
    var p, q := After(src, n, held).value, After(src, k, held).value;
    assert n == k + 1 ==> Advance(src, q, held) == Some(p);
    var s := StepAt(src, p.src, p.dist);
    ExecuteExplained(src, p, q, limit, s, held);
    var r := Execute(src, p.src, p.out, p.dist, Boundary(q), limit, s, held);
    if r.Go? {
      assert After(src, n + 1, held) == Some(Spot(r.src, r.out, r.dist));
      m := OpcodesExplained(src, n + 1, n, limit, held);
    } else {
      m := if Explained(src, p, r.outcome, held) then n else k;
    }
  }

  /** On every exit of a fresh call, the source consumed expands to exactly the output reported: the
      state is at an opcode boundary, or inside an opcode with the rest recorded. */
  lemma ExitExplained(src: seq<Byte>, limit: nat, held: Held) returns (m: nat)
    requires Enough(held, limit)
    ensures var r := Decode(src, START, limit, held);
            && After(src, m, held).Some? && Explained(src, After(src, m, held).value, r, held)
            && (r.exit == Idle <==> src == [] || limit == 0)
  {
    hide Opcodes, LeadsTo, Advance;
    m := 0;
    if src != [] && limit > 0 {
      m := OpcodesExplained(src, 0, 0, limit, held);
    }
  }

  // ----------------------------------------------------------------------- printing

  /** The operations an encoder can write, by opcode family. */
  datatype Op =
    | SmallDistance(lits: seq<Byte>, M: nat, D: nat)
    | MediumDistance(lits: seq<Byte>, M: nat, D: nat)
    | LargeDistance(lits: seq<Byte>, M: nat, D: nat)
    | PreviousDistance(lits: seq<Byte>, M: nat)
    | SmallMatch(M: nat)
    | LargeMatch(M: nat)
    | SmallLiteral(lits: seq<Byte>)
    | LargeLiteral(lits: seq<Byte>)
    | NoOperation(code: Byte)

  /** The row of the opcode table for a literal of `L` and a match of `M` bytes. */
  function Row(L: nat, M: nat): (r: int) {
    8 * L + M - 3
  }

  /** Rows left to opcodes with a literal and a match; the others are taken by other families. */
  predicate FreeRow(row: int) {
    0 <= row < 14 || 16 <= row < 20 || 24 <= row < 26
  }

  predicate ShortCopy(lits: seq<Byte>, M: nat) {
    |lits| <= 3 && 3 <= M <= 10 && FreeRow(Row(|lits|, M))
  }

  predicate Encodable(op: Op) {
    match op
    case SmallDistance(lits, M, D) => ShortCopy(lits, M) && D < 6 * 256
    case MediumDistance(lits, M, D) => |lits| <= 3 && 3 <= M <= 34 && D < 0x4000
    case LargeDistance(lits, M, D) => ShortCopy(lits, M) && D < 0x10000
    case PreviousDistance(lits, M) => ShortCopy(lits, M) && Row(|lits|, M) >= 8
    case SmallMatch(M) => 1 <= M <= 15
    case LargeMatch(M) => 16 <= M <= 271
    case SmallLiteral(lits) => 1 <= |lits| <= 15
    case LargeLiteral(lits) => 16 <= |lits| <= 271
    case NoOperation(code) => code in {14, 22}
  }

  /** The opcode bytes, in the documented bit layouts, without the literal. */
  function Header(op: Op): (r: seq<Byte>)
    requires Encodable(op)
  {
    match op
    case SmallDistance(lits, M, D) => [8 * Row(|lits|, M) + D / 256, D % 256]
    case MediumDistance(lits, M, D) =>
      [160 + 8 * |lits| + (M - 3) / 4, (M - 3) % 4 + 4 * (D % 64), D / 64]
    case LargeDistance(lits, M, D) => [8 * Row(|lits|, M) + 7, D % 256, D / 256]
    case PreviousDistance(lits, M) => [8 * Row(|lits|, M) + 6]
    case SmallMatch(M) => [240 + M]
    case LargeMatch(M) => [240, M - 16]
    case SmallLiteral(lits) => [224 + |lits|]
    case LargeLiteral(lits) => [224, |lits| - 16]
    case NoOperation(code) => [code]
  }

  function Lits(op: Op): (r: seq<Byte>) {
    match op
    case SmallDistance(lits, _, _) => lits
    case MediumDistance(lits, _, _) => lits
    case LargeDistance(lits, _, _) => lits
    case PreviousDistance(lits, _) => lits
    case SmallLiteral(lits) => lits
    case LargeLiteral(lits) => lits
    case _ => []
  }

  function MatchLen(op: Op): (r: nat) {
    match op
    case SmallDistance(_, M, _) => M
    case MediumDistance(_, M, _) => M
    case LargeDistance(_, M, _) => M
    case PreviousDistance(_, M) => M
    case SmallMatch(M) => M
    case LargeMatch(M) => M
    case _ => 0
  }

  /** The distance in force after the operation. */
  function Distance(op: Op, dist: nat): (r: nat) {
    match op
    case SmallDistance(_, _, D) => D
    case MediumDistance(_, _, D) => D
    case LargeDistance(_, _, D) => D
    case _ => dist
  }

  /** The operations whose distance the decoder checks. */
  predicate Checked(op: Op) {
    op.SmallDistance? || op.MediumDistance? || op.LargeDistance? || op.PreviousDistance?
  }

  function Print(op: Op): (r: seq<Byte>)
    requires Encodable(op)
  {
    Header(op) + Lits(op)
  }

  predicate Starts(src: seq<Byte>, pos: nat, bytes: seq<Byte>) {
    pos + |bytes| <= |src| && src[pos..pos + |bytes|] == bytes
  }

  lemma HeaderBytes(src: seq<Byte>, pos: nat, op: Op)
    requires Encodable(op) && Starts(src, pos, Print(op))
    ensures src[pos] == Header(op)[0]
    ensures |Header(op)| > 1 ==> src[pos + 1] == Header(op)[1]
    ensures |Header(op)| > 2 ==> src[pos + 2] == Header(op)[2]
    ensures src[pos + |Header(op)|..pos + |Print(op)|] == Lits(op)
  {
    var bytes := src[pos..pos + |Print(op)|];
    assert src[pos] == bytes[0];
    assert |Header(op)| > 1 ==> src[pos + 1] == bytes[1];
    assert |Header(op)| > 2 ==> src[pos + 2] == bytes[2];
    assert src[pos + |Header(op)|..pos + |Print(op)|] == bytes[|Header(op)|..];
  }

  ghost predicate ReadsBack(src: seq<Byte>, pos: nat, op: Op, dist: nat)
    requires Encodable(op) && pos < |src|
  {
    var s := StepAt(src, pos, dist);
    && s.Copies? && s.opcLen == |Header(op)| && s.L == |Lits(op)|
    && s.M == MatchLen(op) && s.D == Distance(op, dist) && s.checked == Checked(op)
  }

  lemma ReadSmallDistance(src: seq<Byte>, pos: nat, op: Op, dist: nat)
    requires op.SmallDistance? && Encodable(op) && pos + |Print(op)| < |src|
    requires src[pos] == Header(op)[0] && src[pos + 1] == Header(op)[1]
    ensures ReadsBack(src, pos, op, dist)
  {
    assert src[pos] / 8 == Row(|op.lits|, op.M) && src[pos] % 8 == op.D / 256;
    assert src[pos] / 64 == |op.lits|;
  }

  lemma ReadMediumDistance(src: seq<Byte>, pos: nat, op: Op, dist: nat)
    requires op.MediumDistance? && Encodable(op) && pos + |Print(op)| < |src|
    requires src[pos] == Header(op)[0] && src[pos + 1] == Header(op)[1] && src[pos + 2] == Header(op)[2]
    ensures ReadsBack(src, pos, op, dist)
  {
    assert src[pos] / 8 == 20 + |op.lits| && src[pos] % 8 == (op.M - 3) / 4;
    MediumFields(op.M - 3, op.D);
  }

  /** The fourteen bits of a medium distance and two bits of the length share two bytes. */
  lemma MediumFields(m: nat, d: nat)
    ensures var low := m % 4 + 4 * (d % 64);
            var word := low + 256 * (d / 64);
            word / 4 == d && word % 4 == m % 4 && m / 4 * 4 + word % 4 == m
  {
    assert m % 4 + 4 * (d % 64) + 256 * (d / 64) == m % 4 + 4 * d;
  }

  lemma ReadLargeDistance(src: seq<Byte>, pos: nat, op: Op, dist: nat)
    requires op.LargeDistance? && Encodable(op) && pos + |Print(op)| < |src|
    requires src[pos] == Header(op)[0] && src[pos + 1] == Header(op)[1] && src[pos + 2] == Header(op)[2]
    ensures ReadsBack(src, pos, op, dist)
  {
    assert src[pos] / 8 == Row(|op.lits|, op.M) && src[pos] % 8 == 7;
    assert src[pos] / 64 == |op.lits|;
  }

  lemma ReadPreviousDistance(src: seq<Byte>, pos: nat, op: Op, dist: nat)
    requires op.PreviousDistance? && Encodable(op) && pos + |Print(op)| < |src|
    requires src[pos] == Header(op)[0]
    ensures ReadsBack(src, pos, op, dist)
  {
    assert src[pos] / 8 == Row(|op.lits|, op.M) && src[pos] % 8 == 6;
    assert src[pos] / 64 == |op.lits|;
  }

  lemma ReadMatch(src: seq<Byte>, pos: nat, op: Op, dist: nat)
    requires op.SmallMatch? || op.LargeMatch?
    requires Encodable(op) && pos + |Print(op)| < |src|
    requires src[pos] == Header(op)[0] && (|Header(op)| > 1 ==> src[pos + 1] == Header(op)[1])
    ensures ReadsBack(src, pos, op, dist)
  {
    assert Classify(src[pos]) == if op.SmallMatch? then SmlM else LrgM;
  }

  lemma ReadLiteral(src: seq<Byte>, pos: nat, op: Op, dist: nat)
    requires op.SmallLiteral? || op.LargeLiteral?
    requires Encodable(op) && pos + |Print(op)| < |src|
    requires src[pos] == Header(op)[0] && (|Header(op)| > 1 ==> src[pos + 1] == Header(op)[1])
    ensures ReadsBack(src, pos, op, dist)
  {
    assert Classify(src[pos]) == if op.SmallLiteral? then SmlL else LrgL;
  }

  lemma ReadNoOperation(src: seq<Byte>, pos: nat, op: Op, dist: nat)
    requires op.NoOperation? && Encodable(op) && pos + |Print(op)| < |src| && src[pos] == Header(op)[0]
    ensures ReadsBack(src, pos, op, dist)
  {
    assert Classify(src[pos]) == Nop;
  }

  /** A printed operation is read back as what it was printed from. */
  lemma ReadPrinted(src: seq<Byte>, pos: nat, op: Op, dist: nat)
    requires Encodable(op) && Starts(src, pos, Print(op)) && pos + |Print(op)| < |src|
    ensures ReadsBack(src, pos, op, dist)
  {
    HeaderBytes(src, pos, op);
    match op
    case SmallDistance(_, _, _) => ReadSmallDistance(src, pos, op, dist);
    case MediumDistance(_, _, _) => ReadMediumDistance(src, pos, op, dist);
    case LargeDistance(_, _, _) => ReadLargeDistance(src, pos, op, dist);
    case PreviousDistance(_, _) => ReadPreviousDistance(src, pos, op, dist);
    case SmallMatch(_) => ReadMatch(src, pos, op, dist);
    case LargeMatch(_) => ReadMatch(src, pos, op, dist);
    case SmallLiteral(_) => ReadLiteral(src, pos, op, dist);
    case LargeLiteral(_) => ReadLiteral(src, pos, op, dist);
    case NoOperation(_) => ReadNoOperation(src, pos, op, dist);
  }

  /** The operation that is printed as the opcode at `pos`. */
  function OpAt(src: seq<Byte>, pos: nat, s: Step): (op: Op)
    requires pos < |src| && s.Copies? && pos + s.opcLen + s.L <= |src|
  {
    var lits := Literal(src, pos, s);
    match Classify(src[pos])
    case SmlD => SmallDistance(lits, s.M, s.D)
    case MedD => MediumDistance(lits, s.M, s.D)
    case LrgD => LargeDistance(lits, s.M, s.D)
    case PreD => PreviousDistance(lits, s.M)
    case SmlM => SmallMatch(s.M)
    case LrgM => LargeMatch(s.M)
    case SmlL => SmallLiteral(lits)
    case LrgL => LargeLiteral(lits)
    case _ => NoOperation(src[pos])
  }

  ghost predicate Printed(src: seq<Byte>, pos: nat, op: Op) {
    Encodable(op) && Starts(src, pos, Print(op)) && pos + |Print(op)| < |src|
  }

  ghost predicate IsPrint(src: seq<Byte>, pos: nat, s: Step)
    requires pos < |src| && s.Copies? && pos + s.opcLen + s.L <= |src|
  {
    var op := OpAt(src, pos, s);
    && Encodable(op) && |Header(op)| == s.opcLen && Lits(op) == Literal(src, pos, s) && Header(op)[0] == src[pos]
    && (s.opcLen > 1 ==> Header(op)[1] == src[pos + 1]) && (s.opcLen > 2 ==> Header(op)[2] == src[pos + 2])
  }

  lemma RowOf(opc: Byte, low: nat)
    requires Classify(opc) in {SmlD, LrgD, PreD} && low == opc % 8
    ensures opc / 64 <= 3 && FreeRow(opc / 8) && Row(opc / 64, opc / 8 % 8 + 3) == opc / 8 && 8 * (opc / 8) + low == opc
  {}

  lemma ShortIsPrint(src: seq<Byte>, pos: nat, dist: nat)
    requires pos < |src| && Classify(src[pos]) in {SmlD, LrgD, PreD} && StepAt(src, pos, dist).Copies?
    ensures IsPrint(src, pos, StepAt(src, pos, dist))
  {
    hide FreeRow;
    RowOf(src[pos], src[pos] % 8);
  }

  lemma MediumIsPrint(src: seq<Byte>, pos: nat, dist: nat)
    requires pos < |src| && Classify(src[pos]) == MedD && StepAt(src, pos, dist).Copies?
    ensures IsPrint(src, pos, StepAt(src, pos, dist))
  {
    var opc: int := src[pos];
    var s := StepAt(src, pos, dist);
    var low, high := At(src, pos + 1), At(src, pos + 2);
    assert opc == 160 + 8 * (opc / 8 % 4) + opc % 8;
    assert low + 256 * high == 4 * s.D + (s.M - 3) % 4;
    assert s.D / 64 == high && 4 * (s.D % 64) + (s.M - 3) % 4 == low;
  }

  lemma OthersPrint(src: seq<Byte>, pos: nat, dist: nat)
    requires pos < |src| && Classify(src[pos]) !in {SmlD, LrgD, PreD, MedD} && StepAt(src, pos, dist).Copies?
    ensures IsPrint(src, pos, StepAt(src, pos, dist))
  {
    var opc: int := src[pos];
    assert opc >= 224 ==> opc % 16 == (if opc >= 240 then opc - 240 else opc - 224);
  }

  lemma PrintFits(src: seq<Byte>, pos: nat, s: Step)
    requires pos < |src| && s.Copies? && 1 <= s.opcLen <= 3 && pos + s.opcLen + s.L < |src| && IsPrint(src, pos, s)
    ensures var op := OpAt(src, pos, s); Printed(src, pos, op)
  {
    hide Encodable, Header, Lits, OpAt;
    var op := OpAt(src, pos, s);
    assert Header(op) == src[pos..pos + s.opcLen];
    assert Print(op) == src[pos..pos + s.opcLen + s.L];
  }

  /** Whatever the decoder carries out is the print of an operation. */
  lemma CopiesPrinted(src: seq<Byte>, pos: nat, dist: nat)
    requires pos < |src| && StepAt(src, pos, dist).Copies?
    ensures Printed(src, pos, OpAt(src, pos, StepAt(src, pos, dist)))
  {
    hide StepAt, IsPrint, OpAt, Printed;
    match Classify(src[pos]) {
      case SmlD | LrgD | PreD => ShortIsPrint(src, pos, dist);
      case MedD => MediumIsPrint(src, pos, dist);
      case _ => OthersPrint(src, pos, dist);
    }
    PrintFits(src, pos, StepAt(src, pos, dist));
  }

  ghost predicate Opens(op: Op, opc: Byte) {
    Encodable(op) && Header(op)[0] == opc
  }

  /** An operation whose print starts with the given byte. */
  function Opening(opc: Byte): (op: Op) {
    var lits: seq<Byte> := seq(opc / 64, _ => 0);
    match Classify(opc)
    case SmlD => SmallDistance(lits, opc / 8 % 8 + 3, opc % 8 * 256)
    case MedD => MediumDistance(seq(opc / 8 % 4, _ => 0), opc % 8 * 4 + 3, 0)
    case LrgD => LargeDistance(lits, opc / 8 % 8 + 3, 0)
    case PreD => PreviousDistance(lits, opc / 8 % 8 + 3)
    case SmlM => SmallMatch(opc % 16)
    case LrgM => LargeMatch(16)
    case SmlL => SmallLiteral(seq(opc % 16, _ => 0))
    case LrgL => LargeLiteral(seq(16, _ => 0))
    case _ => NoOperation(opc)
  }

  lemma ShortOpens(opc: Byte)
    requires Classify(opc) in {SmlD, LrgD, PreD}
    ensures Opens(Opening(opc), opc)
  {
    hide FreeRow;
    RowOf(opc, opc % 8);
    assert Classify(opc) == SmlD ==> opc % 8 < 6;
  }

  lemma MediumOpens(opc: Byte)
    requires Classify(opc) == MedD
    ensures Opens(Opening(opc), opc)
  {}

  lemma OthersOpen(opc: Byte)
    requires Classify(opc) in {SmlM, LrgM, SmlL, LrgL, Nop}
    ensures Opens(Opening(opc), opc)
  {}

  lemma OpeningOpens(opc: Byte)
    requires Classify(opc) !in {Eos, Udef}
    ensures Opens(Opening(opc), opc)
  {
    hide Opens, Opening;
    match Classify(opc)
    case SmlD | LrgD | PreD => ShortOpens(opc);
    case MedD => MediumOpens(opc);
    case _ => OthersOpen(opc);
  }

  lemma OpenedDefined(op: Op)
    requires Encodable(op)
    ensures Classify(Header(op)[0]) !in {Eos, Udef}
  {}

  /** What the decoder makes of the bytes at `pos`: it carries out exactly the printed operations that are followed by
      another byte, ends at opcode 6 if eight bytes are left, and has no use for a byte no operation starts with. */
  lemma StepsExactly(src: seq<Byte>, pos: nat, dist: nat)
    requires pos < |src|
    ensures var s := StepAt(src, pos, dist);
            && (s.Copies? <==> exists op :: Printed(src, pos, op))
            && (s == EndOfStream <==> src[pos] == 6 && |src| - pos >= 8)
            && (s == EndTruncated <==> src[pos] == 6 && |src| - pos < 8)
            && (s == Undefined <==> src[pos] != 6 && forall op :: !Opens(op, src[pos]))
  {
    hide Encodable, Header, Opening, Print;
    var s := StepAt(src, pos, dist);
    if s.Copies? {
      CopiesPrinted(src, pos, dist);
      assert Printed(src, pos, OpAt(src, pos, s));
    }
    forall op | Printed(src, pos, op)
      ensures s.Copies?
    {
      ReadPrinted(src, pos, op, dist);
    }
    forall op | Opens(op, src[pos])
      ensures s != Undefined
    {
      OpenedDefined(op);
    }
    if Classify(src[pos]) !in {Eos, Udef} {
      OpeningOpens(src[pos]);
    }
  }

  predicate AllEncodable(ops: seq<Op>) {
    forall i :: 0 <= i < |ops| ==> Encodable(ops[i])
  }

  function PrintAll(ops: seq<Op>): (r: seq<Byte>)
    requires AllEncodable(ops)
  {
    if ops == [] then [] else Print(ops[0]) + PrintAll(ops[1..])
  }

  /** The output and distance after all operations, unless one of them has a bad distance. */
  function Expand(ops: seq<Op>, out: seq<Byte>, dist: nat, held: Held): (r: Option<(seq<Byte>, nat)>)
    ensures r.Some? ==> |out| <= |r.value.0|
  {
    if ops == [] then Some((out, dist))
    else
      match Expanded(out, Lits(ops[0]), MatchLen(ops[0]), Distance(ops[0], dist), Checked(ops[0]), held)
      case None => None
      case Some(o) => Expand(ops[1..], o, Distance(ops[0], dist), held)
  }

  /** With enough room, an opcode whose meaning is defined is carried out in full. */
  lemma CopyExpanded(src: seq<Byte>, pos: nat, out: seq<Byte>, s: Step, limit: nat, dist: nat, held: Held)
    requires Enough(held, limit)
    requires pos < |src| && s.Copies? && StepFits(src, pos, dist, s) && dist <= |out| <= limit
    requires var e := Expanded(out, Literal(src, pos, s), s.M, s.D, s.checked, held); e.Some? && |e.value| <= limit
    ensures Copy(src, pos + s.opcLen, out, s.L, s.M, s.D, s.checked, limit, held) ==
              Done(pos + s.opcLen + s.L, Expanded(out, Literal(src, pos, s), s.M, s.D, s.checked, held).value)
  {}

  lemma PrintedExecute(src: seq<Byte>, pos: nat, op: Op, out: seq<Byte>, dist: nat, good: State, limit: nat, held: Held)
    requires Enough(held, limit)
    requires Encodable(op) && Starts(src, pos, Print(op)) && pos + |Print(op)| < |src| && dist <= |out| <= limit
    requires var e := Expanded(out, Lits(op), MatchLen(op), Distance(op, dist), Checked(op), held);
             e.Some? && |e.value| <= limit
    ensures var o := Expanded(out, Lits(op), MatchLen(op), Distance(op, dist), Checked(op), held).value;
            Execute(src, pos, out, dist, good, limit, StepAt(src, pos, dist), held) ==
              Go(pos + |Print(op)|, o, Distance(op, dist), good.(src := pos, out := out, dPrev := dist))
  {
    hide Starts, StepAt, Copy, CopyMatch, Expanded, Header, Lits, MatchLen, Distance, Encodable;
    ReadPrinted(src, pos, op, dist);
    HeaderBytes(src, pos, op);
    var s := StepAt(src, pos, dist);
    assert Literal(src, pos, s) == Lits(op);
    CopyExpanded(src, pos, out, s, limit, dist, held);
  }

  lemma PrintedStep(src: seq<Byte>, pos: nat, op: Op, out: seq<Byte>, dist: nat, good: State, limit: nat, held: Held)
    requires Enough(held, limit)
    requires Encodable(op) && Starts(src, pos, Print(op)) && pos + |Print(op)| < |src| && dist <= |out| <= limit
    requires var e := Expanded(out, Lits(op), MatchLen(op), Distance(op, dist), Checked(op), held);
             e.Some? && |e.value| <= limit
    ensures var o := Expanded(out, Lits(op), MatchLen(op), Distance(op, dist), Checked(op), held).value;
            && Distance(op, dist) <= |o|
            && Opcodes(src, pos, out, dist, good, limit, held) ==
                 Opcodes(src, pos + |Print(op)|, o, Distance(op, dist), good.(src := pos, out := out, dPrev := dist), limit,
                         held)
  {
    hide StepAt, Execute, Expanded, Lits, MatchLen, Distance, Encodable, Print;
    DistanceInside(op, out, dist, held);
    PrintedExecute(src, pos, op, out, dist, good, limit, held);
  }

  lemma DistanceInside(op: Op, out: seq<Byte>, dist: nat, held: Held)
    requires Encodable(op) && dist <= |out|
    requires Expanded(out, Lits(op), MatchLen(op), Distance(op, dist), Checked(op), held).Some?
    ensures Distance(op, dist) <= |Expanded(out, Lits(op), MatchLen(op), Distance(op, dist), Checked(op), held).value|
  {}

  lemma PrintedEnd(src: seq<Byte>, pos: nat, out: seq<Byte>, dist: nat, good: State, limit: nat, held: Held)
    requires Enough(held, limit)
    requires pos + 8 <= |src| && src[pos] == 6 && dist <= |out| <= limit
    ensures Opcodes(src, pos, out, dist, good, limit, held) ==
              Outcome(good.(src := pos + 8, out := out, dPrev := dist, eos := true), AtEnd)
  {
    assert Classify(src[pos]) == Eos;
  }

  lemma StartsParts(src: seq<Byte>, pos: nat, a: seq<Byte>, b: seq<Byte>)
    requires Starts(src, pos, a + b)
    ensures Starts(src, pos, a) && Starts(src, pos + |a|, b)
  {
    var bytes := src[pos..pos + |a + b|];
    assert src[pos..pos + |a|] == bytes[..|a|];
    assert src[pos + |a|..pos + |a| + |b|] == bytes[|a|..];
  }

  lemma {:induction false} PrintedRun(src: seq<Byte>, pos: nat, ops: seq<Op>, out: seq<Byte>, dist: nat,
                                      good: State, limit: nat, held: Held)
    requires Enough(held, limit)
    requires AllEncodable(ops) && Starts(src, pos, PrintAll(ops)) && pos + |PrintAll(ops)| + 8 <= |src|
    requires src[pos + |PrintAll(ops)|] == 6 && dist <= |out| <= limit
    requires var e := Expand(ops, out, dist, held); e.Some? && |e.value.0| <= limit
    ensures var (o, d) := Expand(ops, out, dist, held).value;
            Opcodes(src, pos, out, dist, good, limit, held) ==
              Outcome(good.(src := pos + |PrintAll(ops)| + 8, out := o, dPrev := d, eos := true), AtEnd)
    decreases |ops|
  {
    hide Opcodes, Print, Expanded;
    if ops == [] {
      PrintedEnd(src, pos, out, dist, good, limit, held);
    } else {
      StartsParts(src, pos, Print(ops[0]), PrintAll(ops[1..]));
      PrintedStep(src, pos, ops[0], out, dist, good, limit, held);
      var o := Expanded(out, Lits(ops[0]), MatchLen(ops[0]), Distance(ops[0], dist), Checked(ops[0]), held).value;
      PrintedRun(src, pos + |Print(ops[0])|, ops[1..], o, Distance(ops[0], dist),
                 good.(src := pos, out := out, dPrev := dist), limit, held);
    }
  }

  /** Printing any encodable list of operations, then an end-of-stream opcode, and decoding it into a large
      enough destination gives the expansion of the list. */
  lemma RoundTrip(ops: seq<Op>, tail: seq<Byte>, limit: nat, held: Held)
    requires Enough(held, limit)
    requires AllEncodable(ops) && |tail| >= 7 && limit > 0
    requires var e := Expand(ops, [], 0, held); e.Some? && |e.value.0| <= limit
    ensures var (o, d) := Expand(ops, [], 0, held).value;
            Decode(PrintAll(ops) + [6] + tail, START, limit, held) ==
              Outcome(State(|PrintAll(ops)| + 8, o, 0, 0, 0, d, true), AtEnd)
  {
    var src := PrintAll(ops) + [6] + tail;
    assert src[0..|PrintAll(ops)|] == PrintAll(ops);
    PrintedRun(src, 0, ops, [], 0, START, limit, held);
  }
}
