/**
  The LZVN opcode layouts and a byte-at-a-time reference decoder.

  One opcode, whatever its family, asks for some literal bytes copied from the source
  and then some match bytes copied from the output already produced. The reference
  follows the interface of the real decoder: it stops when the output reaches `limit`,
  records a partly expanded opcode in its state, and can be called again.
 */
module LzvnFormat {
  import opened Words

  datatype Family = SmlD | MedD | LrgD | PreD | SmlM | LrgM | SmlL | LrgL | Nop | Eos | Udef

  /** The jump table, row by row of eight opcodes. */
  function Classify(opc: Byte): (f: Family) {
    var row, low := opc / 8, opc % 8;
    if row >= 30 then (if opc == 240 then LrgM else SmlM)
    else if row >= 28 then (if opc == 224 then LrgL else SmlL)
    else if row >= 26 then Udef
    else if 20 <= row < 24 then MedD
    else if 14 <= row < 16 then Udef
    else if low < 6 then SmlD
    else if low == 7 then LrgD
    else if row >= 8 then PreD
    else if row == 0 then Eos
    else if row <= 2 then Nop
    else Udef
  }

  /** What the opcode at some position asks for. */
  datatype Step =
    | Undefined
    | EndOfStream
    | EndTruncated  // an end-of-stream opcode without its eight bytes
    | Truncated     // the opcode, its literal, or the byte after them is missing
    | Copies(opcLen: nat, L: nat, M: nat, D: nat, checked: bool)

  /** The opcode and its literal lie before the last byte; only an opcode with both a literal and a
      match has its distance checked, and the others keep the distance of the last match. */
  predicate StepFits(src: seq<Byte>, pos: nat, dPrev: nat, s: Step) {
    s.Copies? ==>
      && 1 <= s.opcLen <= 3 && pos + s.opcLen + s.L < |src| && s.L <= 271 && s.M <= 271
      && (if s.checked then s.L <= 3 && s.M >= 3 else (s.L == 0 || s.M == 0) && s.D == dPrev)
  }

  function At(src: seq<Byte>, i: nat): (r: int)
    requires i < |src|
    ensures 0 <= r < 0x100
  {
    src[i]
  }

  /** The opcode at `pos`, when `dPrev` is the distance of the last match. `checked` tells whether
      the decoder tests the distance before copying the match. */
  function StepAt(src: seq<Byte>, pos: nat, dPrev: nat): (s: Step)
    requires pos < |src|
    ensures StepFits(src, pos, dPrev, s)
  {
    var rem := |src| - pos;
    var opc: int := src[pos];
    match Classify(src[pos])
    case Udef => Undefined
    case Eos => if rem < 8 then EndTruncated else EndOfStream
    case Nop => if rem <= 1 then Truncated else Copies(1, 0, 0, dPrev, false)
    case SmlD =>
      var L := opc / 64;
      if rem <= 2 + L then Truncated else Copies(2, L, opc / 8 % 8 + 3, opc % 8 * 256 + At(src, pos + 1), true)
    case MedD =>
      var L := opc / 8 % 4;
      if rem <= 3 + L then Truncated
      else
        var opc23 := At(src, pos + 1) + 256 * At(src, pos + 2);
        Copies(3, L, opc % 8 * 4 + opc23 % 4 + 3, opc23 / 4, true)
    case LrgD =>
      var L := opc / 64;
      if rem <= 3 + L then Truncated else Copies(3, L, opc / 8 % 8 + 3, At(src, pos + 1) + 256 * At(src, pos + 2), true)
    case PreD =>
      var L := opc / 64;
      if rem <= 1 + L then Truncated else Copies(1, L, opc / 8 % 8 + 3, dPrev, true)
    case SmlM => if rem <= 1 then Truncated else Copies(1, 0, opc % 16, dPrev, false)
    case LrgM => if rem <= 2 then Truncated else Copies(2, 0, At(src, pos + 1) + 16, dPrev, false)
    case SmlL =>
      var L := opc % 16;
      if rem <= 1 + L then Truncated else Copies(1, L, 0, dPrev, false)
    case LrgL =>
      if rem <= 2 || rem <= 2 + At(src, pos + 1) + 16 then Truncated else Copies(2, At(src, pos + 1) + 16, 0, dPrev, false)
  }

  /** Append `n` bytes one by one, each equal to the byte `D` places back. */
  function CopyMatch(out: seq<Byte>, D: nat, n: nat): (r: seq<Byte>)
    requires 1 <= D <= |out|
    ensures |r| == |out| + n
    decreases n
  {
    if n == 0 then out else CopyMatch(out + [out[|out| - D]], D, n - 1)
  }

  /** What a match with distance 0 hands out: the decoder leaves the destination as it is there, so the reference
      either stops at such a match, or is told what the destination holds. */
  datatype Held = Unknown | Bytes(b: seq<Byte>)

  predicate Enough(held: Held, limit: nat) {
    held.Bytes? ==> limit <= |held.b|
  }

  /** Append `n` bytes of a match. */
  function Matched(out: seq<Byte>, D: nat, n: nat, held: Held): (r: seq<Byte>)
    requires D <= |out| && (D == 0 ==> held.Bytes? && |out| + n <= |held.b|)
    ensures |r| == |out| + n
  {
    if D == 0 then out + held.b[|out|..|out| + n] else CopyMatch(out, D, n)
  }

  datatype Copied =
    | Done(src: nat, out: seq<Byte>)
    | Full(src: nat, out: seq<Byte>, L: nat, M: nat)  // the output reached the limit first
    | Bad                                             // the checked distance reaches before the output
    | Zero                                            // an unchecked distance of 0, and nothing known of the bytes

  /** Copy `L` literal bytes from `pos`, then `M` match bytes, while the output is below `limit`. */
  function Copy(src: seq<Byte>, pos: nat, out: seq<Byte>, L: nat, M: nat, D: nat, checked: bool, limit: nat,
                held: Held): (r: Copied)
    requires Enough(held, limit)
    requires pos + L <= |src| && |out| <= limit
    requires !checked && L == 0 ==> D <= |out|
    requires !checked ==> L == 0 || M == 0
    ensures r.Done? ==> r.src == pos + L && |r.out| == |out| + L + M <= limit
    ensures r.Done? && M > 0 ==> D <= |r.out|
    ensures r.Full? ==> |r.out| == limit && r.src + r.L == pos + L && (r.L > 0 || r.M > 0)
    ensures r.Full? ==> r.L <= L && r.M <= M && (r.L > 0 ==> r.M == M)
    ensures r.Full? && r.L == 0 ==> D <= |r.out|
    ensures r.Zero? ==> held.Unknown?
  {
    var room := limit - |out|;
    if L > room then Full(pos + room, out + src[pos..pos + room], L - room, M)
    else
      var out1 := out + src[pos..pos + L];
      if M == 0 then Done(pos + L, out1)
      else if checked && (D == 0 || D > |out1|) then Bad
      else if D == 0 && held.Unknown? then Zero
      else if M > limit - |out1| then
        Full(pos + L, Matched(out1, D, limit - |out1|, held), 0, M - (limit - |out1|))
      else Done(pos + L, Matched(out1, D, M, held))
  }

  /** The decoder state, with the output produced so far in place of the destination pointer. */
  datatype State = State(src: nat, out: seq<Byte>, L: nat, M: nat, D: nat, dPrev: nat, eos: bool)

  const START := State(0, [], 0, 0, 0, 0, false)

  datatype Exit = AtEnd | SourceTruncated | DestinationFull | UndefinedOpcode | BadDistance | ZeroDistance | Idle

  datatype Outcome = Outcome(state: State, exit: Exit)

  /** What a caller may pass back: positions in range, and a pending opcode that fits its source. */
  ghost predicate ValidState(src: seq<Byte>, st: State) {
    && st.src <= |src| && st.dPrev <= |st.out|
    && st.L <= 271 && st.M <= 271
    && (st.L > 0 || st.M > 0 ==> st.src + st.L < |src|)
    && (st.L == 0 && st.M > 0 ==> st.D <= |st.out|)
    && (st.L > 0 && st.M > 0 ==> st.L <= 3)
    && (st.M == 0 ==> st.D <= |st.out|)
    && (st.L == 0 && st.M == 0 ==> st.D == 0)
  }

  datatype Next = Stop(outcome: Outcome) | Go(src: nat, out: seq<Byte>, dist: nat, good: State)

  /** How the decoder goes on after copying; `good` is what its state reported before. */
  function Settle(c: Copied, good: State, D: nat): (r: Next) {
    match c
    case Bad => Stop(Outcome(good, BadDistance))
    case Zero => Stop(Outcome(good, ZeroDistance))
    case Full(p, o, L, M) => Stop(Outcome(good.(src := p, out := o, L := L, M := M, D := D), DestinationFull))
    case Done(p, o) => Go(p, o, D, good)
  }

  /** Carry out one opcode at `pos`; `good` is what the state reports if the opcode is refused before
      its position is recorded. */
  function Execute(src: seq<Byte>, pos: nat, out: seq<Byte>, dist: nat, good: State, limit: nat, s: Step,
                   held: Held): (r: Next)
    requires Enough(held, limit)
    requires pos < |src| && |out| <= limit && dist <= |out| && StepFits(src, pos, dist, s)
    ensures r.Go? ==> pos < r.src < |src| && r.dist <= |r.out| <= limit
  {
    var here := good.(src := pos, out := out, dPrev := dist);
    match s
    case Undefined => Stop(Outcome(good, UndefinedOpcode))
    case EndTruncated => Stop(Outcome(good, SourceTruncated))
    case EndOfStream => Stop(Outcome(here.(src := pos + 8, eos := true), AtEnd))
    case Truncated => Stop(Outcome(here, SourceTruncated))
    case Copies(n, L, M, D, checked) =>
      Settle(Copy(src, pos + n, out, L, M, D, checked, limit, held), here, D)
  }

  /** Decode opcodes from `pos` on. */
  function Opcodes(src: seq<Byte>, pos: nat, out: seq<Byte>, dist: nat, good: State, limit: nat, held: Held): (r: Outcome)
    requires Enough(held, limit)
    requires pos < |src| && |out| <= limit && dist <= |out|
    decreases |src| - pos
  {
    match Execute(src, pos, out, dist, good, limit, StepAt(src, pos, dist), held)
    case Stop(r) => r
    case Go(p, o, D, here) => Opcodes(src, p, o, D, here, limit, held)
  }

  /** One call of the decoder. */
  function Decode(src: seq<Byte>, st: State, limit: nat, held: Held): (r: Outcome)
    requires Enough(held, limit)
    requires ValidState(src, st) && |st.out| <= limit
  {
    if st.src == |src| || |st.out| == limit then Outcome(st, Idle)
    else if st.L == 0 && st.M == 0 then Opcodes(src, st.src, st.out, st.dPrev, st, limit, held)
    else
      match Settle(Copy(src, st.src, st.out, st.L, st.M, st.D, st.L > 0 && st.M > 0, limit, held), Cleared(st), st.D)
      case Stop(r) => r
      case Go(p, o, D, good) => Opcodes(src, p, o, D, good, limit, held)
  }

  /** The state once its pending opcode was taken over by the decoder. */
  function Cleared(st: State): (r: State) {
    st.(L := 0, M := 0, D := 0)
  }
}
