/**
  The decoder as it runs: pointers into a source and a destination buffer, copies of four and
  eight bytes at a time that may spill past the bytes asked for, and a state that records
  where a full destination interrupted an opcode.
 */
module LzvnDecoder {
  import opened Words
  import opened LzvnFormat
  import opened LzvnResume
  import opened LzvnZero

  /** A buffer in which every byte of the match equals the byte `D` places before it holds what
      copying byte by byte produces. */
  lemma {:induction false} MatchUnique(buf: seq<Byte>, p: nat, D: nat, n: nat)
    requires 1 <= D <= p && p + n <= |buf|
    requires forall j :: p <= j < p + n ==> buf[j] == buf[j - D]
    ensures buf[..p + n] == CopyMatch(buf[..p], D, n)
    decreases n
  {
    if n > 0 {
      assert buf[..p] + [buf[..p][p - D]] == buf[..p + 1];
      MatchUnique(buf, p + 1, D, n - 1);
    }
  }

  class Decoder {
    const src: seq<Byte>
    const dst: array<Byte>
    var srcPos: nat
    var dstPos: nat
    var dstEnd: nat
    var L: nat
    var M: nat
    var D: nat
    var dPrev: nat
    var eos: bool

    ghost function Current(): (st: State)
      reads this, dst
      requires dstPos <= dst.Length
    {
      State(srcPos, dst[..dstPos], L, M, D, dPrev, eos)
    }

    ghost predicate Valid()
      reads this, dst
    {
      dstPos <= dstEnd <= dst.Length && ValidState(src, Current())
    }

    /** The state lzvn_decode_buffer starts from. */
    constructor (src: seq<Byte>, dst: array<Byte>)
      ensures Valid() && this.src == src && this.dst == dst && dstEnd == dst.Length
      ensures Current() == START
    {
      this.src, this.dst := src, dst;
      srcPos, dstPos, dstEnd := 0, 0, dst.Length;
      L, M, D, dPrev, eos := 0, 0, 0, 0, false;
    }

    /** Literal bytes one at a time. */
    method LiteralBytes(p: nat, q: nat, n: nat)
      requires p + n <= dst.Length && q + n <= |src|
      modifies dst
      ensures dst[..p + n] == old(dst[..p]) + src[q..q + n]
      ensures forall x :: 0 <= x < dst.Length && !(p <= x < p + n) ==> dst[x] == old(dst[x])
    {
      for i := 0 to n
        invariant forall j :: p <= j < p + i ==> dst[j] == src[q + (j - p)]
        invariant forall x :: 0 <= x < dst.Length && !(p <= x < p + n) ==> dst[x] == old(dst[x])
      {
        dst[p + i] := src[q + i];
      }
    }

    /** Literal bytes with eight-byte copies, which may write up to seven bytes too many. */
    method LiteralWide(p: nat, q: nat, n: nat)
      requires p + n + 7 <= dst.Length && q + n + 7 <= |src|
      modifies dst
      ensures dst[..p + n] == old(dst[..p]) + src[q..q + n]
      ensures forall x :: 0 <= x < dst.Length && !(p <= x < p + n + 7) ==> dst[x] == old(dst[x])
    {
      var i := 0;
      while i < n
        invariant i <= n + 7
        invariant forall j :: p <= j < p + i ==> dst[j] == src[q + (j - p)]
        invariant forall x :: 0 <= x < dst.Length && !(p <= x < p + n + 7) ==> dst[x] == old(dst[x])
      {
        forall k | 0 <= k < 8 {
          dst[p + i + k] := src[q + i + k];
        }
        i := i + 8;
      }
    }

    /** The four-byte copy that covers any literal of up to three bytes. */
    method LiteralFour(p: nat, q: nat, n: nat)
      requires p + 4 <= dst.Length && q + 4 <= |src| && n <= 4
      modifies dst
      ensures dst[..p + n] == old(dst[..p]) + src[q..q + n]
      ensures forall x :: 0 <= x < dst.Length && !(p <= x < p + 4) ==> dst[x] == old(dst[x])
    {
      forall k | 0 <= k < 4 {
        dst[p + k] := src[q + k];
      }
    }

    /** Match bytes one at a time; with distance 0 they are left as they are. */
    method MatchBytes(p: nat, dist: nat, n: nat)
      requires dist <= p && p + n <= dst.Length
      modifies dst
      ensures forall x :: 0 <= x < dst.Length && !(p <= x < p + n) ==> dst[x] == old(dst[x])
      ensures dist > 0 ==> dst[..p + n] == CopyMatch(old(dst[..p]), dist, n)
      ensures dist == 0 ==> forall x :: 0 <= x < dst.Length ==> dst[x] == old(dst[x])
    {
      for i := 0 to n
        invariant forall x :: 0 <= x < dst.Length && !(p <= x < p + n) ==> dst[x] == old(dst[x])
        invariant dist > 0 ==> forall j :: p <= j < p + i ==> dst[j] == dst[j - dist]
        invariant dist == 0 ==> forall x :: 0 <= x < dst.Length ==> dst[x] == old(dst[x])
      {
        dst[p + i] := dst[p + i - dist];
      }
      if dist > 0 {
        MatchUnique(dst[..], p, dist, n);
        assert dst[..][..p] == old(dst[..p]) && dst[..][..p + n] == dst[..p + n];
      }
    }

    /** Match bytes with eight-byte copies; each load lies entirely before its store. */
    method MatchWide(p: nat, dist: nat, n: nat)
      requires 8 <= dist <= p && p + n + 7 <= dst.Length
      modifies dst
      ensures forall x :: 0 <= x < dst.Length && !(p <= x < p + n + 7) ==> dst[x] == old(dst[x])
      ensures dst[..p + n] == CopyMatch(old(dst[..p]), dist, n)
    {
      var i := 0;
      while i < n
        invariant i <= n + 7
        invariant forall x :: 0 <= x < dst.Length && !(p <= x < p + n + 7) ==> dst[x] == old(dst[x])
        invariant forall j :: p <= j < p + i ==> dst[j] == dst[j - dist]
      {
        forall k | 0 <= k < 8 {
          dst[p + i + k] := dst[p + i + k - dist];
        }
        i := i + 8;
      }
      MatchUnique(dst[..], p, dist, n);
      assert dst[..][..p] == old(dst[..p]) && dst[..][..p + n] == dst[..p + n];
    }

    /** Both buffers as they are between opcodes: nothing pending, the recorded position not after
        the running one, and the last distance within the output. */
    ghost predicate Running(srcPtr: nat, dstPtr: nat, dist: nat)
      reads this, dst
    {
      && Valid() && L == 0 && M == 0
      && srcPtr < |src| && dstPos <= dstPtr <= dstEnd && dist <= dstPtr
    }

    /** What the rest of a copying label leaves, given what the reference says of the same copy. */
    ghost predicate Settles(c: Copied, good: State, dist: nat, go: bool, srcPtr: nat, dstPtr: nat)
      reads this, dst
    {
      var r := Settle(c, good, dist);
      && (go ==> Running(srcPtr, dstPtr, dist)) && Valid()
      && (r.Stop? ==> !go && Current() == r.outcome.state)
      && (r.Go? ==> go && srcPtr == r.src && dst[..dstPtr] == r.out && Current() == good)
    }

    /** A match that fits the destination, with wide copies where they stay inside it. */
    method MatchInside(p: nat, dist: nat, n: nat)
      requires dist <= p && p + n <= dstEnd <= dst.Length
      modifies dst
      ensures forall x :: 0 <= x < dst.Length && !(p <= x < dstEnd) ==> dst[x] == old(dst[x])
      ensures dst[..p + n] == Matched(old(dst[..p]), dist, n, Bytes(dst[..]))
      ensures dist == 0 ==> forall x :: 0 <= x < dst.Length ==> dst[x] == old(dst[x])
    {
      hide CopyMatch;
      if dstEnd - p >= n + 7 && dist >= 8 {
        MatchWide(p, dist, n);
      } else {
        MatchBytes(p, dist, n);
      }
    }

    /** A match of `m` bytes with distance 0 leaves the buffer as it was and moves past what it holds there. */
    ghost predicate HandsOut(before: seq<Byte>, dstPtr: nat, m: nat, go: bool, dstPtr': nat)
      reads this, dst
    {
      && |before| == dst.Length && (forall x :: 0 <= x < dst.Length ==> dst[x] == before[x])
      && (go ==> dstPtr' == dstPtr + m) && (go <==> dstPtr + m <= dstEnd)
    }

    /** copy_match. With distance 0 it claims the bytes the buffer happens to hold. */
    method CopyMatchOp(srcPtr: nat, dstPtr: nat, m: nat, dist: nat) returns (go: bool, dstPtr': nat)
      requires Running(srcPtr, dstPtr, dist) && 0 < m <= 271
      modifies this, dst
      ensures dstEnd == old(dstEnd) && (go ==> dstPtr <= dstPtr')
      ensures forall x :: 0 <= x < dst.Length && !(dstPtr <= x < dstEnd) ==> dst[x] == old(dst[x])
      ensures Settles(Copy(src, srcPtr, old(dst[..dstPtr]), 0, m, dist, false, dstEnd, Bytes(dst[..])),
                      old(Current()), dist, go, srcPtr, dstPtr')
      ensures dist == 0 ==> HandsOut(old(dst[..]), dstPtr, m, go, dstPtr')
    {
      hide Copy, CopyMatch, Matched;
      var dstLen := dstEnd - dstPtr;
      ghost var good, out := Current(), dst[..dstPtr];
      if m <= dstLen {
        MatchInside(dstPtr, dist, m);
        MatchOnly(src, srcPtr, out, m, dist, dstEnd, Bytes(dst[..]));
        assert dst[..dstPos] == good.out;
        return true, dstPtr + m;
      } else {
        MatchInside(dstPtr, dist, dstLen);
        MatchOnly(src, srcPtr, out, m, dist, dstEnd, Bytes(dst[..]));
        srcPos, dstPos := srcPtr, dstPtr + dstLen;
        L, M, D := 0, m - dstLen, dist;
        return false, dstPtr;
      }
    }

    /** A literal that fits the destination, with wide copies where they stay inside both buffers. */
    method LiteralInside(p: nat, q: nat, n: nat)
      requires p + n <= dstEnd <= dst.Length && q + n <= |src|
      modifies dst
      ensures dst[..p + n] == old(dst[..p]) + src[q..q + n]
      ensures forall x :: 0 <= x < dst.Length && !(p <= x < dstEnd) ==> dst[x] == old(dst[x])
    {
      if dstEnd - p >= n + 7 && |src| - q >= n + 7 {
        LiteralWide(p, q, n);
      } else {
        LiteralBytes(p, q, n);
      }
    }

    /** A literal of up to three bytes, with one four-byte copy where it stays inside both buffers. */
    method ShortLiteralInside(p: nat, q: nat, n: nat)
      requires n <= 3 && p + n <= dstEnd <= dst.Length && q + n <= |src|
      modifies dst
      ensures dst[..p + n] == old(dst[..p]) + src[q..q + n]
      ensures forall x :: 0 <= x < dst.Length && !(p <= x < dstEnd) ==> dst[x] == old(dst[x])
    {
      if dstEnd - p >= 4 && |src| - q >= 4 {
        LiteralFour(p, q, n);
      } else {
        LiteralBytes(p, q, n);
      }
    }

    /** Fill the destination with the start of a literal and record the rest of the opcode. */
    method PauseLiteral(srcPtr: nat, dstPtr: nat, l: nat, m: nat, dist: nat)
      requires Running(srcPtr, dstPtr, 0) && dstEnd - dstPtr < l <= 271 && srcPtr + l < |src| && m <= 271
      requires if m > 0 then l <= 3 else dist <= dstPtr
      modifies this, dst
      ensures dstEnd == old(dstEnd)
      ensures forall x :: 0 <= x < dst.Length && !(dstPtr <= x < dstEnd) ==> dst[x] == old(dst[x])
      ensures Settles(Copy(src, srcPtr, old(dst[..dstPtr]), l, m, dist, m > 0, dstEnd, Bytes(dst[..])),
                      old(Current()), dist, false, srcPtr, dstPtr)
    {
      var dstLen := dstEnd - dstPtr;
      LiteralBytes(dstPtr, srcPtr, dstLen);
      srcPos, dstPos := srcPtr + dstLen, dstPtr + dstLen;
      L, M, D := l - dstLen, m, dist;
    }

    /** copy_literal */
    method CopyLiteralOp(srcPtr: nat, dstPtr: nat, l: nat, dist: nat) returns (go: bool, srcPtr': nat, dstPtr': nat)
      requires Running(srcPtr, dstPtr, dist) && l <= 271 && srcPtr + l < |src|
      modifies this, dst
      ensures dstEnd == old(dstEnd) && (go ==> dstPtr <= dstPtr')
      ensures forall x :: 0 <= x < dst.Length && !(dstPtr <= x < dstEnd) ==> dst[x] == old(dst[x])
      ensures Settles(Copy(src, srcPtr, old(dst[..dstPtr]), l, 0, dist, false, dstEnd, Bytes(dst[..])),
                      old(Current()), dist, go, srcPtr', dstPtr')
    {
      if l <= dstEnd - dstPtr {
        ghost var good := Current();
        LiteralInside(dstPtr, srcPtr, l);
        assert dst[..dstPos] == good.out;
        return true, srcPtr + l, dstPtr + l;
      } else {
        PauseLiteral(srcPtr, dstPtr, l, 0, dist);
        return false, srcPtr, dstPtr;
      }
    }

    /** copy_literal_and_match */
    method CopyLiteralAndMatchOp(srcPtr: nat, dstPtr: nat, l: nat, m: nat, dist: nat)
      returns (go: bool, srcPtr': nat, dstPtr': nat)
      requires Running(srcPtr, dstPtr, 0) && l <= 3 && 0 < m <= 271 && srcPtr + l < |src|
      modifies this, dst
      ensures dstEnd == old(dstEnd) && (go ==> dstPtr <= dstPtr')
      ensures forall x :: 0 <= x < dst.Length && !(dstPtr <= x < dstEnd) ==> dst[x] == old(dst[x])
      ensures Settles(Copy(src, srcPtr, old(dst[..dstPtr]), l, m, dist, true, dstEnd, Bytes(dst[..])),
                      old(Current()), dist, go, srcPtr', dstPtr')
    {
      hide Copy, CopyMatch, Matched;
      if l <= dstEnd - dstPtr {
        ghost var good, out := Current(), dst[..dstPtr];
        ShortLiteralInside(dstPtr, srcPtr, l);
        assert dst[..dstPos] == good.out;
        srcPtr', dstPtr' := srcPtr + l, dstPtr + l;
        if dist > dstPtr' || dist == 0 {
          LiteralThenMatch(src, srcPtr, out, l, m, dist, dstEnd, Bytes(dst[..]));
          return false, srcPtr', dstPtr';
        }
        assert Running(srcPtr', dstPtr', dist);
        go, dstPtr' := CopyMatchOp(srcPtr', dstPtr', m, dist);
        LiteralThenMatch(src, srcPtr, out, l, m, dist, dstEnd, Bytes(dst[..]));
      } else {
        PauseLiteral(srcPtr, dstPtr, l, m, dist);
        return false, srcPtr, dstPtr;
      }
    }

    /** What one opcode leaves, given what the reference says of it. */
    ghost predicate Executes(r: Next, go: bool, srcPtr: nat, dstPtr: nat, dist: nat)
      reads this, dst
    {
      && (go ==> Running(srcPtr, dstPtr, dist)) && Valid()
      && (r.Stop? ==> !go && Current() == r.outcome.state)
      && (r.Go? ==> go && srcPtr == r.src && dst[..dstPtr] == r.out && dist == r.dist && Current() == r.good)
    }

    /** UPDATE_GOOD */
    method UpdateGood(srcPtr: nat, dstPtr: nat, dist: nat)
      requires Running(srcPtr, dstPtr, dist)
      modifies this
      ensures Running(srcPtr, dstPtr, dist) && dstEnd == old(dstEnd)
      ensures Current() == old(Current()).(src := srcPtr, out := dst[..dstPtr], dPrev := dist)
    {
      srcPos, dstPos, dPrev := srcPtr, dstPtr, dist;
    }

    /** Dispatch on the opcode at `srcPtr` and carry it out. */
    method ExecuteOpcode(srcPtr: nat, dstPtr: nat, dist: nat, s: Step)
      returns (go: bool, srcPtr': nat, dstPtr': nat, dist': nat)
      requires Running(srcPtr, dstPtr, dist) && StepFits(src, srcPtr, dist, s)
      requires s.EndOfStream? ==> srcPtr + 8 <= |src|
      modifies this, dst
      ensures dstEnd == old(dstEnd) && (go ==> srcPtr < srcPtr' && dstPtr <= dstPtr')
      ensures forall x :: 0 <= x < dst.Length && !(dstPtr <= x < dstEnd) ==> dst[x] == old(dst[x])
      ensures Executes(Execute(src, srcPtr, old(dst[..dstPtr]), dist, old(Current()), dstEnd, s, Bytes(dst[..])),
                       go, srcPtr', dstPtr', dist')
      ensures s.Copies? && !s.checked && s.M > 0 && s.D == 0 ==> HandsOut(old(dst[..]), dstPtr, s.M, go, dstPtr')
    {
      hide Copy, StepAt, CopyMatch;
      go, srcPtr', dstPtr', dist' := false, srcPtr, dstPtr, dist;
      match s {
        case Undefined =>
        case EndTruncated =>
        case EndOfStream =>
          UpdateGood(srcPtr, dstPtr, dist);
          srcPos, eos := srcPtr + 8, true;
        case Truncated =>
          UpdateGood(srcPtr, dstPtr, dist);
        case Copies(_, _, _, _, _) =>
          dist' := s.D;
          go, srcPtr', dstPtr' := ExecuteCopies(srcPtr, dstPtr, dist, s);
      }
    }

    /** The opcodes that copy something. */
    method ExecuteCopies(srcPtr: nat, dstPtr: nat, dist: nat, s: Step) returns (go: bool, srcPtr': nat, dstPtr': nat)
      requires Running(srcPtr, dstPtr, dist) && s.Copies? && StepFits(src, srcPtr, dist, s)
      modifies this, dst
      ensures dstEnd == old(dstEnd) && (go ==> srcPtr < srcPtr' && dstPtr <= dstPtr')
      ensures forall x :: 0 <= x < dst.Length && !(dstPtr <= x < dstEnd) ==> dst[x] == old(dst[x])
      ensures Settles(Copy(src, srcPtr + s.opcLen, old(dst[..dstPtr]), s.L, s.M, s.D, s.checked, dstEnd, Bytes(dst[..])),
                      old(Current()).(src := srcPtr, out := old(dst[..dstPtr]), dPrev := dist), s.D, go, srcPtr', dstPtr')
      ensures !s.checked && s.M > 0 && s.D == 0 ==> HandsOut(old(dst[..]), dstPtr, s.M, go, dstPtr')
    {
      hide Copy, Settles, HandsOut;
      UpdateGood(srcPtr, dstPtr, dist);
      go, srcPtr', dstPtr' := CopyOp(srcPtr + s.opcLen, dstPtr, s.L, s.M, s.D, s.checked);
    }

    /** The three copying labels. */
    method CopyOp(srcPtr: nat, dstPtr: nat, l: nat, m: nat, dist: nat, checked: bool)
      returns (go: bool, srcPtr': nat, dstPtr': nat)
      requires Running(srcPtr, dstPtr, 0) && l <= 271 && m <= 271 && srcPtr + l < |src|
      requires if checked then l <= 3 && m > 0 else (l == 0 || m == 0) && dist <= dstPtr
      modifies this, dst
      ensures dstEnd == old(dstEnd) && (go ==> dstPtr <= dstPtr')
      ensures forall x :: 0 <= x < dst.Length && !(dstPtr <= x < dstEnd) ==> dst[x] == old(dst[x])
      ensures go ==> srcPtr <= srcPtr'
      ensures Settles(Copy(src, srcPtr, old(dst[..dstPtr]), l, m, dist, checked, dstEnd, Bytes(dst[..])),
                      old(Current()), dist, go, srcPtr', dstPtr')
      ensures !checked && m > 0 && dist == 0 ==> HandsOut(old(dst[..]), dstPtr, m, go, dstPtr')
    {
      if checked {
        go, srcPtr', dstPtr' := CopyLiteralAndMatchOp(srcPtr, dstPtr, l, m, dist);
      } else if m > 0 {
        srcPtr' := srcPtr;
        go, dstPtr' := CopyMatchOp(srcPtr, dstPtr, m, dist);
      } else {
        go, srcPtr', dstPtr' := CopyLiteralOp(srcPtr, dstPtr, l, dist);
      }
    }

    /** One more opcode brings the run as far as it brings the reference, told what the destination holds afterwards. */
    method NextOpcode(srcPtr: nat, dstPtr: nat, dist: nat, ghost start: Next, ghost n: nat)
      returns (go: bool, srcPtr': nat, dstPtr': nat, dist': nat)
      requires Running(srcPtr, dstPtr, dist) && Starts(start, dstPtr)
      requires Brought(start, n, true, srcPtr, dstPtr, dist)
      modifies this, dst
      ensures Valid() && dstEnd == old(dstEnd)
      ensures go ==> srcPtr < srcPtr' && dstPtr <= dstPtr' && Running(srcPtr', dstPtr', dist')
      ensures forall x :: 0 <= x < dst.Length && !(dstPtr <= x < dstEnd) ==> dst[x] == old(dst[x])
      ensures Brought(start, n + 1, go, srcPtr', dstPtr', dist')
      ensures ZeroLength(src, srcPtr, dist) > 0 ==> HandsOut(old(dst[..]), dstPtr, ZeroLength(src, srcPtr, dist), go, dstPtr')
    {
      EndFits(src, srcPtr, dist);
      hide Execute, StepAt, Opcodes;
      ghost var before := Bytes(dst[..]);
      go, srcPtr', dstPtr', dist' := ExecuteOpcode(srcPtr, dstPtr, dist, StepAt(src, srcPtr, dist));
      assert before.b[..dstPtr] == dst[..][..dstPtr];
      ReachAgrees(src, start, dstEnd, before, Bytes(dst[..]), n);
    }

    /** A place to start from, not after `dstPtr`. */
    ghost predicate Starts(start: Next, dstPtr: nat)
      reads this
    {
      start.Go? && start.src < |src| && start.dist <= |start.out| <= dstPtr && dstPtr <= dstEnd <= dst.Length
    }

    /** After `n` opcodes the run is where the reference is, told what the destination holds now. */
    ghost predicate Brought(start: Next, n: nat, go: bool, srcPtr: nat, dstPtr: nat, dist: nat)
      reads this, dst
    {
      && dstEnd <= dst.Length && dstPos <= dst.Length && (go ==> dstPtr <= dst.Length)
      && start.Go? && start.src < |src| && start.dist <= |start.out| <= dstEnd
      && var r := Reach(src, start, dstEnd, Bytes(dst[..]), n);
      if go then r == Go(srcPtr, dst[..dstPtr], dist, Current()) else r.Stop? && r.outcome.state == Current()
    }

    lemma BroughtNowhere(srcPtr: nat, dstPtr: nat, dist: nat)
      requires Running(srcPtr, dstPtr, dist)
      ensures Brought(Go(srcPtr, dst[..dstPtr], dist, Current()), 0, true, srcPtr, dstPtr, dist)
    {}

    lemma BroughtToEnd(start: Next, n: nat, srcPtr: nat, dstPtr: nat, dist: nat)
      requires Brought(start, n, false, srcPtr, dstPtr, dist)
      ensures start.Go? && start.src < |src| && start.dist <= |start.out| <= dstEnd <= dst.Length && dstPos <= dst.Length
      ensures Current() == Opcodes(src, start.src, start.out, start.dist, start.good, dstEnd, Bytes(dst[..])).state
    {
      hide Opcodes, Reach;
      ReachOpcodes(src, start, dstEnd, Bytes(dst[..]), n);
    }

    /** The opcodes from `srcPtr` on. */
    method Run(srcPtr0: nat, dstPtr0: nat, dist0: nat)
      requires Running(srcPtr0, dstPtr0, dist0)
      modifies this, dst
      ensures Valid() && dstEnd == old(dstEnd)
      ensures forall x :: 0 <= x < dst.Length && !(dstPtr0 <= x < dstEnd) ==> dst[x] == old(dst[x])
      ensures Current() == Opcodes(src, srcPtr0, old(dst[..dstPtr0]), dist0, old(Current()), dstEnd, Bytes(dst[..])).state
      ensures forall x :: dstPtr0 <= x < dstPtr0 + ZeroLength(src, srcPtr0, dist0) && x < dstEnd ==> dst[x] == old(dst[x])
    {
      hide Opcodes, ZeroLength, Brought, Reach;
      var go, srcPtr: nat, dstPtr: nat, dist: nat := true, srcPtr0, dstPtr0, dist0;
      ghost var start, z := Go(srcPtr0, dst[..dstPtr0], dist0, Current()), ZeroLength(src, srcPtr0, dist0);
      ghost var n: nat := 0;
      BroughtNowhere(srcPtr, dstPtr, dist);
      while go
        invariant Valid() && dstEnd == old(dstEnd)
        invariant forall x :: 0 <= x < dst.Length && !(dstPtr0 + z <= x < dstEnd) ==> dst[x] == old(dst[x])
        invariant n == 0 ==> go && srcPtr == srcPtr0 && dstPtr == dstPtr0 && dist == dist0
        invariant n > 0 && go ==> dstPtr >= dstPtr0 + z
        invariant Starts(start, dstPtr0) && (go ==> Running(srcPtr, dstPtr, dist) && dstPtr0 <= dstPtr)
        invariant Brought(start, n, go, srcPtr, dstPtr, dist)
        decreases go, |src| - srcPtr
      {
        go, srcPtr, dstPtr, dist := NextOpcode(srcPtr, dstPtr, dist, start, n);
        n := n + 1;
      }
      BroughtToEnd(start, n, srcPtr, dstPtr, dist);
    }

    /** Take up the opcode a full destination interrupted. */
    method Resume() returns (go: bool, srcPtr: nat, dstPtr: nat, dist: nat)
      requires Valid() && (L != 0 || M != 0)
      modifies this, dst
      ensures dstEnd == old(dstEnd) && (go ==> old(dstPos) <= dstPtr)
      ensures forall x :: 0 <= x < dst.Length && !(old(dstPos) <= x < dstEnd) ==> dst[x] == old(dst[x])
      ensures dist == old(D)
      ensures var st := old(Current());
              Settles(Copy(src, st.src, st.out, st.L, st.M, st.D, st.L > 0 && st.M > 0, dstEnd, Bytes(dst[..])), Cleared(st),
                      dist, go, srcPtr, dstPtr)
      ensures old(L == 0 && M > 0 && D == 0) ==> HandsOut(old(dst[..]), old(dstPos), old(M), go, dstPtr)
    {
      var l, m := L, M;
      dist := D;
      L, M, D := 0, 0, 0;
      go, srcPtr, dstPtr := CopyOp(srcPos, dstPos, l, m, dist, l > 0 && m > 0);
    }

    /** lzvn_decode. The state it leaves is that of the reference, told what the destination holds in the end; without a
        match with distance 0 ahead, that of the reference that is told nothing. */
    method Decode()
      requires Valid()
      modifies this, dst
      ensures Valid() && dstEnd == old(dstEnd)
      ensures forall x :: 0 <= x < dst.Length && !(old(dstPos) <= x < dstEnd) ==> dst[x] == old(dst[x])
      ensures Current() == LzvnFormat.Decode(src, old(Current()), dstEnd, Bytes(dst[..])).state
      ensures !ZeroAhead(src, old(Current()), dstEnd) ==>
                Current() == LzvnFormat.Decode(src, old(Current()), dstEnd, Unknown).state
      ensures forall x :: old(dstPos) <= x < old(dstPos + ZeroPending(src, Current())) && x < dstEnd ==> dst[x] == old(dst[x])
    {
      hide Opcodes, Copy, ZeroAhead;
      ghost var st := Current();
      if srcPos != |src| && dstPos != dstEnd {
        if L != 0 || M != 0 {
          var go, srcPtr, dstPtr, dist := Resume();
          ghost var between := Bytes(dst[..]);
          if go {
            Run(srcPtr, dstPtr, dist);
            assert between.b[..dstPtr] == dst[..][..dstPtr];
            CopyAgrees(src, st.src, st.out, st.L, st.M, st.D, st.L > 0 && st.M > 0, dstEnd, between, Bytes(dst[..]));
          }
        } else {
          Run(srcPos, dstPos, dPrev);
        }
      }
      if !ZeroAhead(src, st, dstEnd) {
        HeldIrrelevant(src, st, dstEnd, Bytes(dst[..]));
      }
    }
  }

  /** A stream that starts with a match of one byte hands out the byte the buffer held. */
  method DecodeLeftover(dst: array<Byte>) returns (size: nat)
    requires dst.Length > 0
    modifies dst
    ensures size == 1 && dst[0] == old(dst[0])
  {
    hide ZeroAhead, LzvnFormat.Decode;
    FirstByteLeftover();
    var d := new Decoder(LEFTOVER, dst);
    d.Decode();
    size := d.dstPos;
    Leftover(dst.Length, Bytes(dst[..]));
  }

  lemma FirstByteLeftover()
    ensures ZeroPending(LEFTOVER, START) == 1
  {
    assert StepAt(LEFTOVER, 0, 0) == Copies(1, 0, 1, 0, false);
  }

  lemma EndFits(src: seq<Byte>, pos: nat, dist: nat)
    requires pos < |src|
    ensures StepAt(src, pos, dist).EndOfStream? ==> pos + 8 <= |src|
  {}

  /** lzvn_decode_buffer: the number of bytes produced. */
  method DecodeBuffer(dst: array<Byte>, src: seq<Byte>) returns (size: nat)
    modifies dst
    ensures size <= dst.Length
    ensures dst[..size] == LzvnFormat.Decode(src, START, dst.Length, Bytes(dst[..])).state.out
    ensures !ZeroAhead(src, START, dst.Length) ==> dst[..size] == LzvnFormat.Decode(src, START, dst.Length, Unknown).state.out
  {
    var d := new Decoder(src, dst);
    d.Decode();
    size := d.dstPos;
  }

  /** A state from which the rest of the run `full` is still to come, or its end. */
  ghost predicate Tracks(src: seq<Byte>, st: State, full: Outcome, high: nat) {
    || (st.eos && st == full.state)
    || (&& !st.eos && ValidState(src, st) && |st.out| <= high && LzvnFormat.Decode(src, st, high, Unknown) == full
        && (st == START || |st.out| < |full.state.out|))
  }

  lemma TracksPiece(src: seq<Byte>, st: State, full: Outcome, low: nat, high: nat)
    requires Tracks(src, st, full, high) && !st.eos && full.exit == AtEnd && |st.out| <= low
    ensures LzvnFormat.Decode(src, st, low, Unknown).exit != ZeroDistance
    ensures Tracks(src, LzvnFormat.Decode(src, st, low, Unknown).state, full, high)
    ensures LzvnFormat.Decode(src, st, low, Unknown).state.eos || |LzvnFormat.Decode(src, st, low, Unknown).state.out| == low
  {
    DecodeValid(src, st, high, Unknown);
    if |st.out| < low {
      NotIdle(src, st, high, Unknown);
      NextPiece(src, st, low, high, Unknown);
    }
  }

  /** One more call of the decoder, with the destination end at `limit`. */
  method DecodePiece(d: Decoder, limit: nat, ghost full: Outcome, ghost high: nat)
    requires d.Valid() && !d.eos && d.dstPos <= limit <= d.dst.Length
    requires full.exit == AtEnd ==> Tracks(d.src, d.Current(), full, high)
    modifies d, d.dst
    ensures d.Valid() && d.dstPos <= limit
    ensures full.exit == AtEnd ==> Tracks(d.src, d.Current(), full, high) && (d.eos || d.dstPos == limit)
  {
    if full.exit == AtEnd {
      TracksPiece(d.src, d.Current(), full, limit, high);
      ZeroExactly(d.src, d.Current(), limit);
    }
    d.dstEnd := limit;
    d.Decode();
  }

  /** The decoder called again and again as the destination grows, until the end of the stream. */
  method DecodeOn(d: Decoder, limits: seq<nat>, ghost full: Outcome, ghost high: nat)
    requires d.Valid() && !d.eos && limits != [] && Growing(limits) && d.dstPos <= limits[0]
    requires 0 < limits[|limits| - 1] <= d.dst.Length
    requires full.exit == AtEnd ==> Tracks(d.src, d.Current(), full, high)
    modifies d, d.dst
    ensures d.Valid()
    ensures full.exit == AtEnd && |full.state.out| <= limits[|limits| - 1] ==> d.Current() == full.state
  {
    for i := 0 to |limits|
      invariant d.Valid() && (i < |limits| ==> d.eos || d.dstPos <= limits[i])
      invariant full.exit == AtEnd ==> Tracks(d.src, d.Current(), full, high)
      invariant full.exit == AtEnd && i > 0 && !d.eos ==> d.dstPos == limits[i - 1]
    {
      if !d.eos {
        DecodePiece(d, limits[i], full, high);
      }
    }
  }

  /** Decoding into a destination handed out in pieces produces what one call with destination end
      `high` would. */
  method DecodeInPieces(src: seq<Byte>, dst: array<Byte>, limits: seq<nat>, ghost high: nat) returns (d: Decoder)
    requires limits != [] && Growing(limits) && 0 < limits[|limits| - 1] <= dst.Length
    modifies dst
    ensures d.Valid() && d.dst == dst
    ensures var full := LzvnFormat.Decode(src, START, high, Unknown);
            full.exit == AtEnd && |full.state.out| <= limits[|limits| - 1] ==> d.Current() == full.state
  {
    d := new Decoder(src, dst);
    DecodeOn(d, limits, LzvnFormat.Decode(src, START, high, Unknown), high);
  }

  lemma LiteralThenMatch(src: seq<Byte>, pos: nat, out: seq<Byte>, L: nat, M: nat, D: nat, limit: nat, held: Held)
    requires pos + L <= |src| && |out| + L <= limit && 0 < M && Enough(held, limit)
    ensures Copy(src, pos, out, L, M, D, true, limit, held) ==
              if D == 0 || D > |out| + L then Bad
              else Copy(src, pos + L, out + src[pos..pos + L], 0, M, D, false, limit, held)
  {
    var out1 := out + src[pos..pos + L];
    assert out1 + src[pos + L..pos + L] == out1;
  }

  lemma MatchOnly(src: seq<Byte>, pos: nat, out: seq<Byte>, M: nat, D: nat, limit: nat, held: Held)
    requires pos <= |src| && D <= |out| <= limit && 0 < M && Enough(held, limit) && held.Bytes?
    ensures Copy(src, pos, out, 0, M, D, false, limit, held) ==
              if M > limit - |out| then Full(pos, Matched(out, D, limit - |out|, held), 0, M - (limit - |out|))
              else Done(pos, Matched(out, D, M, held))
  {
    assert out + src[pos..pos] == out;
  }
}
