/**
  Where umm_realloc puts a block, and what becomes of the block partition and of the free list, all told from
  the memory before the call.
 */
module UmmPlaces {
  import opened Words
  import opened UmmHeap
  import opened UmmProofs

  // ---------------------------------------------------------------------- free lists

  /** `n` taken off the free list, if it is there. */
  ghost function Removed(free: seq<nat>, n: nat): (r: seq<nat>) {
    if n in free then Without(free, IndexOf(free, n)) else free
  }

  /** What is left of a free list without the blocks in `gone`, in the same order. */
  ghost function Dropped(free: seq<nat>, gone: set<nat>): (r: seq<nat>)
    ensures forall b :: b in r <==> b in free && b !in gone
  {
    if free == [] then []
    else if free[0] in gone then Dropped(free[1..], gone)
    else [free[0]] + Dropped(free[1..], gone)
  }

  lemma {:induction false} DroppedNone(free: seq<nat>, gone: set<nat>)
    requires forall b :: b in free ==> b !in gone
    ensures Dropped(free, gone) == free
  {
    if free != [] {
      DroppedNone(free[1..], gone);
    }
  }

  lemma {:induction false} DroppedTwice(free: seq<nat>, a: set<nat>, b: set<nat>)
    ensures Dropped(Dropped(free, a), b) == Dropped(free, a + b)
  {
    if free != [] {
      DroppedTwice(free[1..], a, b);
    }
  }

  lemma {:induction false} WithoutDropped(free: seq<nat>, i: nat)
    requires Distinct(free) && i < |free|
    ensures Without(free, i) == Dropped(free, {free[i]})
  {
    if i == 0 {
      DroppedNone(free[1..], {free[0]});
    } else {
      WithoutDropped(free[1..], i - 1);
      assert Without(free, i) == [free[0]] + Without(free[1..], i - 1);
    }
  }

  lemma RemovedDropped(free: seq<nat>, n: nat)
    requires Distinct(free)
    ensures Removed(free, n) == Dropped(free, {n})
  {
    if n in free {
      WithoutDropped(free, IndexOf(free, n));
    } else {
      DroppedNone(free, {n});
    }
  }

  // --------------------------------------------------------------------- the strategies

  /** The cells of the block after `c`, if it is free. */
  ghost function NextRoom(m: seq<Cell>, c: nat): (r: int)
    requires c < |m|
  {
    var n := Nx(m, c);
    if n < |m| && IsFree(m, n) then Size(m, n) else 0
  }

  /** The cells of the block before `c`, if it is free. */
  ghost function PrevRoom(m: seq<Cell>, c: nat): (r: int)
    requires c < |m|
  {
    var p := m[c].prev;
    if p < |m| && IsFree(m, p) then c - p else 0
  }

  /** The cells of block `c` and of its free neighbours. */
  ghost function Reach(m: seq<Cell>, c: nat): (r: int)
    requires c < |m|
  {
    PrevRoom(m, c) + Size(m, c) + NextRoom(m, c)
  }

  /** The block has to start earlier: with the block after it alone it stays too small. */
  ghost predicate GoesDown(m: seq<Cell>, c: nat, k: nat)
    requires c < |m|
  {
    Size(m, c) + NextRoom(m, c) < k
  }

  /** The block after it is needed, whether or not the block before it is. */
  ghost predicate TakesNext(m: seq<Cell>, c: nat, k: nat)
    requires c < |m|
  {
    Size(m, c) < k && (k <= Size(m, c) + NextRoom(m, c) || PrevRoom(m, c) + Size(m, c) < k)
  }

  /** The block where the data of `c` is found after it was resized to `k` cells in its neighbourhood. */
  ghost function Place(m: seq<Cell>, c: nat, k: nat): (r: nat)
    requires c < |m|
  {
    if GoesDown(m, c, k) then m[c].prev else c
  }

  /** The cells of the block and of the neighbours taken. */
  ghost function Room(m: seq<Cell>, c: nat, k: nat): (r: int)
    requires c < |m|
  {
    (if GoesDown(m, c, k) then PrevRoom(m, c) else 0) + Size(m, c) + (if TakesNext(m, c, k) then NextRoom(m, c) else 0)
  }

  /** `b`, if it is `wanted`. */
  function Only(b: nat, wanted: bool): (r: set<nat>) {
    if wanted then {b} else {}
  }

  /** The neighbours taken are no blocks of their own any more and left the free list. */
  ghost predicate Extended(m: seq<Cell>, blocks: set<nat>, free: seq<nat>, c: nat, k: nat, m': seq<Cell>,
                           blocks': set<nat>, free': seq<nat>)
    requires c < |m| && Place(m, c, k) < |m'|
  {
    var n, p := Nx(m, c), m[c].prev;
    && blocks' == blocks - Only(n, TakesNext(m, c, k)) - Only(c, GoesDown(m, c, k))
    && free' == Dropped(free, Only(n, TakesNext(m, c, k)) + Only(p, GoesDown(m, c, k)))
    && Nx(m', Place(m, c, k)) == Place(m, c, k) + Room(m, c, k)
  }

  /** Block `c` was resized to `k` cells in its neighbourhood. What was not needed is one free block at the head of the
      list, joined with the block after it if that is free and was not taken. */
  ghost predicate Fitted(m: seq<Cell>, blocks: set<nat>, free: seq<nat>, c: nat, k: nat,
                         blocks': set<nat>, free': seq<nat>)
    requires c < |m| && Nx(m, c) < |m|
  {
    var n, p := Nx(m, c), m[c].prev;
    var rest := if k < Room(m, c, k) then [Place(m, c, k) + k] else [];
    var joined := Only(n, IsFree(m, n) && (TakesNext(m, c, k) || rest != []));
    && blocks' == blocks - joined - Only(c, GoesDown(m, c, k)) + (set b | b in rest)
    && free' == rest + Dropped(free, joined + Only(p, GoesDown(m, c, k)))
  }

  lemma Neighbours(m: seq<Cell>, blocks: set<nat>, free: seq<nat>, c: nat, k: nat)
    requires Inv(m, blocks, free) && c in Live(m, blocks) && 0 < k <= Reach(m, c)
    ensures var n, p := Nx(m, c), m[c].prev;
            && c < n < |m| && n in blocks && p < c && p in blocks && Nx(m, p) == c
            && (TakesNext(m, c, k) ==> IsFree(m, n) && n < Nx(m, n) < |m| && !IsFree(m, Nx(m, n)) && Nx(m, n) in blocks)
            && (GoesDown(m, c, k) ==> IsFree(m, p) && p in free)
            && Place(m, c, k) + Room(m, c, k) == (if TakesNext(m, c, k) then Nx(m, n) else n)
            && k <= Room(m, c, k)
  {
    PrevFrom(m, blocks, 0, c);
    assert c < Nx(m, c);
    var n := Nx(m, c);
    if n < |m| - 1 {
      assert n < Nx(m, n);
    }
  }

  /** The four in-place strategies by the neighbours they take. */
  lemma ExtendedBy(m: seq<Cell>, blocks: set<nat>, free: seq<nat>, c: nat, k: nat, up: bool, down: bool,
                   m': seq<Cell>, blocks': set<nat>, f1: seq<nat>, free': seq<nat>)
    requires Inv(m, blocks, free) && c in Live(m, blocks) && 0 < k <= Reach(m, c) && |m'| == |m|
    requires up == TakesNext(m, c, k) && down == GoesDown(m, c, k)
    requires f1 == (if up then Removed(free, Nx(m, c)) else free)
    requires free' == (if down then Dropped(f1, {m[c].prev}) else f1)
    requires blocks' == blocks - Only(Nx(m, c), up) - Only(c, down)
    requires Nx(m, c) < |m| && m[c].prev < |m|
    requires Nx(m', if down then m[c].prev else c) == (if up then Nx(m, Nx(m, c)) else Nx(m, c))
    ensures Place(m, c, k) == (if down then m[c].prev else c)
    ensures Extended(m, blocks, free, c, k, m', blocks', free')
  {
    Neighbours(m, blocks, free, c, k);
    var n, p := Nx(m, c), m[c].prev;
    RemovedDropped(free, n);
    DroppedNone(free, {});
    DroppedTwice(free, Only(n, up), Only(p, down));
    DroppedNone(f1, {});
  }

  /** After the neighbours were taken, the block is followed by a free block exactly if it was before and that one was
      not taken. */
  lemma FreeBehind(m: seq<Cell>, blocks: set<nat>, free: seq<nat>, c: nat, k: nat,
                   m': seq<Cell>, blocks': set<nat>, free': seq<nat>)
    requires Inv(m, blocks, free) && c in Live(m, blocks) && 0 < k <= Reach(m, c)
    requires Inv(m', blocks', free') && |m'| == |m| && Place(m, c, k) < |m|
    requires Extended(m, blocks, free, c, k, m', blocks', free')
    ensures var e := Nx(m', Place(m, c, k));
            && Nx(m, c) < |m| && e < |m|
            && (IsFree(m', e) <==> !TakesNext(m, c, k) && IsFree(m, Nx(m, c)))
            && (!TakesNext(m, c, k) ==> e == Nx(m, c)) && (TakesNext(m, c, k) ==> IsFree(m, Nx(m, c)))
            && k <= Room(m, c, k) == Size(m', Place(m, c, k))
            && Distinct(free') && (IsFree(m', e) <==> e in free')
  {
    Neighbours(m, blocks, free, c, k);
    var e := Nx(m', Place(m, c, k));
    assert IsFree(m, e) <==> e in free;
    assert IsFree(m', e) <==> e in free';
  }

  lemma RestJoined(free: seq<nat>, n: nat, taken: bool, isFree: bool, down: set<nat>, f1: seq<nat>, e: nat)
    requires Distinct(f1) && f1 == Dropped(free, Only(n, taken) + down)
    requires (taken ==> isFree) && (e in f1 <==> !taken && isFree) && (!taken ==> e == n)
    ensures Removed(f1, e) == Dropped(free, Only(n, isFree) + down)
  {
    RemovedDropped(f1, e);
    if e in f1 {
      DroppedTwice(free, Only(n, taken) + down, {e});
      assert Only(n, taken) + down + {e} == Only(n, isFree) + down;
    } else {
      DroppedNone(f1, {e});
    }
  }

  /** Splitting off and freeing what was not needed. */
  lemma TrimFits(m: seq<Cell>, blocks: set<nat>, free: seq<nat>, c: nat, k: nat, m1: seq<Cell>, b1: set<nat>, f1: seq<nat>,
                 b2: set<nat>, f2: seq<nat>)
    requires Inv(m, blocks, free) && c in Live(m, blocks) && 0 < k <= Reach(m, c)
    requires Inv(m1, b1, f1) && |m1| == |m| && Place(m, c, k) < |m|
    requires Extended(m, blocks, free, c, k, m1, b1, f1)
    requires var c' := Place(m, c, k);
             var e := Nx(m1, c');
             && e < |m1|
             && if Size(m1, c') == k then b2 == b1 && f2 == f1
                else && b2 == b1 + {c' + k} - Only(e, IsFree(m1, e))
                     && f2 == [c' + k] + Removed(f1, e)
    ensures Nx(m, c) < |m| && Fitted(m, blocks, free, c, k, b2, f2)
  {
    hide Inv, Dropped, Removed, Place, Room, GoesDown, TakesNext;
    FreeBehind(m, blocks, free, c, k, m1, b1, f1);
    var n, e := Nx(m, c), Nx(m1, Place(m, c, k));
    if k < Room(m, c, k) {
      RestJoined(free, n, TakesNext(m, c, k), IsFree(m, n), Only(m[c].prev, GoesDown(m, c, k)), f1, e);
    }
  }

  // ------------------------------------------------------------------------ moving away

  /** Block `c` was given up for `k` cells of the free block `free[i]`: first that one is cut or taken off the list, then
      `c` is joined with its free neighbours, and what they form is listed where the block before was, or else at the
      head. */
  ghost predicate Rehoused(m: seq<Cell>, blocks: set<nat>, free: seq<nat>, c: nat, i: nat, k: nat,
                           blocks': set<nat>, free': seq<nat>)
    requires c < |m| && Nx(m, c) < |m| && m[c].prev < |m| && i < |free| && free[i] < |m|
  {
    var n, p, t := Nx(m, c), m[c].prev, free[i];
    var exact := Size(m, t) == k;
    && blocks' == blocks + Only(t + k, !exact) - Only(n, IsFree(m, n)) - Only(c, IsFree(m, p))
    && free' == (if IsFree(m, p) then [] else [c]) + Removed(if exact then Without(free, i) else free[i := t + k], n)
  }

  lemma Between(m: seq<Cell>, blocks: set<nat>, p: nat, c: nat)
    requires Chain(m, blocks) && p in blocks && c in blocks && p < c
    requires forall x :: x in blocks && p < x ==> c <= x
    ensures Nx(m, p) == c && m[c].prev == p
  {
    assert p < Nx(m, p) <= c;
  }

  /** A block with enough cells is none of the neighbours of `c`, and what is cut off it does not come between. */
  lemma Elsewhere(m: seq<Cell>, blocks: set<nat>, free: seq<nat>, c: nat, i: nat, k: nat)
    requires Inv(m, blocks, free) && c in Live(m, blocks)
    requires i < |free| && free[i] < |m| && 0 < k <= Size(m, free[i]) && Reach(m, c) < k
    ensures var n, p, t := Nx(m, c), m[c].prev, free[i];
            && n < |m| && p < c && n in blocks && p in blocks && c in blocks && t != n && t != p
            && (forall x :: x in blocks && p < x ==> c <= x)
            && (t + k <= p || c < t + k) && (k < Size(m, t) ==> t + k !in blocks)
  {
    PrevFrom(m, blocks, 0, c);
    var n, p, t := Nx(m, c), m[c].prev, free[i];
    assert t in free && c < n;
    assert t < p ==> Nx(m, t) <= p;
    assert p < t ==> Nx(m, p) <= t;
  }

  /** Cutting another block leaves the neighbours of `c` what they were, since neither of them has enough cells. */
  lemma SameNeighbours(m: seq<Cell>, blocks: set<nat>, free: seq<nat>, c: nat, i: nat, k: nat,
                       m1: seq<Cell>, b1: set<nat>, f1: seq<nat>)
    requires Inv(m, blocks, free) && c in Live(m, blocks) && Inv(m1, b1, f1) && |m1| == |m|
    requires i < |free| && free[i] < |m| && 0 < k <= Size(m, free[i]) && Reach(m, c) < k
    requires var exact := Size(m, free[i]) == k;
             && b1 == blocks + Only(free[i] + k, !exact)
             && f1 == (if exact then Without(free, i) else free[i := free[i] + k])
    ensures var n, p := Nx(m, c), m[c].prev;
            && n < |m| && p < |m| && m1[c].prev == p && IsFree(m1, n) == IsFree(m, n) && IsFree(m1, p) == IsFree(m, p)
  {
    hide Links, Gaps, Coalesced, FreeRing, Reach;
    Elsewhere(m, blocks, free, c, i, k);
    Between(m1, b1, m[c].prev, c);
    ListDistinct(m, free);
    CutElements(free, i, if Size(m, free[i]) == k then free[i] else free[i] + k, f1);
  }

  lemma ListDistinct(m: seq<Cell>, free: seq<nat>)
    requires FreeRing(m, free)
    ensures Distinct(free)
  {}

  lemma CutElements(free: seq<nat>, i: nat, t: nat, f1: seq<nat>)
    requires Distinct(free) && i < |free| && (f1 == Without(free, i) || f1 == free[i := t])
    ensures forall b :: b != free[i] && b != t ==> (b in f1 <==> b in free)
  {
    WithoutElements(free, i);
    forall b | b != free[i] && b != t && b in free
      ensures b in free[i := t]
    {
      assert free[i := t][IndexOf(free, b)] == b;
    }
  }
}
