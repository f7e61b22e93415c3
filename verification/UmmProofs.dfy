/** Each edit the allocator makes keeps the pool invariant and the data of the other blocks. */
module UmmProofs {
  import opened Words
  import opened UmmHeap

  // ------------------------------------------------------------------ unlinking

  /** `m'` is `m` with block `c` taken out of the ring and no longer marked. */
  ghost predicate Unlinked(m: seq<Cell>, m': seq<Cell>, c: nat)
    requires c < |m|
  {
    && |m'| == |m|
    && (forall x :: 0 <= x < |m| ==>
          m'[x] == Cell(if x == c then BlockNo(m[x].next) else m[x].next,
                        m[x].prev,
                        if x == m[c].pfree then m[c].nfree else m[x].nfree,
                        if x == m[c].nfree then m[c].pfree else m[x].pfree))
  }

  lemma WithoutElements(free: seq<nat>, i: nat)
    requires i < |free| && Distinct(free)
    ensures Distinct(Without(free, i))
    ensures forall b :: b in Without(free, i) <==> b in free && b != free[i]
  {
    forall b | b in free && b != free[i]
      ensures b in Without(free, i)
    {
      var j := IndexOf(free, b);
      assert Without(free, i)[if j < i then j else j - 1] == b;
    }
  }

  lemma UnlinkedNode(m: seq<Cell>, m': seq<Cell>, free: seq<nat>, i: nat, k: nat)
    requires FreeRing(m, free) && i < |free| && Unlinked(m, m', free[i])
    requires k < |free| && k != i
    ensures m'[free[k]].nfree == Ring(free, if k == i - 1 then i + 1 else k + 1)
    ensures m'[free[k]].pfree == Ring(free, if k == i + 1 then i - 1 else k - 1)
  {
    assert LinkedAt(m, free, i);
    assert LinkedAt(m, free, k);
  }

  lemma UnlinkedHead(m: seq<Cell>, m': seq<Cell>, free: seq<nat>, i: nat)
    requires FreeRing(m, free) && i < |free| && Unlinked(m, m', free[i])
    ensures m'[0].nfree == Ring(free, if i == 0 then 1 else 0)
    ensures m'[0].pfree == Ring(free, if i == |free| - 1 then i - 1 else |free| - 1)
  {
    assert LinkedAt(m, free, i);
  }

  lemma RingWithout(free: seq<nat>, i: nat, j: int)
    requires i < |free|
    ensures Ring(Without(free, i), j) == Ring(free, if 0 <= j < i then j else if j >= 0 then j + 1 else j)
  {}

  lemma UnlinkedAt(m: seq<Cell>, m': seq<Cell>, free: seq<nat>, i: nat, j: nat)
    requires FreeRing(m, free) && i < |free| && Unlinked(m, m', free[i]) && j < |free| - 1
    ensures 0 < Without(free, i)[j] < |m'| && LinkedAt(m', Without(free, i), j)
  {
    var k := if j < i then j else j + 1;
    assert Without(free, i)[j] == free[k];
    UnlinkedNode(m, m', free, i, k);
    RingWithout(free, i, j + 1);
    RingWithout(free, i, j - 1);
  }

  lemma UnlinkedLinked(m: seq<Cell>, m': seq<Cell>, free: seq<nat>, i: nat, free': seq<nat>)
    requires FreeRing(m, free) && i < |free| && Unlinked(m, m', free[i])
    requires free' == Without(free, i) && forall j :: 0 <= j < |free'| ==> free'[j] < |m'|
    ensures Linked(m', free')
  {
    UnlinkedHead(m, m', free, i);
    RingWithout(free, i, 0);
    RingWithout(free, i, |free'| - 1);
    forall j | 0 <= j < |free'|
      ensures LinkedAt(m', free', j)
    {
      UnlinkedAt(m, m', free, i, j);
    }
  }

  lemma UnlinkedRing(m: seq<Cell>, m': seq<Cell>, free: seq<nat>, i: nat)
    requires FreeRing(m, free) && i < |free| && Unlinked(m, m', free[i])
    ensures FreeRing(m', Without(free, i))
  {
    WithoutElements(free, i);
    hide Linked, Distinct;
    var free' := Without(free, i);
    forall j | 0 <= j < |free'|
      ensures 0 < free'[j] < |m'|
    {
      UnlinkedAt(m, m', free, i, j);
    }
    UnlinkedLinked(m, m', free, i, free');
  }

  lemma UnlinkedChain(m: seq<Cell>, m': seq<Cell>, blocks: set<nat>, c: nat)
    requires Chain(m, blocks) && c in blocks && Unlinked(m, m', c)
    ensures Chain(m', blocks)
  {
    assert Bounds(m', blocks);
    assert forall b :: b in blocks ==> Nx(m', b) == Nx(m, b) && m'[b].prev == m[b].prev;
    assert forall b :: b in blocks && IsFree(m', b) ==> IsFree(m, b);
  }

  lemma UnlinkedListed(m: seq<Cell>, m': seq<Cell>, blocks: set<nat>, free: seq<nat>, i: nat)
    requires forall b :: b in blocks ==> b < |m|
    requires Distinct(free) && i < |free| && free[i] < |m|
    requires Listed(m, blocks, free) && Unlinked(m, m', free[i])
    ensures Listed(m', blocks, Without(free, i))
  {
    WithoutElements(free, i);
    assert forall b :: b in blocks && b != free[i] ==> IsFree(m', b) == IsFree(m, b);
  }

  lemma UnlinkedFrame(m: seq<Cell>, m': seq<Cell>, blocks: set<nat>, free: seq<nat>, i: nat)
    requires Inv(m, blocks, free) && i < |free| && Unlinked(m, m', free[i])
    ensures Frame(m, blocks, m', blocks, {})
  {
    var p, n := Ring(free, i - 1), Ring(free, i + 1);
    assert LinkedAt(m, free, i);
    assert p == 0 || p in free;
    assert n == 0 || n in free;
    forall b | b in Live(m, blocks)
      ensures Kept(m, m', blocks, b)
    {
      assert Nx(m', b) == Nx(m, b);
      forall j | b < j < Nx(m, b)
        ensures m'[j] == m[j]
      {
        assert j !in blocks;
      }
    }
  }

  lemma Unlink(m: seq<Cell>, blocks: set<nat>, free: seq<nat>, i: nat)
    requires Inv(m, blocks, free) && i < |free|
    ensures m[free[i]].pfree < |m| && m[free[i]].nfree < |m|
    ensures m[free[i]].pfree != free[i] && m[free[i]].nfree != free[i]
    ensures Inv(UnlinkMem(m, free[i]), blocks, Without(free, i))
    ensures Live(UnlinkMem(m, free[i]), blocks) == Live(m, blocks) + {free[i]}
    ensures Frame(m, blocks, UnlinkMem(m, free[i]), blocks, {})
    ensures Unlinked(m, UnlinkMem(m, free[i]), free[i])
  {
    assert free[i] in free;
    assert LinkedAt(m, free, i);
    var m' := UnlinkMem(m, free[i]);
    assert Unlinked(m, m', free[i]);
    UnlinkedChain(m, m', blocks, free[i]);
    UnlinkedRing(m, m', free, i);
    UnlinkedListed(m, m', blocks, free, i);
    UnlinkedFrame(m, m', blocks, free, i);
    UnlinkedLive(m, m', blocks, free[i]);
  }

  lemma UnlinkedLive(m: seq<Cell>, m': seq<Cell>, blocks: set<nat>, c: nat)
    requires Chain(m, blocks) && c in blocks && IsFree(m, c) && Unlinked(m, m', c)
    ensures Live(m', blocks) == Live(m, blocks) + {c}
  {
    assert forall b :: b in blocks ==> IsFree(m', b) == (b != c && IsFree(m, b));
  }

  // -------------------------------------------------- edits that leave the ring be

  lemma RingUntouched(m: seq<Cell>, m': seq<Cell>, free: seq<nat>)
    requires FreeRing(m, free) && |m'| == |m|
    requires m'[0].nfree == m[0].nfree && m'[0].pfree == m[0].pfree
    requires forall i :: 0 <= i < |free| ==> m'[free[i]].nfree == m[free[i]].nfree && m'[free[i]].pfree == m[free[i]].pfree
    ensures FreeRing(m', free)
  {
    forall i | 0 <= i < |free|
      ensures LinkedAt(m', free, i)
    {
      assert LinkedAt(m, free, i);
    }
  }

  // -------------------------------------------------------------------- joining

  /** `m'` is `m` with the block after `b` swallowed by `b`. */
  ghost predicate Joined(m: seq<Cell>, m': seq<Cell>, b: nat, mark: bool)
    requires b < |m| <= 0x8000 && Nx(m, b) < |m|
  {
    var e := Nx(m, Nx(m, b));
    && |m'| == |m|
    && (forall x :: 0 <= x < |m| ==>
          m'[x] == m[x].(next := if x == b then WithMark(e, mark) else m[x].next,
                         prev := if x == e then b else m[x].prev))
  }

  ghost predicate CanJoin(m: seq<Cell>, blocks: set<nat>, b: nat) {
    && Chain(m, blocks) && b in blocks && b < |m| - 1 && Nx(m, b) < |m| - 1
    && !IsFree(m, Nx(m, b)) && (IsFree(m, b) ==> !IsFree(m, Nx(m, Nx(m, b))))
  }

  lemma JoinedHeaders(m: seq<Cell>, m': seq<Cell>, blocks: set<nat>, b: nat, x: nat)
    requires CanJoin(m, blocks, b) && Joined(m, m', b, IsFree(m, b))
    requires x in blocks
    ensures Nx(m', x) == if x == b then Nx(m, Nx(m, b)) else Nx(m, x)
    ensures IsFree(m', x) == IsFree(m, x)
    ensures m'[x].prev == if x == Nx(m, Nx(m, b)) then b else m[x].prev
  {}

  lemma JoinedLink(m: seq<Cell>, m': seq<Cell>, blocks: set<nat>, b: nat, x: nat)
    requires CanJoin(m, blocks, b) && Joined(m, m', b, IsFree(m, b))
    requires x in blocks && x != Nx(m, b) && x < |m| - 1
    ensures x < Nx(m', x) && Nx(m', x) in blocks && Nx(m', x) != Nx(m, b) && m'[Nx(m', x)].prev == x
  {
    var d := Nx(m, b);
    assert m[d].prev == b && m[Nx(m, d)].prev == d && m[Nx(m, x)].prev == x;
    JoinedHeaders(m, m', blocks, b, x);
    JoinedHeaders(m, m', blocks, b, Nx(m, x));
    JoinedHeaders(m, m', blocks, b, Nx(m, d));
  }

  lemma JoinedBounds(m: seq<Cell>, m': seq<Cell>, blocks: set<nat>, b: nat)
    requires CanJoin(m, blocks, b) && Joined(m, m', b, IsFree(m, b))
    ensures Bounds(m', blocks - {Nx(m, b)})
  {
    assert m[Nx(m, Nx(m, b))].prev == Nx(m, b);
  }

  lemma JoinedLinks(m: seq<Cell>, m': seq<Cell>, blocks: set<nat>, b: nat)
    requires CanJoin(m, blocks, b) && Joined(m, m', b, IsFree(m, b))
    requires Bounds(m', blocks - {Nx(m, b)})
    ensures Links(m', blocks - {Nx(m, b)})
  {
    forall x | x in blocks - {Nx(m, b)} && x < |m| - 1
      ensures x < Nx(m', x) && Nx(m', x) in blocks - {Nx(m, b)} && m'[Nx(m', x)].prev == x
    {
      JoinedLink(m, m', blocks, b, x);
    }
  }

  lemma JoinedGaps(m: seq<Cell>, m': seq<Cell>, blocks: set<nat>, b: nat)
    requires CanJoin(m, blocks, b) && Joined(m, m', b, IsFree(m, b))
    requires Bounds(m', blocks - {Nx(m, b)}) && Links(m', blocks - {Nx(m, b)})
    ensures Gaps(m', blocks - {Nx(m, b)}) && Coalesced(m', blocks - {Nx(m, b)})
  {
    var d := Nx(m, b);
    var blocks' := blocks - {d};
    forall x, y | x in blocks' && y in blocks' && x < y
      ensures Nx(m', x) <= y
    {
      JoinedHeaders(m, m', blocks, b, x);
      assert Nx(m, x) <= y;
      assert d < y ==> Nx(m, d) <= y;
    }
    forall x | x in blocks' && x < |m| - 1 && IsFree(m', x)
      ensures !IsFree(m', Nx(m', x))
    {
      JoinedHeaders(m, m', blocks, b, x);
      JoinedHeaders(m, m', blocks, b, Nx(m', x));
      assert !IsFree(m, Nx(m, x));
    }
  }

  lemma Join(m: seq<Cell>, m': seq<Cell>, blocks: set<nat>, free: seq<nat>, b: nat)
    requires Inv(m, blocks, free) && CanJoin(m, blocks, b) && Joined(m, m', b, IsFree(m, b))
    ensures Inv(m', blocks - {Nx(m, b)}, free)
    ensures Live(m', blocks - {Nx(m, b)}) == Live(m, blocks) - {Nx(m, b)}
    ensures Frame(m, blocks, m', blocks - {Nx(m, b)}, {b, Nx(m, b)})
  {
    assert forall x :: x in blocks ==> IsFree(m', x) == IsFree(m, x);
    JoinedBounds(m, m', blocks, b);
    JoinedLinks(m, m', blocks, b);
    JoinedGaps(m, m', blocks, b);
    RingUntouched(m, m', free);
    JoinedListed(m, m', blocks, free, b);
    JoinedFrame(m, m', blocks, b);
  }

  lemma JoinedListed(m: seq<Cell>, m': seq<Cell>, blocks: set<nat>, free: seq<nat>, b: nat)
    requires CanJoin(m, blocks, b) && Listed(m, blocks, free) && Joined(m, m', b, IsFree(m, b))
    ensures Listed(m', blocks - {Nx(m, b)}, free)
  {
    assert forall x :: x in blocks ==> IsFree(m', x) == IsFree(m, x);
  }

  lemma JoinedFrame(m: seq<Cell>, m': seq<Cell>, blocks: set<nat>, b: nat)
    requires CanJoin(m, blocks, b) && Joined(m, m', b, IsFree(m, b))
    ensures Frame(m, blocks, m', blocks - {Nx(m, b)}, {b, Nx(m, b)})
  {
    var d := Nx(m, b);
    forall x | x in Live(m, blocks) && x !in {b, d}
      ensures Kept(m, m', blocks - {d}, x)
    {
      assert Nx(m', x) == Nx(m, x);
      forall j | x < j < Nx(m, x)
        ensures m'[j] == m[j]
      {
        assert b in blocks && Nx(m, d) in blocks && j !in blocks;
      }
    }
  }

  /** umm_assimilate_down on a used block `c`, whose previous block keeps its mark. */
  lemma Sink(m: seq<Cell>, blocks: set<nat>, free: seq<nat>, c: nat)
    requires Inv(m, blocks, free) && c in Live(m, blocks)
    ensures var p := m[c].prev;
            && p in blocks && p < c && Nx(m, p) == c && m[c].next < |m|
            && (IsFree(m, p) ==> !IsFree(m, Nx(m, c)) ==>
                  var m' := MergeDownMem(m, c, true);
                  && Inv(m', blocks - {c}, free)
                  && Live(m', blocks - {c}) == Live(m, blocks) - {c}
                  && Frame(m, blocks, m', blocks - {c}, {c}))
            && (!IsFree(m, p) && 0 < p ==>
                  var m' := MergeDownMem(m, c, false);
                  && Inv(m', blocks - {c}, free)
                  && Live(m', blocks - {c}) == Live(m, blocks) - {c}
                  && Frame(m, blocks, m', blocks - {c}, {p, c})
                  && Joined(m, m', p, false))
  {
    PrevFrom(m, blocks, 0, c);
    var p := m[c].prev;
    assert p < c < |m| && m[c].next == Nx(m, c) < |m|;
    if IsFree(m, p) && !IsFree(m, Nx(m, c)) {
      var m' := MergeDownMem(m, c, true);
      assert Joined(m, m', p, true);
      Join(m, m', blocks, free, p);
      assert p !in Live(m, blocks);
    } else if !IsFree(m, p) && 0 < p {
      var m' := MergeDownMem(m, c, false);
      assert Joined(m, m', p, false);
      Join(m, m', blocks, free, p);
    }
  }

  /** umm_assimilate_up on a used block whose next block is free. */
  lemma Absorb(m: seq<Cell>, blocks: set<nat>, free: seq<nat>, c: nat, i: nat)
    requires Inv(m, blocks, free) && c in Live(m, blocks) && i < |free| && free[i] == Nx(m, c)
    ensures var n := free[i];
            && m[n].pfree < |m| && m[n].nfree < |m|
            && m[n].pfree != n && m[n].nfree != n
            && var m1 := UnlinkMem(m, n);
            && m1[c].next == n && Nx(m1, n) == Nx(m, n) && Nx(m, n) < |m| && Nx(m, n) != c
            && var m' := MergeUpMem(m1, c);
            && Inv(m', blocks - {n}, Without(free, i))
            && Live(m', blocks - {n}) == Live(m, blocks)
            && Frame(m, blocks, m', blocks - {n}, {c})
            && Nx(m', c) == Nx(m, n) && !IsFree(m', Nx(m, n)) && m'[c].prev == m[c].prev
            && SameData(m, m', c, n)
  {
    var n := free[i];
    assert n in free;
    Unlink(m, blocks, free, i);
    var m1 := UnlinkMem(m, n);
    assert m1[n].next == Nx(m, n) && m1[c].next == n;
    var m' := MergeUpMem(m1, c);
    assert !IsFree(m, Nx(m, n));
    assert Kept(m, m1, blocks, c);
    assert Joined(m1, m', c, false);
    Join(m1, m', blocks, Without(free, i), c);
    assert n !in Live(m, blocks);
    AbsorbFrame(m, m1, m', blocks, c, n);
  }

  lemma AbsorbFrame(m: seq<Cell>, m1: seq<Cell>, m': seq<Cell>, blocks: set<nat>, c: nat, n: nat)
    requires Chain(m, blocks) && Chain(m1, blocks) && |m| == |m1| == |m'|
    requires n !in Live(m, blocks)
    requires Frame(m, blocks, m1, blocks, {}) && Frame(m1, blocks, m', blocks - {n}, {c, n})
    ensures Frame(m, blocks, m', blocks - {n}, {c})
  {
    forall b | b in Live(m, blocks) && b != c
      ensures Kept(m, m', blocks - {n}, b)
    {
      assert Kept(m, m1, blocks, b);
      assert b in Live(m1, blocks);
      assert Kept(m1, m', blocks - {n}, b);
    }
  }

  // -------------------------------------------------------------------- pushing

  /** `m'` is `m` with block `c` marked and put at the head of the free list. */
  ghost predicate Pushed(m: seq<Cell>, m': seq<Cell>, c: nat)
    requires 0 < c < |m| <= 0x8000
  {
    && |m'| == |m|
    && (forall x :: 0 <= x < |m| ==>
          m'[x] == Cell(if x == c then WithMark(m[x].next, true) else m[x].next,
                        m[x].prev,
                        if x == c then m[0].nfree else if x == 0 then c else m[x].nfree,
                        if x == c then 0 else if x == m[0].nfree then c else m[x].pfree))
  }

  /** Block `c` is used and so are both its neighbours. */
  ghost predicate CanPush(m: seq<Cell>, blocks: set<nat>, c: nat) {
    && Chain(m, blocks) && c in Live(m, blocks)
    && m[c].prev < |m| && !IsFree(m, m[c].prev) && !IsFree(m, Nx(m, c))
  }

  lemma PushedBounds(m: seq<Cell>, m': seq<Cell>, blocks: set<nat>, c: nat)
    requires CanPush(m, blocks, c) && Pushed(m, m', c)
    ensures Bounds(m', blocks)
    ensures forall b :: b in blocks ==> Nx(m', b) == Nx(m, b) && m'[b].prev == m[b].prev
    ensures forall b :: b in blocks ==> (IsFree(m', b) <==> b == c || IsFree(m, b))
  {}

  lemma PushedChain(m: seq<Cell>, m': seq<Cell>, blocks: set<nat>, c: nat)
    requires CanPush(m, blocks, c) && Pushed(m, m', c)
    ensures Chain(m', blocks)
  {
    PushedBounds(m, m', blocks, c);
    assert Links(m', blocks) && Gaps(m', blocks);
    forall b | b in blocks && b < |m| - 1 && IsFree(m', b)
      ensures !IsFree(m', Nx(m', b))
    {
      assert m[Nx(m, b)].prev == b;
      assert Nx(m, b) in blocks;
    }
  }

  lemma PushedNode(m: seq<Cell>, m': seq<Cell>, free: seq<nat>, c: nat, j: nat)
    requires FreeRing(m, free) && 0 < c < |m| <= 0x8000 && c !in free && Pushed(m, m', c) && j < |free|
    ensures m'[free[j]].nfree == Ring(free, j + 1)
    ensures m'[free[j]].pfree == if j == 0 then c else Ring(free, j - 1)
  {
    assert m[0].nfree == Ring(free, 0);
    assert LinkedAt(m, free, j);
  }

  lemma PushedHead(m: seq<Cell>, m': seq<Cell>, free: seq<nat>, c: nat)
    requires FreeRing(m, free) && 0 < c < |m| <= 0x8000 && c !in free && Pushed(m, m', c)
    ensures m'[0].nfree == c && m'[0].pfree == if free == [] then c else Ring(free, |free| - 1)
    ensures m'[c].nfree == Ring(free, 0) && m'[c].pfree == 0
  {
    assert m[0].nfree == Ring(free, 0);
    assert m[0].pfree == Ring(free, |free| - 1);
  }

  lemma PushedRing(m: seq<Cell>, m': seq<Cell>, free: seq<nat>, c: nat)
    requires FreeRing(m, free) && 0 < c < |m| <= 0x8000 && c !in free && Pushed(m, m', c)
    ensures FreeRing(m', [c] + free)
  {
    var free' := [c] + free;
    PushedHead(m, m', free, c);
    forall j | 0 <= j < |free'|
      ensures 0 < free'[j] < |m|
      ensures LinkedAt(m', free', j)
    {
      if j > 0 {
        PushedNode(m, m', free, c, j - 1);
      }
    }
  }

  lemma PushedFrame(m: seq<Cell>, m': seq<Cell>, blocks: set<nat>, free: seq<nat>, c: nat)
    requires Inv(m, blocks, free) && CanPush(m, blocks, c) && Pushed(m, m', c)
    ensures Frame(m, blocks, m', blocks, {c})
  {
    var h := m[0].nfree;
    assert h == Ring(free, 0);
    assert h == 0 || h in free;
    forall b | b in Live(m, blocks) && b != c
      ensures Kept(m, m', blocks, b)
    {
      assert Nx(m', b) == Nx(m, b);
      forall j | b < j < Nx(m, b)
        ensures m'[j] == m[j]
      {
        assert j !in blocks;
      }
    }
  }

  lemma Push(m: seq<Cell>, m': seq<Cell>, blocks: set<nat>, free: seq<nat>, c: nat)
    requires Inv(m, blocks, free) && CanPush(m, blocks, c) && Pushed(m, m', c)
    ensures Inv(m', blocks, [c] + free)
    ensures Live(m', blocks) == Live(m, blocks) - {c}
    ensures Frame(m, blocks, m', blocks, {c})
  {
    PushedBounds(m, m', blocks, c);
    PushedChain(m, m', blocks, c);
    assert c !in free;
    PushedRing(m, m', free, c);
    PushedFrame(m, m', blocks, free, c);
  }

  // ------------------------------------------------------------------- splitting

  /** The headers of `m'` are those of `m` with block `c` cut after `k` cells; the
      first part is used and the second one is free if `mark` is set. */
  ghost predicate Cut(m: seq<Cell>, m': seq<Cell>, c: nat, k: nat, mark: bool)
    requires c + k < |m| <= 0x8000
  {
    && |m'| == |m|
    && (forall x :: 0 <= x < |m| ==>
          && m'[x].next == (if x == c then c + k else if x == c + k then WithMark(Nx(m, c), mark) else m[x].next)
          && m'[x].prev == (if x == c + k then c else if x == Nx(m, c) then c + k else m[x].prev))
  }

  ghost predicate CanCut(m: seq<Cell>, blocks: set<nat>, c: nat, k: nat, mark: bool) {
    && Chain(m, blocks) && c in blocks && 0 < c < |m| - 1 && 0 < k && c + k < Nx(m, c)
    && (mark ==> !IsFree(m, Nx(m, c)))
  }

  lemma CutHeaders(m: seq<Cell>, m': seq<Cell>, blocks: set<nat>, c: nat, k: nat, mark: bool, x: nat)
    requires CanCut(m, blocks, c, k, mark) && Cut(m, m', c, k, mark)
    requires x in blocks
    ensures x != c + k
    ensures Nx(m', x) == if x == c then c + k else Nx(m, x)
    ensures IsFree(m', x) == (x != c && IsFree(m, x))
    ensures m'[x].prev == if x == Nx(m, c) then c + k else m[x].prev
  {}

  lemma CutTail(m: seq<Cell>, m': seq<Cell>, blocks: set<nat>, c: nat, k: nat, mark: bool)
    requires CanCut(m, blocks, c, k, mark) && Cut(m, m', c, k, mark)
    ensures c + k !in blocks
    ensures Nx(m', c + k) == Nx(m, c) && m'[c + k].prev == c && IsFree(m', c + k) == mark
  {}

  lemma CutBounds(m: seq<Cell>, m': seq<Cell>, blocks: set<nat>, c: nat, k: nat, mark: bool)
    requires CanCut(m, blocks, c, k, mark) && Cut(m, m', c, k, mark)
    ensures Bounds(m', blocks + {c + k})
  {}

  lemma CutLinks(m: seq<Cell>, m': seq<Cell>, blocks: set<nat>, c: nat, k: nat, mark: bool)
    requires CanCut(m, blocks, c, k, mark) && Cut(m, m', c, k, mark)
    requires Bounds(m', blocks + {c + k})
    ensures Links(m', blocks + {c + k})
  {
    CutTail(m, m', blocks, c, k, mark);
    CutHeaders(m, m', blocks, c, k, mark, Nx(m, c));
    forall x | x in blocks && x < |m| - 1
      ensures x < Nx(m', x) && Nx(m', x) in blocks + {c + k} && m'[Nx(m', x)].prev == x
    {
      assert m[Nx(m, x)].prev == x;
      CutHeaders(m, m', blocks, c, k, mark, x);
      CutHeaders(m, m', blocks, c, k, mark, Nx(m, x));
    }
  }

  lemma CutGaps(m: seq<Cell>, m': seq<Cell>, blocks: set<nat>, c: nat, k: nat, mark: bool)
    requires CanCut(m, blocks, c, k, mark) && Cut(m, m', c, k, mark)
    requires Bounds(m', blocks + {c + k})
    ensures Gaps(m', blocks + {c + k})
  {
    CutTail(m, m', blocks, c, k, mark);
    var blocks' := blocks + {c + k};
    forall x, y | x in blocks' && y in blocks' && x < y
      ensures Nx(m', x) <= y
    {
      if x != c + k {
        CutHeaders(m, m', blocks, c, k, mark, x);
        if y != c + k {
          assert Nx(m, x) <= y;
        } else if x < c {
          assert Nx(m, x) <= c;
        }
      } else {
        assert Nx(m, c) <= y;
      }
    }
  }

  lemma CutCoalesced(m: seq<Cell>, m': seq<Cell>, blocks: set<nat>, c: nat, k: nat, mark: bool)
    requires CanCut(m, blocks, c, k, mark) && Cut(m, m', c, k, mark)
    requires Bounds(m', blocks + {c + k}) && Links(m', blocks + {c + k})
    ensures Coalesced(m', blocks + {c + k})
  {
    CutTail(m, m', blocks, c, k, mark);
    CutHeaders(m, m', blocks, c, k, mark, Nx(m, c));
    forall x | x in blocks && x < |m| - 1 && IsFree(m', x)
      ensures !IsFree(m', Nx(m', x))
    {
      CutHeaders(m, m', blocks, c, k, mark, x);
      CutHeaders(m, m', blocks, c, k, mark, Nx(m, x));
      assert !IsFree(m, Nx(m, x));
    }
  }

  lemma CutChain(m: seq<Cell>, m': seq<Cell>, blocks: set<nat>, c: nat, k: nat, mark: bool)
    requires CanCut(m, blocks, c, k, mark) && Cut(m, m', c, k, mark)
    ensures Chain(m', blocks + {c + k})
  {
    CutBounds(m, m', blocks, c, k, mark);
    CutLinks(m, m', blocks, c, k, mark);
    CutGaps(m, m', blocks, c, k, mark);
    CutCoalesced(m, m', blocks, c, k, mark);
  }

  lemma CutFrame(m: seq<Cell>, m': seq<Cell>, blocks: set<nat>, c: nat, k: nat, mark: bool, free: seq<nat>)
    requires CanCut(m, blocks, c, k, mark) && Cut(m, m', c, k, mark)
    requires forall b :: b in free ==> b in blocks && IsFree(m, b)
    requires forall x :: 0 < x < |m| && x !in free && x != c + k ==> m'[x].nfree == m[x].nfree && m'[x].pfree == m[x].pfree
    ensures Frame(m, blocks, m', blocks + {c + k}, {c})
  {
    forall b | b in Live(m, blocks) && b != c
      ensures Kept(m, m', blocks + {c + k}, b)
    {
      CutHeaders(m, m', blocks, c, k, mark, b);
      assert b !in free;
      forall j | b < j < Nx(m, b)
        ensures m'[j] == m[j]
      {
        assert j !in blocks;
        assert j != c + k by {
          assert b < c ==> Nx(m, b) <= c;
          assert c < b ==> Nx(m, c) <= b;
        }
      }
    }
  }

  /** umm_split_block with a used second part. */
  lemma Split(m: seq<Cell>, m': seq<Cell>, blocks: set<nat>, free: seq<nat>, c: nat, k: nat)
    requires Inv(m, blocks, free) && CanCut(m, blocks, c, k, false) && !IsFree(m, c)
    requires m' == SplitMem(m, c, k, false)
    ensures Inv(m', blocks + {c + k}, free)
    ensures Live(m', blocks + {c + k}) == Live(m, blocks) + {c + k}
    ensures Frame(m, blocks, m', blocks + {c + k}, {c})
    ensures Nx(m', c) == c + k && Nx(m', c + k) == Nx(m, c) && !IsFree(m', c) && !IsFree(m', c + k)
    ensures SameData(m, m', c, c + k)
  {
    assert Cut(m, m', c, k, false);
    assert forall x :: 0 <= x < |m| ==> m'[x].nfree == m[x].nfree && m'[x].pfree == m[x].pfree;
    CutChain(m, m', blocks, c, k, false);
    CutTail(m, m', blocks, c, k, false);
    RingUntouched(m, m', free);
    forall b | b in blocks
      ensures IsFree(m', b) == IsFree(m, b)
    {
      CutHeaders(m, m', blocks, c, k, false, b);
    }
    CutFrame(m, m', blocks, c, k, false, free);
  }

  /** The free-list half of carving: the tail of `free[i]` takes its place in the ring. */
  ghost predicate Relinked(m: seq<Cell>, m': seq<Cell>, c: nat, t: nat)
    requires c < |m| <= 0x8000 && t < |m|
  {
    && |m'| == |m|
    && (forall x :: 0 <= x < |m| ==>
          && m'[x].nfree == (if x == t then m[c].nfree else if x == m[c].pfree then t else m[x].nfree)
          && m'[x].pfree == (if x == t then m[c].pfree else if x == m[c].nfree then t else m[x].pfree))
  }

  lemma RelinkedNode(m: seq<Cell>, m': seq<Cell>, free: seq<nat>, i: nat, t: nat, j: nat)
    requires FreeRing(m, free) && i < |free| && 0 < t < |m| <= 0x8000 && t !in free && Relinked(m, m', free[i], t)
    requires j < |free| && j != i
    ensures m'[free[j]].nfree == if j + 1 == i then t else Ring(free, j + 1)
    ensures m'[free[j]].pfree == if j == i + 1 then t else Ring(free, j - 1)
  {
    assert free[j] in free;
    assert LinkedAt(m, free, i);
    assert LinkedAt(m, free, j);
  }

  lemma RelinkedHead(m: seq<Cell>, m': seq<Cell>, free: seq<nat>, i: nat, t: nat)
    requires FreeRing(m, free) && i < |free| && 0 < t < |m| <= 0x8000 && t !in free && Relinked(m, m', free[i], t)
    ensures m'[0].nfree == if i == 0 then t else Ring(free, 0)
    ensures m'[0].pfree == if i == |free| - 1 then t else Ring(free, |free| - 1)
    ensures m'[t].nfree == Ring(free, i + 1) && m'[t].pfree == Ring(free, i - 1)
  {
    assert LinkedAt(m, free, i);
  }

  lemma ReplaceDistinct(free: seq<nat>, i: nat, t: nat)
    requires Distinct(free) && i < |free| && t !in free
    ensures Distinct(free[i := t])
  {
    assert forall j :: 0 <= j < |free| ==> free[j] in free;
  }

  lemma RingReplace(free: seq<nat>, i: nat, t: nat, j: int)
    requires i < |free|
    ensures Ring(free[i := t], j) == if j == i then t else Ring(free, j)
  {}

  lemma RelinkedAt(m: seq<Cell>, m': seq<Cell>, free: seq<nat>, i: nat, t: nat, j: nat)
    requires FreeRing(m, free) && i < |free| && 0 < t < |m| <= 0x8000 && t !in free && Relinked(m, m', free[i], t)
    requires j < |free|
    ensures free[i := t][j] < |m| && LinkedAt(m', free[i := t], j)
  {
    if j == i {
      RelinkedHead(m, m', free, i, t);
    } else {
      RelinkedNode(m, m', free, i, t, j);
    }
    RingReplace(free, i, t, j + 1);
    RingReplace(free, i, t, j - 1);
  }

  lemma RelinkedLinked(m: seq<Cell>, m': seq<Cell>, free: seq<nat>, i: nat, t: nat, free': seq<nat>)
    requires FreeRing(m, free) && i < |free| && 0 < t < |m| <= 0x8000 && t !in free && Relinked(m, m', free[i], t)
    requires free' == free[i := t] && forall j :: 0 <= j < |free'| ==> free'[j] < |m'|
    ensures Linked(m', free')
  {
    RelinkedEnds(m, m', free, i, t);
    forall j | 0 <= j < |free'|
      ensures LinkedAt(m', free', j)
    {
      RelinkedAt(m, m', free, i, t, j);
    }
  }

  lemma RelinkedRing(m: seq<Cell>, m': seq<Cell>, free: seq<nat>, i: nat, t: nat)
    requires FreeRing(m, free) && i < |free| && 0 < t < |m| <= 0x8000 && t !in free && Relinked(m, m', free[i], t)
    ensures FreeRing(m', free[i := t])
  {
    hide Linked, Distinct;
    ReplaceDistinct(free, i, t);
    RelinkedLinked(m, m', free, i, t, free[i := t]);
  }

  lemma RelinkedEnds(m: seq<Cell>, m': seq<Cell>, free: seq<nat>, i: nat, t: nat)
    requires FreeRing(m, free) && i < |free| && 0 < t < |m| <= 0x8000 && t !in free && Relinked(m, m', free[i], t)
    ensures |m'| == |m|
    ensures m'[0].nfree == Ring(free[i := t], 0) && m'[0].pfree == Ring(free[i := t], |free| - 1)
  {
    RelinkedHead(m, m', free, i, t);
    RingReplace(free, i, t, 0);
    RingReplace(free, i, t, |free| - 1);
  }

  lemma CarvedShape(m: seq<Cell>, c: nat, k: nat)
    requires 0 < k && 0 < c < |m| <= 0x8000 && c + k < Nx(m, c) < |m|
    requires m[c].pfree < |m| && m[c].nfree < |m|
    requires m[c].pfree != c && m[c].nfree != c && m[c].pfree != c + k && m[c].nfree != c + k
    ensures Cut(m, CarveMem(m, c, k), c, k, true)
    ensures Relinked(m, CarveMem(m, c, k), c, c + k)
  {
    var m0 := SplitMem(m, c, k, true);
    CarvedSplit(m, c, k);
    hide SplitMem;
    var m' := CarveMem(m, c, k);
    assert forall x :: 0 <= x < |m| ==> m'[x].next == m0[x].next && m'[x].prev == m0[x].prev;
  }

  /** Splitting leaves all free-list links as they are. */
  lemma CarvedSplit(m: seq<Cell>, c: nat, k: nat)
    requires 0 < k && 0 < c < |m| <= 0x8000 && c + k < Nx(m, c) < |m|
    ensures var m0 := SplitMem(m, c, k, true);
            && Cut(m, m0, c, k, true)
            && forall x :: 0 <= x < |m| ==> m0[x].nfree == m[x].nfree && m0[x].pfree == m[x].pfree
  {}

  /** The splitting branch of umm_malloc. */
  lemma Carve(m: seq<Cell>, blocks: set<nat>, free: seq<nat>, i: nat, k: nat)
    requires Inv(m, blocks, free) && i < |free| && 0 < k < Size(m, free[i])
    ensures m[free[i]].pfree < |m| && m[free[i]].nfree < |m|
    ensures m[free[i]].pfree != free[i] && m[free[i]].nfree != free[i]
    ensures Nx(m, free[i]) < |m|
    ensures var c := free[i];
            var m' := CarveMem(m, c, k);
            && Inv(m', blocks + {c + k}, free[i := c + k])
            && Live(m', blocks + {c + k}) == Live(m, blocks) + {c}
            && Frame(m, blocks, m', blocks + {c + k}, {})
            && !IsFree(m', c) && Nx(m', c) == c + k && Nx(m', c + k) == Nx(m, c)
  {
    var c := free[i];
    var t := c + k;
    assert c in free;
    assert LinkedAt(m, free, i);
    assert CanCut(m, blocks, c, k, true) by {
      assert !IsFree(m, Nx(m, c));
    }
    assert t !in blocks;
    assert t !in free;
    CarvedShape(m, c, k);
    var m' := CarveMem(m, c, k);
    CutChain(m, m', blocks, c, k, true);
    CutTail(m, m', blocks, c, k, true);
    CutHeaders(m, m', blocks, c, k, true, c);
    RelinkedRing(m, m', free, i, t);
    CarvedListed(m, m', blocks, free, i, k);
    CarvedLive(m, m', blocks, c, k);
    CutFrame(m, m', blocks, c, k, true, free);
  }

  lemma CarvedLive(m: seq<Cell>, m': seq<Cell>, blocks: set<nat>, c: nat, k: nat)
    requires CanCut(m, blocks, c, k, true) && Cut(m, m', c, k, true) && IsFree(m, c)
    ensures Live(m', blocks + {c + k}) == Live(m, blocks) + {c}
  {
    CutTail(m, m', blocks, c, k, true);
    forall b | b in blocks
      ensures IsFree(m', b) == (b != c && IsFree(m, b))
    {
      CutHeaders(m, m', blocks, c, k, true, b);
    }
  }

  lemma CarvedListed(m: seq<Cell>, m': seq<Cell>, blocks: set<nat>, free: seq<nat>, i: nat, k: nat)
    requires Chain(m, blocks) && Distinct(free) && Listed(m, blocks, free) && i < |free|
    requires CanCut(m, blocks, free[i], k, true) && Cut(m, m', free[i], k, true)
    ensures Listed(m', blocks + {free[i] + k}, free[i := free[i] + k])
  {
    var c := free[i];
    var free' := free[i := c + k];
    CutTail(m, m', blocks, c, k, true);
    forall b | b in blocks
      ensures IsFree(m', b) == (b != c && IsFree(m, b))
    {
      CutHeaders(m, m', blocks, c, k, true, b);
    }
    assert free'[i] == c + k;
    forall b | b in free && b != c
      ensures b in free'
    {
      assert free'[IndexOf(free, b)] == b;
    }
  }

  // ---------------------------------------------------------------- user writes

  /** `m'` differs from `m` at most in the user data of block `c`. */
  ghost predicate Written(m: seq<Cell>, m': seq<Cell>, c: nat)
    requires c < |m|
  {
    && |m'| == |m|
    && m'[c].next == m[c].next && m'[c].prev == m[c].prev
    && (forall x :: 0 <= x < |m| && !(c <= x < Nx(m, c)) ==> m'[x] == m[x])
  }

  /** Callers may store anything in the bytes they were given. */
  lemma Write(m: seq<Cell>, m': seq<Cell>, blocks: set<nat>, free: seq<nat>, c: nat)
    requires Inv(m, blocks, free) && c in Live(m, blocks) && Written(m, m', c)
    ensures Inv(m', blocks, free)
    ensures Live(m', blocks) == Live(m, blocks)
    ensures Frame(m, blocks, m', blocks, {c})
  {
    WrittenHeaders(m, m', blocks, c);
    WrittenChain(m, m', blocks, c);
    forall i | 0 <= i < |free|
      ensures m'[free[i]] == m[free[i]]
    {
      assert free[i] in free;
    }
    RingUntouched(m, m', free);
    assert Listed(m', blocks, free);
    WrittenFrame(m, m', blocks, c);
  }

  lemma WrittenHeaders(m: seq<Cell>, m': seq<Cell>, blocks: set<nat>, c: nat)
    requires Chain(m, blocks) && c in Live(m, blocks) && Written(m, m', c)
    ensures forall b :: b in blocks ==> Nx(m', b) == Nx(m, b) && m'[b].prev == m[b].prev
    ensures forall b :: b in blocks ==> IsFree(m', b) == IsFree(m, b)
    ensures forall b :: b in blocks && b != c ==> m'[b] == m[b]
    ensures m'[|m| - 1].next == 0
  {}

  lemma WrittenChain(m: seq<Cell>, m': seq<Cell>, blocks: set<nat>, c: nat)
    requires Chain(m, blocks) && c in Live(m, blocks) && Written(m, m', c)
    ensures Chain(m', blocks)
  {
    WrittenHeaders(m, m', blocks, c);
    SameHeaders(m, m', blocks);
  }

  /** The chain depends on nothing but the headers of the blocks. */
  lemma SameHeaders(m: seq<Cell>, m': seq<Cell>, blocks: set<nat>)
    requires Chain(m, blocks) && |m'| == |m|
    requires m'[|m| - 1].next == 0
    requires forall b :: b in blocks ==> Nx(m', b) == Nx(m, b) && m'[b].prev == m[b].prev
    requires forall b :: b in blocks ==> IsFree(m', b) == IsFree(m, b)
    ensures Chain(m', blocks)
  {
    assert Bounds(m', blocks);
    assert Links(m', blocks);
    assert Gaps(m', blocks);
  }

  lemma WrittenFrame(m: seq<Cell>, m': seq<Cell>, blocks: set<nat>, c: nat)
    requires Chain(m, blocks) && c in Live(m, blocks) && Written(m, m', c)
    ensures Frame(m, blocks, m', blocks, {c})
  {
    forall b | b in Live(m, blocks) && b != c
      ensures Kept(m, m', blocks, b)
    {
      assert b < c ==> Nx(m, b) <= c;
      assert c < b ==> Nx(m, c) <= b;
    }
  }

  // ------------------------------------------------------------- combined frames

  lemma FrameTransitive(m0: seq<Cell>, b0: set<nat>, m1: seq<Cell>, b1: set<nat>, m2: seq<Cell>, b2: set<nat>,
                        touched: set<nat>)
    requires Chain(m0, b0) && Chain(m1, b1) && |m0| == |m1| == |m2|
    requires Frame(m0, b0, m1, b1, touched) && Frame(m1, b1, m2, b2, touched)
    ensures Frame(m0, b0, m2, b2, touched)
  {
    forall b | b in Live(m0, b0) && b !in touched
      ensures Kept(m0, m2, b2, b)
    {
      assert Kept(m0, m1, b1, b);
      assert b in Live(m1, b1);
      assert Kept(m1, m2, b2, b);
    }
  }

  // ------------------------------------------------------ what the chain determines

  /** Every block but block 0 is the `next` of its `prev`. */
  lemma {:induction false} PrevFrom(m: seq<Cell>, blocks: set<nat>, b: nat, x: nat)
    requires Chain(m, blocks) && b in blocks && x in blocks && b < x
    ensures m[x].prev in blocks && b <= m[x].prev < x && Nx(m, m[x].prev) == x
    decreases x - b
  {
    assert b < Nx(m, b) <= x;
    if Nx(m, b) < x {
      PrevFrom(m, blocks, Nx(m, b), x);
    }
  }

  /** Every cell but the last lies in exactly one block. */
  lemma {:induction false} OwnerFrom(m: seq<Cell>, blocks: set<nat>, b: nat, x: nat) returns (o: nat)
    requires Chain(m, blocks) && b in blocks && b <= x < |m| - 1
    ensures o in blocks && o <= x < Nx(m, o)
    ensures forall o' :: o' in blocks && o' <= x < Nx(m, o') ==> o' == o
    decreases x - b
  {
    if x < Nx(m, b) {
      o := b;
    } else {
      assert b < Nx(m, b);
      o := OwnerFrom(m, blocks, Nx(m, b), x);
    }
  }

  /** Two descriptions of memories that agree on the chain up to `x` agree on `x`. */
  lemma {:induction false} SameBlock(m: seq<Cell>, blocks: set<nat>, m': seq<Cell>, blocks': set<nat>, x: nat)
    requires Chain(m, blocks) && Chain(m', blocks') && |m| == |m'|
    requires x in blocks
    requires forall b :: b in blocks && b < x ==> Nx(m', b) == Nx(m, b)
    ensures x in blocks'
    decreases x
  {
    if x > 0 {
      PrevFrom(m, blocks, 0, x);
      var p := m[x].prev;
      SameBlock(m, blocks, m', blocks', p);
      assert Nx(m', p) == x;
    }
  }

  lemma {:induction false} SameFree(m: seq<Cell>, free: seq<nat>, free': seq<nat>, i: nat)
    requires FreeRing(m, free) && FreeRing(m, free') && i <= |free|
    ensures i <= |free'| && free[..i] == free'[..i]
    ensures Ring(free, i) == Ring(free', i)
    decreases i
  {
    if i > 0 {
      SameFree(m, free, free', i - 1);
      assert free[i - 1] == free'[i - 1];
      assert LinkedAt(m, free, i - 1) && LinkedAt(m, free', i - 1);
    }
  }

  /** The memory alone determines the block partition and the free list. */
  lemma Determined(m: seq<Cell>, blocks: set<nat>, free: seq<nat>, blocks': set<nat>, free': seq<nat>)
    requires Inv(m, blocks, free) && Inv(m, blocks', free')
    ensures blocks == blocks' && free == free'
  {
    forall x | x in blocks
      ensures x in blocks'
    {
      SameBlock(m, blocks, m, blocks', x);
    }
    forall x | x in blocks'
      ensures x in blocks
    {
      SameBlock(m, blocks', m, blocks, x);
    }
    SameFree(m, free, free', |free|);
    SameFree(m, free', free, |free'|);
  }

  /** A block whose `next` leads back to itself cannot be part of a valid pool. */
  lemma SelfLoopBreaks(m: seq<Cell>, blocks: set<nat>, free: seq<nat>, m': seq<Cell>, c: nat)
    requires Inv(m, blocks, free) && c in blocks && c < |m| - 1 && |m'| == |m|
    requires forall b :: b in blocks && b < c ==> Nx(m', b) == Nx(m, b)
    requires Nx(m', c) == c
    ensures !exists b, f :: Inv(m', b, f)
  {
    forall b, f | Inv(m', b, f)
      ensures false
    {
      SameBlock(m, blocks, m', b, c);
    }
  }

  // -------------------------------------------------------------- sizes of blocks

  /** The sizes of the blocks from `b` on. */
  ghost function Sizes(m: seq<Cell>, blocks: set<nat>, b: nat): (r: seq<nat>)
    requires Chain(m, blocks) && b in blocks
    decreases |m| - b
  {
    if b == |m| - 1 then [] else [Size(m, b)] + Sizes(m, blocks, Nx(m, b))
  }

  /** Cells are conserved: the sizes of the blocks add up to all cells but the last. */
  lemma {:induction false} SizesSum(m: seq<Cell>, blocks: set<nat>, b: nat)
    requires Chain(m, blocks) && b in blocks
    ensures Sum(Sizes(m, blocks, b)) == |m| - 1 - b
    decreases |m| - b
  {
    if b < |m| - 1 {
      SizesSum(m, blocks, Nx(m, b));
      assert Sizes(m, blocks, b)[1..] == Sizes(m, blocks, Nx(m, b));
    }
  }

  // ------------------------------------------------------------------- the empty pool

  /** The memory umm_init leaves. */
  function InitMem(n: nat): (m: seq<Cell>)
    requires 3 <= n <= 0x8000
    ensures |m| == n
  {
    seq(n, i => if i == 0 then Cell(1, 0, 1, 1)
                else if i == 1 then Cell(n - 1 + 0x8000, 0, 0, 0)
                else if i == n - 1 then Cell(0, 1, 0, 0)
                else ZERO_CELL)
  }

  lemma InitInv(n: nat)
    requires 3 <= n <= 0x8000
    ensures Inv(InitMem(n), {0, 1, n - 1}, [1])
  {
    var m := InitMem(n);
    assert Bounds(m, {0, 1, n - 1});
    assert Nx(m, 0) == 1 && Nx(m, 1) == n - 1;
  }
}
