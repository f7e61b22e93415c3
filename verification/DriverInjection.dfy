/**
  The hook on IOCatalogue::addDrivers: the first time an entry of a known bundle comes by, the
  entries prepared for that bundle are inserted in front of it.
 */
module DriverInjection {

  /** An entry of the driver array: a dictionary with a bundle identifier, or anything else. */
  datatype Entry = Driver(bundle: string, tag: nat) | Other(tag: nat)

  /** The bundles that get additional entries. */
  const BUNDLES: seq<string> := [
    "com.apple.kext.AMDRadeonX6000",
    "com.apple.kext.AMDRadeonX6000Framebuffer",
    "com.apple.driver.AppleGFXHDA"
  ]

  predicate Names(e: Entry, bundle: string) {
    e.Driver? && |e.bundle| > 0 && e.bundle == bundle
  }

  /** The first bundle, from `i` on, that `e` names and that was not seen before. */
  function Match(e: Entry, bundles: seq<string>, matched: set<nat>, i: nat): (k: nat)
    requires i <= |bundles|
    ensures i <= k <= |bundles|
    ensures k < |bundles| ==> k !in matched && Names(e, bundles[k])
    ensures forall j :: i <= j < k ==> j in matched || !Names(e, bundles[j])
    decreases |bundles| - i
  {
    if i == |bundles| then i
    else if i !in matched && Names(e, bundles[i]) then i
    else Match(e, bundles, matched, i + 1)
  }

  // --------------------------------------------------------------- the specification

  /** An entry of the resulting array, with where it came from. */
  datatype Item = Original(entry: Entry) | Injected(bundle: nat, entry: Entry)

  function Injections(k: nat, entries: seq<Entry>): (r: seq<Item>)
    ensures |r| == |entries|
    ensures forall i :: 0 <= i < |entries| ==> r[i] == Injected(k, entries[i])
  {
    seq(|entries|, i requires 0 <= i < |entries| => Injected(k, entries[i]))
  }

  datatype Outcome = Outcome(items: seq<Item>, matched: set<nat>)

  /** One entry of the array, with what is put in front of it. */
  function Place(e: Entry, bundles: seq<string>, extra: seq<seq<Entry>>, matched: set<nat>): (r: Outcome)
    requires |extra| == |bundles|
    ensures |r.items| > 0
  {
    var k := Match(e, bundles, matched, 0);
    if k == |bundles| then Outcome([Original(e)], matched)
    else Outcome(Injections(k, extra[k]) + [Original(e)], matched + {k})
  }

  /** What one call makes of an array, entry by entry. */
  function Inject(a: seq<Entry>, bundles: seq<string>, extra: seq<seq<Entry>>, matched: set<nat>): (r: Outcome)
    requires |extra| == |bundles|
  {
    if a == [] then Outcome([], matched)
    else
      var p := Place(a[0], bundles, extra, matched);
      var r := Inject(a[1..], bundles, extra, p.matched);
      Outcome(p.items + r.items, r.matched)
  }

  /** The array as the kernel sees it. */
  function Entries(items: seq<Item>): (r: seq<Entry>)
    ensures |r| == |items|
  {
    seq(|items|, i requires 0 <= i < |items| => items[i].entry)
  }

  /** The array without the injected entries. */
  function Originals(items: seq<Item>): (r: seq<Entry>) {
    if items == [] then []
    else if items[0].Original? then [items[0].entry] + Originals(items[1..])
    else Originals(items[1..])
  }

  /** The entries injected for bundle `k`, in order. */
  function InjectedFor(items: seq<Item>, k: nat): (r: seq<Entry>) {
    if items == [] then []
    else if items[0].Injected? && items[0].bundle == k then [items[0].entry] + InjectedFor(items[1..], k)
    else InjectedFor(items[1..], k)
  }

  // -------------------------------------------------------------------- the hook

  /** An OSArray; `setObject` with an index inserts. */
  class EntryArray {
    var items: seq<Entry>

    constructor (items: seq<Entry>)
      ensures this.items == items
    {
      this.items := items;
    }

    method SetObject(i: nat, e: Entry)
      requires i <= |items|
      modifies this
      ensures items == old(items)[..i] + [e] + old(items)[i..]
    {
      items := items[..i] + [e] + items[i..];
    }
  }

  class Hook {
    const bundles: seq<string>
    const extra: seq<seq<Entry>>
    /** The bits set in MatchedDrivers. */
    var matched: set<nat>

    ghost predicate Valid()
      reads this
    {
      |extra| == |bundles|
    }

    constructor (extra: seq<seq<Entry>>)
      requires |extra| == |BUNDLES|
      ensures Valid() && bundles == BUNDLES && this.extra == extra && matched == {}
    {
      bundles, this.extra, matched := BUNDLES, extra, {};
    }

    /** The search over the known bundles. */
    method FindBundle(e: Entry) returns (k: nat)
      requires Valid()
      ensures k == Match(e, bundles, matched, 0)
    {
      k := 0;
      while k < |bundles|
        invariant k <= |bundles| && Match(e, bundles, matched, 0) == Match(e, bundles, matched, k)
      {
        if k !in matched && Names(e, bundles[k]) {
          return;
        }
        k := k + 1;
      }
    }

    /** Insert `entries` at `index`; the index moves past them. */
    method InsertAt(list: EntryArray, index: nat, entries: seq<Entry>) returns (index': nat)
      requires index <= |list.items|
      modifies list
      ensures list.items == old(list.items)[..index] + entries + old(list.items)[index..]
      ensures index' == index + |entries|
    {
      index' := index;
      for i := 0 to |entries|
        invariant index' == index + i <= |list.items|
        invariant list.items == old(list.items)[..index] + entries[..i] + old(list.items)[index..]
      {
        list.SetObject(index', entries[i]);
        index' := index' + 1;
        assert entries[..i + 1] == entries[..i] + [entries[i]];
      }
      assert entries[..|entries|] == entries;
    }

    /** One pass of the outer loop: the entry at `index` is left as it is, or entries go in front of it. */
    method Visit(list: EntryArray, index: nat) returns (index': nat, added: nat)
      requires Valid() && index < |list.items|
      modifies this, list
      ensures Valid()
      ensures var r := Place(old(list.items)[index], bundles, extra, old(matched));
              && list.items == old(list.items)[..index] + Entries(r.items) + old(list.items)[index + 1..]
              && index' == index + |r.items| && added == |r.items| - 1 && matched == r.matched
    {
      ghost var before, e := list.items, list.items[index];
      assert before == before[..index] + [e] + before[index + 1..];
      var k := FindBundle(list.items[index]);
      index', added := index, 0;
      if k < |bundles| {
        matched := matched + {k};
        index' := InsertAt(list, index, extra[k]);
        added := |extra[k]|;
        EntriesAppend(Injections(k, extra[k]), [Original(e)]);
        assert before[index..] == [e] + before[index + 1..];
        assert Entries(Injections(k, extra[k])) == extra[k];
      }
      assert Entries([Original(e)]) == [e];
      index' := index' + 1;
    }

    /** WrapAddDrivers up to the call of the original function. */
    method AddDrivers(list: EntryArray)
      requires Valid()
      modifies this, list
      ensures Valid()
      ensures var r := Inject(old(list.items), bundles, extra, old(matched));
              list.items == Entries(r.items) && matched == r.matched
    {
      ghost var input := list.items;
      ghost var whole := Inject(input, bundles, extra, matched);
      ghost var done: seq<Item> := [];
      ghost var n := 0;
      var index, count := 0, |list.items|;
      hide Place, Inject, Entries;
      while index < count
        invariant Valid() && n <= |input| && index == |done| && count == |list.items|
        invariant list.items == Entries(done) + input[n..]
        invariant Splits(whole, done, Inject(input[n..], bundles, extra, matched))
        decreases |input| - n
      {
        ghost var p := Place(input[n], bundles, extra, matched);
        ghost var before := list.items;
        assert before[index] == input[n];
        SplitsStep(whole, done, input, n, bundles, extra, matched);
        var added;
        index, added := Visit(list, index);
        count := count + added;
        ItemsStep(before, done, p.items, input, n);
        done := done + p.items;
        n := n + 1;
      }
      NothingLeft(input[n..], bundles, extra, matched);
      assert list.items == Entries(done);
    }
  }

  lemma NothingLeft(a: seq<Entry>, bundles: seq<string>, extra: seq<seq<Entry>>, matched: set<nat>)
    requires |extra| == |bundles|
    ensures a == [] ==> Inject(a, bundles, extra, matched) == Outcome([], matched)
  {}

  lemma SplitsStep(whole: Outcome, done: seq<Item>, input: seq<Entry>, n: nat, bundles: seq<string>, extra: seq<seq<Entry>>,
                   matched: set<nat>)
    requires |extra| == |bundles| && n < |input|
    requires Splits(whole, done, Inject(input[n..], bundles, extra, matched))
    ensures var p := Place(input[n], bundles, extra, matched);
            Splits(whole, done + p.items, Inject(input[n + 1..], bundles, extra, p.matched))
  {
    hide Place;
    assert input[n..][1..] == input[n + 1..];
    InjectStep(input[n..], bundles, extra, matched);
  }

  lemma ItemsStep(before: seq<Entry>, done: seq<Item>, more: seq<Item>, input: seq<Entry>, n: nat)
    requires n < |input| && before == Entries(done) + input[n..]
    ensures before[..|done|] + Entries(more) + before[|done| + 1..] == Entries(done + more) + input[n + 1..]
  {
    EntriesAppend(done, more);
    hide Entries;
    assert before[..|done|] == Entries(done) && before[|done| + 1..] == input[n + 1..];
  }

  ghost predicate Splits(whole: Outcome, done: seq<Item>, rest: Outcome) {
    whole == Outcome(done + rest.items, rest.matched)
  }

  lemma InjectStep(a: seq<Entry>, bundles: seq<string>, extra: seq<seq<Entry>>, matched: set<nat>)
    requires |extra| == |bundles| && a != []
    ensures var p := Place(a[0], bundles, extra, matched);
            var r := Inject(a[1..], bundles, extra, p.matched);
            Inject(a, bundles, extra, matched) == Outcome(p.items + r.items, r.matched)
  {}

  lemma EntriesAppend(a: seq<Item>, b: seq<Item>)
    ensures Entries(a + b) == Entries(a) + Entries(b)
  {}

  // ----------------------------------------------------------- what one call promises

  lemma {:induction false} OriginalsAppend(a: seq<Item>, b: seq<Item>)
    ensures Originals(a + b) == Originals(a) + Originals(b)
    decreases |a|
  {
    if a == [] {
      assert a + b == b;
    } else {
      OriginalsAppend(a[1..], b);
      assert (a + b)[1..] == a[1..] + b;
    }
  }

  lemma {:induction false} InjectionsAreNew(k: nat, entries: seq<Entry>)
    ensures Originals(Injections(k, entries)) == []
    decreases |entries|
  {
    if entries != [] {
      InjectionsAreNew(k, entries[1..]);
      assert Injections(k, entries)[1..] == Injections(k, entries[1..]);
    }
  }

  lemma PlaceKeepsEntry(e: Entry, bundles: seq<string>, extra: seq<seq<Entry>>, matched: set<nat>)
    requires |extra| == |bundles|
    ensures Originals(Place(e, bundles, extra, matched).items) == [e]
  {
    var k := Match(e, bundles, matched, 0);
    if k < |bundles| {
      OriginalsAppend(Injections(k, extra[k]), [Original(e)]);
      InjectionsAreNew(k, extra[k]);
    }
    assert Originals([Original(e)]) == [e];
  }

  /** Deleting the injected entries gives back the array that was passed in. */
  lemma {:induction false} OriginalsRestored(a: seq<Entry>, bundles: seq<string>, extra: seq<seq<Entry>>, matched: set<nat>)
    requires |extra| == |bundles|
    ensures Originals(Inject(a, bundles, extra, matched).items) == a
    decreases |a|
  {
    if a != [] {
      var p := Place(a[0], bundles, extra, matched);
      PlaceKeepsEntry(a[0], bundles, extra, matched);
      OriginalsRestored(a[1..], bundles, extra, p.matched);
      hide Place;
      OriginalsAppend(p.items, Inject(a[1..], bundles, extra, p.matched).items);
    }
  }

  lemma {:induction false} InjectedForAppend(a: seq<Item>, b: seq<Item>, k: nat)
    ensures InjectedFor(a + b, k) == InjectedFor(a, k) + InjectedFor(b, k)
    decreases |a|
  {
    if a == [] {
      assert a + b == b;
    } else {
      InjectedForAppend(a[1..], b, k);
      assert (a + b)[1..] == a[1..] + b;
    }
  }

  lemma {:induction false} InjectionsFor(j: nat, entries: seq<Entry>, k: nat)
    ensures InjectedFor(Injections(j, entries), k) == if j == k then entries else []
    decreases |entries|
  {
    if entries != [] {
      InjectionsFor(j, entries[1..], k);
      assert Injections(j, entries)[1..] == Injections(j, entries[1..]);
    }
  }

  /** One entry injects the list of the bundle it newly matches and nothing else. */
  lemma PlaceInjects(e: Entry, bundles: seq<string>, extra: seq<seq<Entry>>, matched: set<nat>, k: nat)
    requires |extra| == |bundles| && k < |bundles|
    ensures var p := Place(e, bundles, extra, matched);
            && matched <= p.matched
            && InjectedFor(p.items, k) == if k in p.matched && k !in matched then extra[k] else []
  {
    var j := Match(e, bundles, matched, 0);
    if j < |bundles| {
      InjectedForAppend(Injections(j, extra[j]), [Original(e)], k);
      InjectionsFor(j, extra[j], k);
    }
    assert InjectedFor([Original(e)], k) == [];
  }

  /** A call injects the complete list of every bundle it newly matches, once, and nothing of the others. */
  lemma {:induction false} InjectedOnce(a: seq<Entry>, bundles: seq<string>, extra: seq<seq<Entry>>,
                                        matched: set<nat>, k: nat)
    requires |extra| == |bundles| && k < |bundles|
    ensures var r := Inject(a, bundles, extra, matched);
            && matched <= r.matched
            && InjectedFor(r.items, k) == if k in r.matched && k !in matched then extra[k] else []
    decreases |a|
  {
    if a != [] {
      var p := Place(a[0], bundles, extra, matched);
      PlaceInjects(a[0], bundles, extra, matched, k);
      InjectedOnce(a[1..], bundles, extra, p.matched, k);
      hide Place;
      InjectedForAppend(p.items, Inject(a[1..], bundles, extra, p.matched).items, k);
    }
  }

  /** A call on the parts of an array, one after the other. */
  lemma {:induction false} InjectAppend(a: seq<Entry>, b: seq<Entry>, bundles: seq<string>, extra: seq<seq<Entry>>,
                                        matched: set<nat>)
    requires |extra| == |bundles|
    ensures var r := Inject(a, bundles, extra, matched);
            var r' := Inject(b, bundles, extra, r.matched);
            Inject(a + b, bundles, extra, matched) == Outcome(r.items + r'.items, r'.matched)
    decreases |a|
  {
    hide Place;
    if a == [] {
      assert a + b == b;
    } else {
      var p := Place(a[0], bundles, extra, matched);
      InjectAppend(a[1..], b, bundles, extra, p.matched);
      InjectStep(a, bundles, extra, matched);
      InjectStep(a + b, bundles, extra, matched);
      assert (a + b)[1..] == a[1..] + b;
    }
  }

  lemma {:induction false} UnnamedStays(a: seq<Entry>, bundles: seq<string>, extra: seq<seq<Entry>>,
                                        matched: set<nat>, k: nat)
    requires |extra| == |bundles| && k < |bundles| && k !in matched
    requires forall i :: 0 <= i < |a| ==> !Names(a[i], bundles[k])
    ensures k !in Inject(a, bundles, extra, matched).matched
    decreases |a|
  {
    if a != [] {
      UnnamedStays(a[1..], bundles, extra, Place(a[0], bundles, extra, matched).matched, k);
    }
  }

  lemma PlaceFor(e: Entry, bundles: seq<string>, extra: seq<seq<Entry>>, matched: set<nat>, k: nat)
    requires |extra| == |bundles| && k < |bundles| && k !in matched && Names(e, bundles[k])
    requires forall x, y :: 0 <= x < y < |bundles| ==> bundles[x] != bundles[y]
    ensures Place(e, bundles, extra, matched) == Outcome(Injections(k, extra[k]) + [Original(e)], matched + {k})
  {
    var j := Match(e, bundles, matched, 0);
    assert !(k < j);
    assert j < |bundles| && bundles[j] == bundles[k];
  }

  /** The list of a bundle that was not matched before stands, complete and in order, directly in front of
      the first entry that names the bundle. */
  lemma PlacedBeforeFirst(a: seq<Entry>, bundles: seq<string>, extra: seq<seq<Entry>>, matched: set<nat>, k: nat, i: nat)
    requires |extra| == |bundles| && k < |bundles| && k !in matched && i < |a|
    requires forall x, y :: 0 <= x < y < |bundles| ==> bundles[x] != bundles[y]
    requires Names(a[i], bundles[k]) && forall j :: 0 <= j < i ==> !Names(a[j], bundles[k])
    ensures var before := Inject(a[..i], bundles, extra, matched);
            var after := Inject(a[i + 1..], bundles, extra, before.matched + {k});
            Inject(a, bundles, extra, matched) ==
              Outcome(before.items + (Injections(k, extra[k]) + [Original(a[i])]) + after.items, after.matched)
  {
    var before := Inject(a[..i], bundles, extra, matched);
    UnnamedStays(a[..i], bundles, extra, matched, k);
    PlaceFor(a[i], bundles, extra, before.matched, k);
    hide Inject, Place, Names, Injections;
    assert a == a[..i] + a[i..] && a[i..][0] == a[i] && a[i..][1..] == a[i + 1..];
    InjectAppend(a[..i], a[i..], bundles, extra, matched);
    InjectStep(a[i..], bundles, extra, before.matched);
    var p, after := Injections(k, extra[k]) + [Original(a[i])], Inject(a[i + 1..], bundles, extra, before.matched + {k});
    assert before.items + (p + after.items) == before.items + p + after.items;
  }

  // ------------------------------------------------------------- any number of calls

  /** The bundles matched after all calls. */
  function MatchedAfter(calls: seq<seq<Entry>>, bundles: seq<string>, extra: seq<seq<Entry>>,
                        matched: set<nat>): (r: set<nat>)
    requires |extra| == |bundles|
    decreases |calls|
  {
    if calls == [] then matched
    else MatchedAfter(calls[1..], bundles, extra, Inject(calls[0], bundles, extra, matched).matched)
  }

  /** All entries injected for bundle `k` by all calls. */
  function InjectedByAll(calls: seq<seq<Entry>>, bundles: seq<string>, extra: seq<seq<Entry>>, matched: set<nat>,
                         k: nat): (r: seq<Entry>)
    requires |extra| == |bundles|
    decreases |calls|
  {
    if calls == [] then []
    else
      var r := Inject(calls[0], bundles, extra, matched);
      InjectedFor(r.items, k) + InjectedByAll(calls[1..], bundles, extra, r.matched, k)
  }

  /** Over any number of calls, the list of a bundle is injected at most once, and exactly once if the bundle
      was matched. */
  lemma {:induction false} OnceOverAllCalls(calls: seq<seq<Entry>>, bundles: seq<string>, extra: seq<seq<Entry>>,
                                            matched: set<nat>, k: nat)
    requires |extra| == |bundles| && k < |bundles|
    ensures var after := MatchedAfter(calls, bundles, extra, matched);
            && matched <= after
            && InjectedByAll(calls, bundles, extra, matched, k) == if k in after && k !in matched then extra[k] else []
    decreases |calls|
  {
    hide Inject, InjectedFor;
    if calls != [] {
      InjectedOnce(calls[0], bundles, extra, matched, k);
      OnceOverAllCalls(calls[1..], bundles, extra, Inject(calls[0], bundles, extra, matched).matched, k);
    }
  }
}
