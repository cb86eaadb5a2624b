/** The body of `main` in fetch-feeds.js between fetching and rendering:
    tag each feed's entries, concatenate in configuration order, sort newest
    first, drop repeated titles, keep the first thirty. */
module Aggregate {
  import opened Seqs
  import opened Text
  import opened Classify
  import opened Normalize

  /** One configured feed; `kind` is the optional fixed `type`. */
  datatype Feed = Feed(source: string, displayLabel: string, url: string, website: string, kind: Option<string>)

  /** An entry tagged with its feed and its resolved type. */
  datatype Item = Item(
    title: string, link: string, description: string, date: int,
    source: string, displayLabel: string, kind: string)

  /** Number of items the page shows. */
  const MaxItems: nat := 30

  /** Number of title characters the duplicate key keeps. */
  const KeyLength: nat := 60

  // ---------------------------------------------------------------- tagging

  /** The feed's `type` is truthy: present and not empty. */
  predicate HasOverride(f: Feed) {
    f.kind.Some? && f.kind.value != ""
  }

  /** `feed.type || guessType(item.title, item.description)`. */
  function ResolveType(f: Feed, e: Entry): (r: string)
    ensures r != ""
  {
    if HasOverride(f) then f.kind.value else Label(GuessType(e.title, e.description))
  }

  /** Without an override the type is one of the classifier's labels, and
      the label names the category the classifier chose. */
  lemma ResolveTypeIsLabel(f: Feed, e: Entry)
    ensures !HasOverride(f) ==> exists c :: ResolveType(f, e) == Label(c)
    ensures forall c :: !HasOverride(f) && ResolveType(f, e) == Label(c) ==> c == GuessType(e.title, e.description)
  {
    if !HasOverride(f) {
      assert ResolveType(f, e) == Label(GuessType(e.title, e.description));
    }
    forall c | !HasOverride(f) && ResolveType(f, e) == Label(c)
      ensures c == GuessType(e.title, e.description)
    {
      LabelsDistinct(c, GuessType(e.title, e.description));
    }
  }

  /** `{...item, source: feed.source, label: feed.displayLabel, type: …}`. */
  function Tag(f: Feed, e: Entry): (x: Item)
    ensures x.title == e.title && x.link == e.link && x.description == e.description && x.date == e.date
    ensures x.source == f.source && x.displayLabel == f.displayLabel
  {
    Item(e.title, e.link, e.description, e.date, f.source, f.displayLabel, ResolveType(f, e))
  }

  /** A feed's override is applied to every one of its items whatever their
      content; without one, the type is the classifier's label. */
  lemma OverrideIsUniform(f: Feed, d: Entry, e: Entry)
    ensures HasOverride(f) ==> Tag(f, d).kind == Tag(f, e).kind == f.kind.value
    ensures !HasOverride(f) ==> Tag(f, e).kind == Label(GuessType(e.title, e.description))
  {
  }

  /** The items one feed contributes: none when it failed. */
  function TagAll(f: Feed, outcome: Option<seq<Entry>>): (r: seq<Item>)
    ensures outcome.None? ==> r == []
    ensures outcome.Some? ==> |r| == |outcome.value|
    ensures outcome.Some? ==> forall k :: 0 <= k < |r| ==> r[k] == Tag(f, outcome.value[k])
  {
    match outcome
    case None => []
    case Some(es) => seq(|es|, k requires 0 <= k < |es| => Tag(f, es[k]))
  }

  /** Number of entries the successful feeds delivered. */
  function Delivered(outcomes: seq<Option<seq<Entry>>>): nat {
    if outcomes == [] then 0
    else (if outcomes[0].Some? then |outcomes[0].value| else 0) + Delivered(outcomes[1..])
  }

  /** `allItems` after the loop over the feeds: each feed's tagged entries, in
      configuration order; a feed whose fetch or parse failed adds nothing. */
  function Collect(feeds: seq<Feed>, outcomes: seq<Option<seq<Entry>>>): (r: seq<Item>)
    requires |feeds| == |outcomes|
    ensures |r| == Delivered(outcomes)
    ensures forall x :: x in r ==>
              exists i :: 0 <= i < |feeds| && outcomes[i].Some? && x.source == feeds[i].source && x.displayLabel == feeds[i].displayLabel
    decreases |feeds|
  {
    if feeds == [] then []
    else
      var rest := Collect(feeds[1..], outcomes[1..]);
      var here := TagAll(feeds[0], outcomes[0]);
      assert forall x :: x in rest ==>
               exists i :: 0 <= i < |feeds| && outcomes[i].Some? && x.source == feeds[i].source && x.displayLabel == feeds[i].displayLabel
      by {
        forall x | x in rest
          ensures exists i :: 0 <= i < |feeds| && outcomes[i].Some? && x.source == feeds[i].source && x.displayLabel == feeds[i].displayLabel
        {
          var j :| 0 <= j < |feeds| - 1 && outcomes[1..][j].Some? && x.source == feeds[1..][j].source && x.displayLabel == feeds[1..][j].displayLabel;
          assert outcomes[j + 1].Some? && feeds[j + 1] == feeds[1..][j];
        }
      }
      here + rest
  }

  /** Collecting is compositional: the items of a longer configuration are
      the items of its first part followed by those of the rest. */
  lemma {:induction false} CollectAppend(f1: seq<Feed>, o1: seq<Option<seq<Entry>>>, f2: seq<Feed>, o2: seq<Option<seq<Entry>>>)
    requires |f1| == |o1| && |f2| == |o2|
    ensures Collect(f1 + f2, o1 + o2) == Collect(f1, o1) + Collect(f2, o2)
    decreases |f1|
  {
    if f1 == [] {
      assert f1 + f2 == f2 && o1 + o2 == o2;
    } else {
      assert (f1 + f2)[0] == f1[0] && (o1 + o2)[0] == o1[0];
      assert (f1 + f2)[1..] == f1[1..] + f2 && (o1 + o2)[1..] == o1[1..] + o2;
      CollectAppend(f1[1..], o1[1..], f2, o2);
    }
  }

  /** A failed feed contributes nothing and does not disturb the others. */
  lemma FailedFeedContributesNothing(
    f1: seq<Feed>, o1: seq<Option<seq<Entry>>>, f: Feed, f2: seq<Feed>, o2: seq<Option<seq<Entry>>>)
    requires |f1| == |o1| && |f2| == |o2|
    ensures Collect(f1 + [f] + f2, o1 + [None] + o2) == Collect(f1, o1) + Collect(f2, o2)
  {
    var fs, os := [f] + f2, [None] + o2;
    assert fs[0] == f && fs[1..] == f2 && os[0] == None && os[1..] == o2;
    assert Collect(fs, os) == [] + Collect(f2, o2) == Collect(f2, o2);
    CollectAppend(f1, o1, fs, os);
    AppendAssoc(f1, [f], f2);
    AppendAssoc(o1, [None], o2);
  }

  // ---------------------------------------------------------------- sorting

  /** Newest first. */
  ghost predicate SortedByDate(s: seq<Item>) {
    forall i, j :: 0 <= i < j < |s| ==> s[i].date >= s[j].date
  }

  /** The items of `s` dated `d`, in their order in `s`. */
  function WithDate(s: seq<Item>, d: int): seq<Item> {
    if s == [] then []
    else (if s[0].date == d then [s[0]] else []) + WithDate(s[1..], d)
  }

  /** The order `sort` keeps among items of equal date. */
  ghost predicate StableFor(r: seq<Item>, s: seq<Item>) {
    forall d :: WithDate(r, d) == WithDate(s, d)
  }

  lemma {:induction false} WithDateMembers(s: seq<Item>, d: int, x: Item)
    requires x in WithDate(s, d)
    ensures x in s && x.date == d
    decreases |s|
  {
    if s[0].date == d && x == s[0] {
    } else {
      WithDateMembers(s[1..], d, x);
    }
  }

  lemma WithDateHead(s: seq<Item>)
    requires s != []
    ensures WithDate(s, s[0].date) != [] && WithDate([], s[0].date) == []
  {
  }

  /** Inserts `x` in front of the first item that is not newer than it. */
  function Insert(x: Item, s: seq<Item>): (r: seq<Item>)
    requires SortedByDate(s)
    ensures |r| == |s| + 1
    ensures r[0] == x || (s != [] && r[0] == s[0])
    ensures SortedByDate(r)
    decreases |s|
  {
    if s == [] || x.date >= s[0].date then [x] + s
    else [s[0]] + Insert(x, s[1..])
  }

  /** Insertion adds exactly `x`. */
  lemma {:induction false} InsertPermutes(x: Item, s: seq<Item>)
    requires SortedByDate(s)
    ensures multiset(Insert(x, s)) == multiset(s) + multiset{x}
    decreases |s|
  {
    if s != [] && x.date < s[0].date {
      InsertPermutes(x, s[1..]);
      HeadTail(s);
    }
  }

  lemma InsertStableFront(x: Item, s: seq<Item>, d: int)
    ensures WithDate([x] + s, d) == if x.date == d then [x] + WithDate(s, d) else WithDate(s, d)
  {
    var r := [x] + s;
    assert r[0] == x && r[1..] == s;
  }

  lemma InsertStableBehind(y: Item, rest: seq<Item>, x: Item, t: seq<Item>, d: int)
    requires y.date != d || x.date != d
    requires WithDate(rest, d) == if x.date == d then [x] + WithDate(t, d) else WithDate(t, d)
    ensures WithDate([y] + rest, d) ==
            if x.date == d then [x] + WithDate([y] + t, d) else WithDate([y] + t, d)
  {
    var r, u := [y] + rest, [y] + t;
    assert r[0] == y && r[1..] == rest;
    assert u[0] == y && u[1..] == t;
  }

  /** Insertion puts `x` before every item of its own date: among the items
      dated `d`, `x` comes first. */
  lemma {:induction false} InsertStable(x: Item, s: seq<Item>, d: int)
    requires SortedByDate(s)
    ensures WithDate(Insert(x, s), d) == if x.date == d then [x] + WithDate(s, d) else WithDate(s, d)
    decreases |s|
  {
    if s == [] || x.date >= s[0].date {
      InsertStableFront(x, s, d);
    } else {
      InsertStable(x, s[1..], d);
      InsertStableBehind(s[0], Insert(x, s[1..]), x, s[1..], d);
      HeadTail(s);
    }
  }

  /** `allItems.sort((a, b) => b.date - a.date)`: a stable sort, newest first. */
  function SortByDate(s: seq<Item>): (r: seq<Item>)
    ensures |r| == |s|
    ensures SortedByDate(r)
    ensures multiset(r) == multiset(s)
    decreases |s|
  {
    if s == [] then []
    else
      var t := SortByDate(s[1..]);
      InsertPermutes(s[0], t);
      HeadTail(s);
      Insert(s[0], t)
  }

  /** The sort keeps the order of items with equal dates. */
  lemma {:induction false} SortByDateStable(s: seq<Item>, d: int)
    ensures WithDate(SortByDate(s), d) == WithDate(s, d)
    decreases |s|
  {
    if s != [] {
      var t := SortByDate(s[1..]);
      SortByDateStable(s[1..], d);
      InsertStable(s[0], t, d);
      if s[0].date != d {
        AppendEmpty(WithDate(s[1..], d));
      }
    }
  }

  lemma SortByDateStableFor(s: seq<Item>)
    ensures StableFor(SortByDate(s), s)
  {
    forall d ensures WithDate(SortByDate(s), d) == WithDate(s, d) {
      SortByDateStable(s, d);
    }
  }

  /** Two non-empty stable newest-first arrangements of the same items
      start with the same item. */
  lemma StableHeads(a: seq<Item>, b: seq<Item>)
    requires a != [] && b != []
    requires SortedByDate(a) && SortedByDate(b) && StableFor(a, b)
    ensures a[0] == b[0]
  {
    var da, db := a[0].date, b[0].date;
    assert b[0] in WithDate(b, db);
    WithDateMembers(a, db, b[0]);
    assert a[0] in WithDate(a, da);
    WithDateMembers(b, da, a[0]);
    assert da == db by {
      var i :| 0 <= i < |a| && a[i] == b[0];
      var j :| 0 <= j < |b| && b[j] == a[0];
      assert a[0].date >= a[i].date;
      assert b[0].date >= b[j].date;
    }
    assert WithDate(a, da) == [a[0]] + WithDate(a[1..], da);
    assert WithDate(b, da) == [b[0]] + WithDate(b[1..], da);
    assert WithDate(a, da) == WithDate(b, da);
    assert a[0] == WithDate(a, da)[0] == WithDate(b, da)[0] == b[0];
  }

  /** Dropping a common first item keeps two arrangements stable for each
      other. */
  lemma StableTails(a: seq<Item>, b: seq<Item>)
    requires a != [] && b != [] && a[0] == b[0] && StableFor(a, b)
    ensures StableFor(a[1..], b[1..])
  {
    forall d ensures WithDate(a[1..], d) == WithDate(b[1..], d) {
      assert WithDate(a, d) == WithDate(b, d);
      if d == a[0].date {
        assert WithDate(a, d)[1..] == WithDate(a[1..], d);
        assert WithDate(b, d)[1..] == WithDate(b[1..], d);
      } else {
        assert WithDate(a, d) == [] + WithDate(a[1..], d) == WithDate(a[1..], d);
        assert WithDate(b, d) == [] + WithDate(b[1..], d) == WithDate(b[1..], d);
      }
    }
  }

  /** Sortedness and stability fix the result: any other stable newest-first
      arrangement of the same items is the same sequence. */
  lemma {:induction false} StableSortUnique(a: seq<Item>, b: seq<Item>)
    requires SortedByDate(a) && SortedByDate(b) && StableFor(a, b)
    ensures a == b
    decreases |a| + |b|
  {
    if a == [] && b == [] {
      return;
    }
    if a == [] {
      WithDateHead(b);
      assert false;
    }
    if b == [] {
      WithDateHead(a);
      assert false;
    }
    StableHeads(a, b);
    StableTails(a, b);
    assert SortedByDate(a[1..]) && SortedByDate(b[1..]);
    StableSortUnique(a[1..], b[1..]);
    HeadTail(a);
    HeadTail(b);
  }

  /** Any stable newest-first sort of `s` yields exactly `SortByDate(s)`. */
  lemma SortIsCanonical(s: seq<Item>, r: seq<Item>)
    requires SortedByDate(r) && StableFor(r, s)
    ensures r == SortByDate(s)
  {
    var t := SortByDate(s);
    SortByDateStableFor(s);
    forall d ensures WithDate(r, d) == WithDate(t, d) {
      assert WithDate(r, d) == WithDate(s, d);
    }
    StableSortUnique(r, t);
  }

  // ----------------------------------------------------------- duplicates

  /** `item.title.toLowerCase().substring(0, 60)`. */
  function Key(x: Item): (r: string)
    ensures |r| == Min(KeyLength, |x.title|)
  {
    Take(Lower(x.title), KeyLength)
  }

  /** The key is the title's first `KeyLength` characters, lower-cased, so
      two titles that agree on those characters up to case share a key. */
  lemma KeyLowersTitle(x: Item, y: Item)
    ensures forall i :: 0 <= i < |Key(x)| ==> Key(x)[i] == LowerChar(x.title[i])
    ensures (&& |x.title| >= KeyLength && |y.title| >= KeyLength
             && forall i :: 0 <= i < KeyLength ==> LowerChar(x.title[i]) == LowerChar(y.title[i]))
            ==> Key(x) == Key(y)
  {
  }

  /** The keys occurring in `s`. */
  function KeySet(s: seq<Item>): set<string>
    decreases |s|
  {
    if s == [] then {} else {Key(s[0])} + KeySet(s[1..])
  }

  /** A key is in `KeySet(s)` exactly when some item of `s` carries it. */
  lemma {:induction false} KeySetMembers(s: seq<Item>)
    ensures forall i :: 0 <= i < |s| ==> Key(s[i]) in KeySet(s)
    ensures forall k :: k in KeySet(s) ==> exists i :: 0 <= i < |s| && Key(s[i]) == k
    decreases |s|
  {
    if s != [] {
      var t := s[1..];
      KeySetMembers(t);
      forall i | 0 < i < |s| ensures Key(s[i]) in KeySet(s) {
        assert s[i] == t[i - 1];
      }
      forall k | k in KeySet(s) ensures exists i :: 0 <= i < |s| && Key(s[i]) == k {
        if k != Key(s[0]) {
          var j :| 0 <= j < |t| && Key(t[j]) == k;
          assert Key(s[j + 1]) == k;
        }
      }
    }
  }

  ghost predicate UniqueKeys(s: seq<Item>) {
    forall i, j :: 0 <= i < j < |s| ==> Key(s[i]) != Key(s[j])
  }

  lemma KeySetCons(x: Item, s: seq<Item>)
    ensures KeySet([x] + s) == {Key(x)} + KeySet(s)
  {
    assert ([x] + s)[1..] == s;
  }

  lemma {:induction false} KeySetSnoc(s: seq<Item>, x: Item)
    ensures KeySet(s + [x]) == KeySet(s) + {Key(x)}
    decreases |s|
  {
    if s == [] {
      assert s + [x] == [x];
      KeySetCons(x, []);
    } else {
      assert s + [x] == [s[0]] + (s[1..] + [x]);
      KeySetCons(s[0], s[1..] + [x]);
      KeySetSnoc(s[1..], x);
    }
  }

  /** The filter over `allItems` with the `seen` set: an item is kept exactly
      when its key is neither in `seen` nor on an earlier item. */
  function DedupFrom(s: seq<Item>, seen: set<string>): (r: seq<Item>)
    ensures forall x :: x in r ==> x in s && Key(x) !in seen
    ensures UniqueKeys(r)
    ensures SortedByDate(s) ==> SortedByDate(r)
    decreases |s|
  {
    if s == [] then []
    else if Key(s[0]) in seen then DedupFrom(s[1..], seen)
    else [s[0]] + DedupFrom(s[1..], seen + {Key(s[0])})
  }

  /** Every key of `s` outside `seen` survives. */
  lemma {:induction false} DedupKeys(s: seq<Item>, seen: set<string>)
    ensures KeySet(DedupFrom(s, seen)) == KeySet(s) - seen
    decreases |s|
  {
    if s != [] {
      assert s == [s[0]] + s[1..];
      KeySetCons(s[0], s[1..]);
      if Key(s[0]) in seen {
        DedupKeys(s[1..], seen);
      } else {
        DedupKeys(s[1..], seen + {Key(s[0])});
        KeySetCons(s[0], DedupFrom(s[1..], seen + {Key(s[0])}));
      }
    }
  }

  function Dedup(s: seq<Item>): seq<Item> {
    DedupFrom(s, {})
  }

  /** Reference definition: walking from the end, the last item is kept
      exactly when no earlier item has its key. */
  function KeepFirst(s: seq<Item>): seq<Item>
    decreases |s|
  {
    if s == [] then []
    else
      var p := s[..|s| - 1];
      KeepFirst(p) + (if Key(s[|s| - 1]) in KeySet(p) then [] else [s[|s| - 1]])
  }

  lemma KeepFirstSnoc(p: seq<Item>, x: Item)
    ensures KeepFirst(p + [x]) == KeepFirst(p) + (if Key(x) in KeySet(p) then [] else [x])
  {
    var q := p + [x];
    assert q[..|q| - 1] == p && q[|q| - 1] == x;
  }

  /** One item whose key the reduced prefix already has moves over: it is dropped. */
  lemma KeepFirstStepSeen(p: seq<Item>, x: Item, t: seq<Item>)
    requires Key(x) in KeySet(p)
    requires KeepFirst(p + [x] + t) == KeepFirst(p + [x]) + DedupFrom(t, KeySet(p + [x]))
    ensures KeepFirst(p + [x] + t) == KeepFirst(p) + DedupFrom([x] + t, KeySet(p))
  {
    var k := KeySet(p);
    assert KeySet(p + [x]) == k by {
      KeySetSnoc(p, x);
    }
    assert KeepFirst(p + [x]) == KeepFirst(p) by {
      KeepFirstSnoc(p, x);
      assert KeepFirst(p) + [] == KeepFirst(p);
    }
    assert DedupFrom([x] + t, k) == DedupFrom(t, k) by {
      assert ([x] + t)[0] == x && ([x] + t)[1..] == t;
    }
  }

  /** One item with a new key moves over: it is kept. */
  lemma KeepFirstStepFresh(p: seq<Item>, x: Item, t: seq<Item>)
    requires Key(x) !in KeySet(p)
    requires KeepFirst(p + [x] + t) == KeepFirst(p + [x]) + DedupFrom(t, KeySet(p + [x]))
    ensures KeepFirst(p + [x] + t) == KeepFirst(p) + DedupFrom([x] + t, KeySet(p))
  {
    var k := KeySet(p);
    assert KeySet(p + [x]) == k + {Key(x)} by {
      KeySetSnoc(p, x);
    }
    assert KeepFirst(p + [x]) == KeepFirst(p) + [x] by {
      KeepFirstSnoc(p, x);
    }
    assert DedupFrom([x] + t, k) == [x] + DedupFrom(t, k + {Key(x)}) by {
      assert ([x] + t)[0] == x && ([x] + t)[1..] == t;
    }
    AppendAssoc(KeepFirst(p), [x], DedupFrom(t, k + {Key(x)}));
  }

  /** Running the filter after a prefix has been reduced to its first
      occurrences continues the reduction with the prefix's keys as `seen`. */
  lemma {:induction false} KeepFirstThenDedup(p: seq<Item>, s: seq<Item>)
    ensures KeepFirst(p + s) == KeepFirst(p) + DedupFrom(s, KeySet(p))
    decreases |s|
  {
    if s == [] {
      AppendEmpty(p);
    } else {
      var x, t := s[0], s[1..];
      KeepFirstThenDedup(p + [x], t);
      ShiftHead(p, s);
      if Key(x) in KeySet(p) {
        KeepFirstStepSeen(p, x, t);
      } else {
        KeepFirstStepFresh(p, x, t);
      }
    }
  }

  /** The filter with a growing `seen` set keeps exactly the first item of
      every key, in order. */
  lemma DedupIsKeepFirst(s: seq<Item>)
    ensures Dedup(s) == KeepFirst(s)
  {
    KeepFirstThenDedup([], s);
    assert [] + s == s;
  }

  /** An item with no earlier item of the same key survives. */
  lemma {:induction false} KeepFirstKeeps(s: seq<Item>, i: nat)
    requires i < |s|
    requires forall j :: 0 <= j < i ==> Key(s[j]) != Key(s[i])
    ensures s[i] in KeepFirst(s)
    decreases |s|
  {
    var p := s[..|s| - 1];
    assert s == p + [s[|s| - 1]];
    KeepFirstSnoc(p, s[|s| - 1]);
    if i == |s| - 1 {
      KeySetMembers(p);
      assert forall j :: 0 <= j < |p| ==> p[j] == s[j];
    } else {
      assert p[i] == s[i];
      KeepFirstKeeps(p, i);
    }
  }

  lemma {:induction false} KeySetBound(s: seq<Item>)
    ensures |KeySet(s)| <= |s|
    decreases |s|
  {
    if s != [] {
      KeySetBound(s[1..]);
    }
  }

  /** The head of a sequence with distinct keys has a key no later item has. */
  lemma UniqueHead(s: seq<Item>)
    requires s != [] && UniqueKeys(s)
    ensures Key(s[0]) !in KeySet(s[1..])
    ensures UniqueKeys(s[1..])
  {
    var t := s[1..];
    KeySetMembers(t);
    forall j | 0 <= j < |t| ensures Key(t[j]) != Key(s[0]) {
      assert t[j] == s[j + 1];
    }
    forall i, j | 0 <= i < j < |t| ensures Key(t[i]) != Key(t[j]) {
      assert t[i] == s[i + 1] && t[j] == s[j + 1];
    }
  }

  /** A first item whose key the rest does not carry, before a rest with
      distinct keys, gives a list with distinct keys. */
  lemma UniqueCons(s: seq<Item>)
    requires s != [] && Key(s[0]) !in KeySet(s[1..]) && UniqueKeys(s[1..])
    ensures UniqueKeys(s)
  {
    var t := s[1..];
    KeySetMembers(t);
    forall i, j | 0 <= i < j < |s| ensures Key(s[i]) != Key(s[j]) {
      if i == 0 {
        assert s[j] == t[j - 1];
      } else {
        assert s[i] == t[i - 1] && s[j] == t[j - 1];
      }
    }
  }

  /** A first item whose key recurs later, or a rest whose keys repeat,
      gives a list with a repeated key. */
  lemma NotUniqueCons(s: seq<Item>)
    requires s != [] && (Key(s[0]) in KeySet(s[1..]) || !UniqueKeys(s[1..]))
    ensures !UniqueKeys(s)
  {
    var t := s[1..];
    if Key(s[0]) in KeySet(t) {
      KeySetMembers(t);
      var j :| 0 <= j < |t| && Key(t[j]) == Key(s[0]);
      assert Key(s[0]) == Key(s[j + 1]);
    } else {
      var i, j :| 0 <= i < j < |t| && Key(t[i]) == Key(t[j]);
      assert s[i + 1] == t[i] && s[j + 1] == t[j];
    }
  }

  /** A set of keys is as large as the sequence exactly when the keys are distinct. */
  lemma {:induction false} UniqueKeysCount(s: seq<Item>)
    ensures UniqueKeys(s) <==> |KeySet(s)| == |s|
    decreases |s|
  {
    if s != [] {
      var t := s[1..];
      UniqueKeysCount(t);
      KeySetBound(t);
      assert KeySet(s) == {Key(s[0])} + KeySet(t);
      if Key(s[0]) in KeySet(t) || !UniqueKeys(t) {
        NotUniqueCons(s);
        assert |KeySet(s)| <= |KeySet(t)| + 1;
        assert |KeySet(s)| < |s|;
      } else {
        assert |KeySet(s)| == |KeySet(t)| + 1;
        UniqueCons(s);
      }
    }
  }

  /** With distinct keys nothing is dropped. */
  lemma {:induction false} DedupUnique(s: seq<Item>, seen: set<string>)
    requires UniqueKeys(s) && KeySet(s) !! seen
    ensures DedupFrom(s, seen) == s
    decreases |s|
  {
    if s != [] {
      var t := s[1..];
      UniqueHead(s);
      assert KeySet(s) == {Key(s[0])} + KeySet(t);
      assert Key(s[0]) !in seen;
      DedupUnique(t, seen + {Key(s[0])});
      assert DedupFrom(s, seen) == [s[0]] + t;
      HeadTail(s);
    }
  }

  lemma KeySetSubset(a: seq<Item>, b: seq<Item>)
    requires forall x :: x in a ==> x in b
    ensures KeySet(a) <= KeySet(b)
  {
    KeySetMembers(a);
    KeySetMembers(b);
    forall k | k in KeySet(a) ensures k in KeySet(b) {
      var i :| 0 <= i < |a| && Key(a[i]) == k;
      assert a[i] in b;
      var j :| 0 <= j < |b| && b[j] == a[i];
    }
  }

  lemma KeySetOfPermutation(a: seq<Item>, b: seq<Item>)
    requires multiset(a) == multiset(b)
    ensures KeySet(a) == KeySet(b)
  {
    forall x ensures x in a <==> x in b {
      assert x in a <==> x in multiset(a);
      assert x in b <==> x in multiset(b);
    }
    KeySetSubset(a, b);
    KeySetSubset(b, a);
  }

  // ------------------------------------------------------------ aggregate

  /** Sort, drop repeated keys, keep the first thirty. */
  function Aggregate(items: seq<Item>): (r: seq<Item>)
    ensures |r| <= MaxItems
    ensures r <= Dedup(SortByDate(items))
  {
    Take(Dedup(SortByDate(items)), MaxItems)
  }

  lemma PrefixSortedUnique(u: seq<Item>, r: seq<Item>)
    requires r <= u
    ensures SortedByDate(u) ==> SortedByDate(r)
    ensures UniqueKeys(u) ==> UniqueKeys(r)
    ensures forall x :: x in r ==> x in u
  {
    assert forall i :: 0 <= i < |r| ==> r[i] == u[i];
  }

  /** The page lists items newest first, no two with the same key, all taken
      from the collected items. */
  lemma AggregateShape(items: seq<Item>)
    ensures SortedByDate(Aggregate(items))
    ensures UniqueKeys(Aggregate(items))
    ensures forall x :: x in Aggregate(items) ==> x in items
  {
    var sorted := SortByDate(items);
    PrefixSortedUnique(Dedup(sorted), Aggregate(items));
    forall x | x in sorted ensures x in items {
      assert x in multiset(sorted);
    }
  }

  /** The page holds one item per distinct key, up to thirty. */
  lemma AggregateCount(items: seq<Item>)
    ensures |Aggregate(items)| == Min(MaxItems, |KeySet(items)|)
  {
    var sorted := SortByDate(items);
    var unique := Dedup(sorted);
    KeySetOfPermutation(sorted, items);
    DedupKeys(sorted, {});
    assert KeySet(sorted) - {} == KeySet(sorted);
    UniqueKeysCount(unique);
  }

  /** With distinct keys nothing is dropped before the cut. */
  lemma AggregateOfUnique(items: seq<Item>)
    requires UniqueKeys(items)
    ensures Aggregate(items) == Take(SortByDate(items), MaxItems)
  {
    var sorted := SortByDate(items);
    UniqueKeysCount(items);
    KeySetOfPermutation(sorted, items);
    UniqueKeysCount(sorted);
    DedupUnique(sorted, {});
  }

  /** A prefix of a newest-first list is no older than anything after it. */
  lemma TakeDominates(s: seq<Item>, n: nat)
    requires SortedByDate(s)
    ensures forall k, j :: 0 <= k < |Take(s, n)| <= j < |s| ==> s[j].date <= Take(s, n)[k].date
  {
    var t := Take(s, n);
    assert forall k :: 0 <= k < |t| ==> t[k] == s[k];
  }

  /** With distinct titles the page holds the thirty newest items, newest
      first, and every item left off is no newer than any item shown. */
  lemma MostRecentKept(items: seq<Item>)
    requires UniqueKeys(items)
    ensures Aggregate(items) == Take(SortByDate(items), MaxItems)
    ensures |items| >= MaxItems ==> |Aggregate(items)| == MaxItems
    ensures forall k, j :: 0 <= k < |Aggregate(items)| <= j < |items| ==>
              SortByDate(items)[j].date <= Aggregate(items)[k].date
  {
    AggregateOfUnique(items);
    TakeDominates(SortByDate(items), MaxItems);
  }
}
