/** The object tree xml2js builds with `explicitArray: false`, and the
    property access JavaScript performs on it. */
module Xml {
  import opened Seqs

  /** An element as xml2js renders it: a plain string when it has only text;
      an object with its text under `_`, its attributes under `$` and one
      entry per child element name otherwise; an array when an element name
      repeats under the same parent. */
  datatype Tree =
    | Str(str: string)
    | Obj(text: Option<string>, attrs: Option<map<string, string>>, kids: map<string, Tree>)
    | Arr(elems: seq<Tree>)

  /** `t?.[key]` for a child element: only objects have child properties. */
  function Get(t: Option<Tree>, key: string): (r: Option<Tree>)
    ensures r.Some? ==> t.Some? && t.value.Obj? && key in t.value.kids && r.value == t.value.kids[key]
    ensures t.Some? && t.value.Obj? && key in t.value.kids ==> r.Some?
  {
    if t.Some? && t.value.Obj? && key in t.value.kids then Some(t.value.kids[key]) else None
  }

  /** JavaScript truthiness of a tree value: everything but `undefined` and the
      empty string. */
  predicate Truthy(t: Option<Tree>) {
    t.Some? && t.value != Str("")
  }

  /** `Array.isArray(raw) ? raw : [raw]`. */
  function AsList(t: Tree): (r: seq<Tree>)
    ensures t.Arr? ==> r == t.elems
    ensures !t.Arr? ==> r == [t]
  {
    if t.Arr? then t.elems else [t]
  }

  /** `x || ''` for a value that is a string or absent. */
  function TextOf(t: Option<Tree>): (r: string)
    ensures IsText(t) ==> t == Some(Str(r)) || (r == "" && !Truthy(t))
  {
    if t.Some? && t.value.Str? then t.value.str else ""
  }

  /** The value is absent or a string. */
  predicate IsText(t: Option<Tree>) {
    t.None? || t.value.Str?
  }
}

/** The item mapping and title filter of `parseRSS` (fetch-feeds.js), over
    the tree xml2js produced. */
module Normalize {
  import opened Seqs
  import opened Text
  import opened Xml

  /** A normalised feed item; dates are epoch milliseconds. */
  datatype Entry = Entry(title: string, link: string, description: string, date: int)

  // ------------------------------------------------------------------ paths

  /** `result?.rss?.channel?.item`. */
  function RssItems(root: Tree): Option<Tree> {
    Get(Get(Get(Some(root), "rss"), "channel"), "item")
  }

  /** `result?.feed?.entry`. */
  function AtomEntries(root: Tree): Option<Tree> {
    Get(Get(Some(root), "feed"), "entry")
  }

  // -------------------------------------------------------------------- RSS

  /** The RSS fields the mapping reads as strings are strings or absent. */
  predicate RssShaped(i: Tree) {
    && IsText(Get(Some(i), "title"))
    && IsText(Get(Some(i), "link"))
    && IsText(Get(Some(i), "description"))
    && IsText(Get(Some(i), "pubDate"))
  }

  /** Maps one RSS `item`; `now` is the clock reading, `parseDate` stands for
      `new Date(string)`. */
  function RssEntry(i: Tree, now: int, parseDate: string -> int): (e: Entry)
    requires RssShaped(i)
    ensures Get(Some(i), "title") == Some(Str(e.title)) || (e.title == "" && !Truthy(Get(Some(i), "title")))
    ensures Get(Some(i), "link") == Some(Str(e.link)) || (e.link == "" && !Truthy(Get(Some(i), "link")))
    ensures e.description == StripHtml(TextOf(Get(Some(i), "description")))
    ensures Truthy(Get(Some(i), "pubDate")) ==> e.date == parseDate(Get(Some(i), "pubDate").value.str)
    ensures !Truthy(Get(Some(i), "pubDate")) ==> e.date == now
  {
    var title, link := TextOf(Get(Some(i), "title")), TextOf(Get(Some(i), "link"));
    var pubDate := Get(Some(i), "pubDate");
    Entry(title, link, StripHtml(TextOf(Get(Some(i), "description"))),
          if Truthy(pubDate) then parseDate(TextOf(pubDate)) else now)
  }

  // ------------------------------------------------------------------- Atom

  /** A title the model can read as text: it is not an object whose text is
      empty but which carries attributes (the source would yield the
      attribute object itself). */
  predicate AtomTitleShaped(t: Option<Tree>) {
    !(t.Some? && t.value.Obj? && (t.value.text.None? || t.value.text.value == "") && t.value.attrs.Some?)
  }

  /** A `summary` or `content` value that reads as a string: absent, a
      string, or an object with non-empty text. An object without text is
      itself truthy and would be handed to `stripHtml`. */
  predicate BodyShaped(t: Option<Tree>) {
    t.None? || t.value.Str? || (t.value.Obj? && t.value.text.Some? && t.value.text.value != "")
  }

  /** The fields the Atom mapping reads as strings are readable as text:
      `content` only matters when `summary` is empty, `updated` only when
      `published` is. */
  predicate AtomShaped(i: Tree) {
    && AtomTitleShaped(Get(Some(i), "title"))
    && BodyShaped(Get(Some(i), "summary"))
    && (BodyText(Get(Some(i), "summary")) == "" ==> BodyShaped(Get(Some(i), "content")))
    && IsText(Get(Some(i), "published"))
    && (!Truthy(Get(Some(i), "published")) ==> IsText(Get(Some(i), "updated")))
  }

  /** `typeof t === 'object' ? t._ || t.$ || '' : t || ''` on a title. */
  function AtomTitle(t: Option<Tree>): (r: string)
    requires AtomTitleShaped(t)
    ensures IsText(t) ==> r == TextOf(t)
    ensures t.Some? && t.value.Obj? && t.value.text.Some? ==> r == t.value.text.value
    ensures t.Some? && (t.value.Arr? || (t.value.Obj? && (t.value.text.None? || t.value.text.value == ""))) ==> r == ""
    ensures r != "" ==> Truthy(t)
  {
    match t
    case None => ""
    case Some(Str(s)) => s
    case Some(Obj(text, _, _)) => if text.Some? then text.value else ""
    case Some(Arr(_)) => ""
  }

  /** `t?.$ ? t.$.href : (typeof t === 'string' ? t : '')` on a link. */
  function AtomLink(t: Option<Tree>): (r: string)
    ensures t.Some? && t.value.Obj? && t.value.attrs.Some? && "href" in t.value.attrs.value ==>
              r == t.value.attrs.value["href"]
    ensures t.Some? && t.value.Str? ==> r == t.value.str
    ensures t.None? || t.value.Arr? || (t.value.Obj? && t.value.attrs.None?) ==> r == ""
  {
    if t.Some? && t.value.Obj? && t.value.attrs.Some? then
      var attrs := t.value.attrs.value;
      if "href" in attrs then attrs["href"] else ""
    else if t.Some? && t.value.Str? then t.value.str
    else ""
  }

  /** `t?._ || t` for a `summary` or `content` value, as a string. */
  function BodyText(t: Option<Tree>): (r: string)
    requires BodyShaped(t)
    ensures IsText(t) ==> r == TextOf(t)
    ensures t.Some? && t.value.Obj? ==> r == t.value.text.value
    ensures r != "" ==> Truthy(t)
  {
    match t
    case None => ""
    case Some(Str(s)) => s
    case Some(Obj(text, _, _)) => text.value
    case Some(Arr(_)) => ""
  }

  /** Maps one Atom `entry`. */
  function AtomEntry(i: Tree, now: int, parseDate: string -> int): (e: Entry)
    requires AtomShaped(i)
    ensures e.title == AtomTitle(Get(Some(i), "title"))
    ensures e.link == AtomLink(Get(Some(i), "link"))
    ensures BodyText(Get(Some(i), "summary")) != "" ==>
              e.description == StripHtml(BodyText(Get(Some(i), "summary")))
    ensures BodyText(Get(Some(i), "summary")) == "" ==>
              e.description == StripHtml(BodyText(Get(Some(i), "content")))
    ensures Truthy(Get(Some(i), "published")) ==>
              e.date == parseDate(Get(Some(i), "published").value.str)
    ensures !Truthy(Get(Some(i), "published")) && Truthy(Get(Some(i), "updated")) ==>
              e.date == parseDate(Get(Some(i), "updated").value.str)
    ensures !Truthy(Get(Some(i), "published")) && !Truthy(Get(Some(i), "updated")) ==> e.date == now
  {
    var published := Get(Some(i), "published");
    var updated := Get(Some(i), "updated");
    var summary := BodyText(Get(Some(i), "summary"));
    var body := if summary != "" then summary else BodyText(Get(Some(i), "content"));
    Entry(
      AtomTitle(Get(Some(i), "title")),
      AtomLink(Get(Some(i), "link")),
      StripHtml(body),
      if Truthy(published) then parseDate(TextOf(published))
      else if Truthy(updated) then parseDate(TextOf(updated))
      else now)
  }

  // -------------------------------------------------------------- dispatch

  /** An entry with a string summary is accepted whatever its content: an
      XHTML `content` object, which has no text of its own, is never read. */
  lemma XhtmlContentWithSummary(div: Tree, now: int, parseDate: string -> int)
    ensures var content := Obj(None, Some(map["type" := "xhtml"]), map["div" := div]);
            var i := Obj(None, None, map["title" := Str("T"), "summary" := Str("S"), "content" := content]);
            && AtomShaped(i)
            && AtomEntry(i, now, parseDate) == Entry("T", "", StripHtml("S"), now)
  {
    var content := Obj(None, Some(map["type" := "xhtml"]), map["div" := div]);
    var i := Obj(None, None, map["title" := Str("T"), "summary" := Str("S"), "content" := content]);
    assert Get(Some(i), "summary") == Some(Str("S"));
    assert Get(Some(i), "title") == Some(Str("T"));
    assert Get(Some(i), "link") == None;
    assert Get(Some(i), "published") == None;
    assert Get(Some(i), "updated") == None;
  }

  /** Every node the chosen branch maps has the field shapes it reads as text. */
  predicate WellShaped(root: Tree) {
    if Truthy(RssItems(root)) then
      forall n :: n in AsList(RssItems(root).value) ==> RssShaped(n)
    else if Truthy(AtomEntries(root)) then
      forall n :: n in AsList(AtomEntries(root).value) ==> AtomShaped(n)
    else
      true
  }

  function MapRss(items: seq<Tree>, now: int, parseDate: string -> int): (r: seq<Entry>)
    requires forall n :: n in items ==> RssShaped(n)
    ensures |r| == |items|
    ensures forall k :: 0 <= k < |items| ==> r[k] == RssEntry(items[k], now, parseDate)
  {
    seq(|items|, k requires 0 <= k < |items| => RssEntry(items[k], now, parseDate))
  }

  function MapAtom(items: seq<Tree>, now: int, parseDate: string -> int): (r: seq<Entry>)
    requires forall n :: n in items ==> AtomShaped(n)
    ensures |r| == |items|
    ensures forall k :: 0 <= k < |items| ==> r[k] == AtomEntry(items[k], now, parseDate)
  {
    seq(|items|, k requires 0 <= k < |items| => AtomEntry(items[k], now, parseDate))
  }

  /** `items.filter(i => i.title)`: keeps the entries with a non-empty title,
      in order. */
  function KeepTitled(es: seq<Entry>): (r: seq<Entry>)
    ensures |r| <= |es|
    ensures forall e :: e in r <==> e in es && e.title != ""
    ensures (forall e :: e in es ==> e.title != "") ==> r == es
  {
    if es == [] then []
    else if es[0].title != "" then [es[0]] + KeepTitled(es[1..])
    else KeepTitled(es[1..])
  }

  /** Filtering distributes over concatenation, so it keeps the order of the
      entries it keeps. */
  lemma {:induction false} KeepTitledAppend(a: seq<Entry>, b: seq<Entry>)
    ensures KeepTitled(a + b) == KeepTitled(a) + KeepTitled(b)
    decreases |a|
  {
    if a == [] {
      assert a + b == b;
    } else {
      assert (a + b)[0] == a[0];
      assert (a + b)[1..] == a[1..] + b;
      KeepTitledAppend(a[1..], b);
    }
  }

  /** The body of the `parseString` callback: RSS shape first, then Atom,
      otherwise nothing; untitled items are dropped. */
  function Normalize(root: Tree, now: int, parseDate: string -> int): (r: seq<Entry>)
    requires WellShaped(root)
    ensures forall e :: e in r ==> e.title != ""
    ensures !Truthy(RssItems(root)) && !Truthy(AtomEntries(root)) ==> r == []
    ensures Truthy(RssItems(root)) ==> |r| <= |AsList(RssItems(root).value)|
    ensures !Truthy(RssItems(root)) && Truthy(AtomEntries(root)) ==> |r| <= |AsList(AtomEntries(root).value)|
  {
    if Truthy(RssItems(root)) then
      KeepTitled(MapRss(AsList(RssItems(root).value), now, parseDate))
    else if Truthy(AtomEntries(root)) then
      KeepTitled(MapAtom(AsList(AtomEntries(root).value), now, parseDate))
    else
      []
  }

  // ------------------------------------------------------------ properties

  /** When RSS items are present the result depends on them alone: an Atom
      `feed.entry` elsewhere in the document is ignored. */
  lemma RssTakesPrecedence(a: Tree, b: Tree, now: int, parseDate: string -> int)
    requires WellShaped(a) && WellShaped(b)
    requires Truthy(RssItems(a)) && RssItems(a) == RssItems(b)
    ensures Normalize(a, now, parseDate) == Normalize(b, now, parseDate)
  {
  }

  /** Without RSS items the result depends on the Atom entries alone. */
  lemma AtomOtherwise(a: Tree, b: Tree, now: int, parseDate: string -> int)
    requires WellShaped(a) && WellShaped(b)
    requires !Truthy(RssItems(a)) && !Truthy(RssItems(b)) && AtomEntries(a) == AtomEntries(b)
    ensures Normalize(a, now, parseDate) == Normalize(b, now, parseDate)
  {
  }

  /** `items.filter(i => i.title)` on the mapped items, whatever their
      titles: the result is the filter applied to the mapping, so it holds
      exactly the mapped entries with a non-empty title, in order. */
  lemma NormalizeKeepsTitled(root: Tree, now: int, parseDate: string -> int)
    requires WellShaped(root)
    ensures Truthy(RssItems(root)) ==>
              && Normalize(root, now, parseDate) == KeepTitled(MapRss(AsList(RssItems(root).value), now, parseDate))
              && forall e :: e in Normalize(root, now, parseDate) <==>
                   e in MapRss(AsList(RssItems(root).value), now, parseDate) && e.title != ""
    ensures !Truthy(RssItems(root)) && Truthy(AtomEntries(root)) ==>
              && Normalize(root, now, parseDate) == KeepTitled(MapAtom(AsList(AtomEntries(root).value), now, parseDate))
              && forall e :: e in Normalize(root, now, parseDate) <==>
                   e in MapAtom(AsList(AtomEntries(root).value), now, parseDate) && e.title != ""
  {
  }

  /** An RSS item's entry carries the item's title as text. */
  lemma RssEntryTitle(i: Tree, now: int, parseDate: string -> int)
    requires RssShaped(i)
    ensures RssEntry(i, now, parseDate).title == TextOf(Get(Some(i), "title"))
  {
  }

  /** The filter keeps a list whose entries all have titles. */
  lemma KeepAllTitled(es: seq<Entry>)
    requires forall k :: 0 <= k < |es| ==> es[k].title != ""
    ensures KeepTitled(es) == es
  {
    forall e | e in es ensures e.title != "" {
      var k :| 0 <= k < |es| && es[k] == e;
    }
  }

  /** Each mapped RSS item carries its item's title. */
  lemma MapRssTitles(items: seq<Tree>, now: int, parseDate: string -> int)
    requires forall n :: n in items ==> RssShaped(n)
    ensures forall k :: 0 <= k < |items| ==>
              MapRss(items, now, parseDate)[k].title == TextOf(Get(Some(items[k]), "title"))
  {
    forall k | 0 <= k < |items|
      ensures MapRss(items, now, parseDate)[k].title == TextOf(Get(Some(items[k]), "title"))
    {
      assert items[k] in items;
      RssEntryTitle(items[k], now, parseDate);
    }
  }

  /** Mapping items that all have titles gives entries that all have
      titles, each the title of its item, and the filter keeps them all. */
  lemma MapRssTitled(items: seq<Tree>, now: int, parseDate: string -> int)
    requires forall n :: n in items ==> RssShaped(n) && TextOf(Get(Some(n), "title")) != ""
    ensures forall k :: 0 <= k < |items| ==>
              MapRss(items, now, parseDate)[k].title == TextOf(Get(Some(items[k]), "title"))
    ensures KeepTitled(MapRss(items, now, parseDate)) == MapRss(items, now, parseDate)
  {
    var mapped := MapRss(items, now, parseDate);
    MapRssTitles(items, now, parseDate);
    forall k | 0 <= k < |mapped| ensures mapped[k].title != "" {
      assert items[k] in items;
    }
    KeepAllTitled(mapped);
  }

  /** An RSS item that is well shaped and has a non-empty title. */
  predicate RssTitled(n: Tree) {
    RssShaped(n) && TextOf(Get(Some(n), "title")) != ""
  }

  /** A feed whose items all have non-empty titles loses none of them to the
      filter: one entry per item, in document order, with the item's own
      title. */
  lemma {:induction false} RssKeepsEveryTitledItem(root: Tree, now: int, parseDate: string -> int)
    requires Truthy(RssItems(root))
    requires forall n :: n in AsList(RssItems(root).value) ==> RssTitled(n)
    ensures WellShaped(root)
    ensures var items := AsList(RssItems(root).value);
            var r := Normalize(root, now, parseDate);
            && r == MapRss(items, now, parseDate)
            && |r| == |items|
            && forall k :: 0 <= k < |items| ==>
                 r[k] == RssEntry(items[k], now, parseDate) && r[k].title == TextOf(Get(Some(items[k]), "title"))
  {
    var items := AsList(RssItems(root).value);
    MapRssTitled(items, now, parseDate);
  }

  /** Mapping entries whose titles all read as non-empty gives entries
      that the title filter keeps. */
  lemma MapAtomTitled(items: seq<Tree>, now: int, parseDate: string -> int)
    requires forall n :: n in items ==> AtomShaped(n) && AtomTitle(Get(Some(n), "title")) != ""
    ensures KeepTitled(MapAtom(items, now, parseDate)) == MapAtom(items, now, parseDate)
  {
    var mapped := MapAtom(items, now, parseDate);
    forall k | 0 <= k < |mapped| ensures mapped[k].title != "" {
      assert items[k] in items;
    }
    KeepAllTitled(mapped);
  }

  /** An Atom entry that is well shaped and whose title reads as non-empty. */
  predicate AtomTitled(n: Tree) {
    AtomShaped(n) && AtomTitle(Get(Some(n), "title")) != ""
  }

  /** Likewise for Atom entries whose titles, in string or object form, read
      as non-empty: the filter drops nothing. */
  lemma {:induction false} AtomKeepsEveryTitledEntry(root: Tree, now: int, parseDate: string -> int)
    requires !Truthy(RssItems(root)) && Truthy(AtomEntries(root))
    requires forall n :: n in AsList(AtomEntries(root).value) ==> AtomTitled(n)
    ensures WellShaped(root)
    ensures var items := AsList(AtomEntries(root).value);
            var r := Normalize(root, now, parseDate);
            && r == MapAtom(items, now, parseDate)
            && |r| == |items|
            && forall k :: 0 <= k < |items| ==> r[k] == AtomEntry(items[k], now, parseDate)
  {
    MapAtomTitled(AsList(AtomEntries(root).value), now, parseDate);
  }

  /** A single `item` element is treated as a one-element list: a document
      whose only item is `x` and one whose items are the array `[x]` give the
      same entries. */
  lemma SingleItemIsList(a: Tree, b: Tree, x: Tree, now: int, parseDate: string -> int)
    requires WellShaped(a) && WellShaped(b)
    requires !x.Arr? && x != Str("")
    requires RssItems(a) == Some(x) && RssItems(b) == Some(Arr([x]))
    ensures Normalize(a, now, parseDate) == Normalize(b, now, parseDate)
  {
  }
}
