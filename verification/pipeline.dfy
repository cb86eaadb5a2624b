/** `main` of fetch-feeds.js with the network, the XML parser and the clock
    turned into inputs: the configured feeds, then one run from fetched trees
    to the rendered page. */
module Pipeline {
  import opened Seqs
  import opened Xml
  import opened Normalize
  import opened Classify
  import opened Aggregate
  import opened Render

  /** `FEEDS`, in configuration order; only the AFM warnings feed fixes its type. */
  const Feeds: seq<Feed> := [
    Feed("AFM", "\U{1F7E2} AFM", "https://www.afm.nl/nl-nl/rss-feed/nieuws-professionals",
         "https://www.afm.nl/nl-nl/sector/actueel", None),
    Feed("AFM", "\U{1F7E2} AFM", "https://www.afm.nl/nl-nl/rss-feed/waarschuwingen-afm",
         "https://www.afm.nl/nl-nl/consumenten/waarschuwingen", Some("Warning")),
    Feed("DNB", "\U{1F535} DNB", "https://www.dnb.nl/en/rss/",
         "https://www.dnb.nl/algemeen-nieuws/", None),
    Feed("EBA", "\U{1F7E4} EBA", "https://www.eba.europa.eu/news-press/news/rss.xml",
         "https://www.eba.europa.eu/news-press/news", None),
    Feed("ESMA", "\U{1F7E3} ESMA", "https://www.esma.europa.eu/press-news/esma-news/feed",
         "https://www.esma.europa.eu/press-news/esma-news", None)
  ]

  /** Items of the warnings feed are typed with the bare word `Warning`,
      while the classifier's label for the same category carries an emoji;
      every other feed leaves typing to the classifier. */
  lemma OnlyWarningsFeedOverrides(e: Entry)
    ensures |Feeds| == 5
    ensures HasOverride(Feeds[1]) && Tag(Feeds[1], e).kind == "Warning"
    ensures Tag(Feeds[1], e).kind != Label(Warning)
    ensures forall i :: 0 <= i < |Feeds| && i != 1 ==> !HasOverride(Feeds[i])
  {
  }

  /** What one feed yields: `None` when fetching or parsing failed (the
      `catch` branch), otherwise the normalised entries of its tree. */
  function Outcome(fetched: Option<Tree>, now: int, parseDate: string -> int): (r: Option<seq<Entry>>)
    requires fetched.Some? ==> WellShaped(fetched.value)
    ensures r.None? <==> fetched.None?
    ensures r.Some? ==> forall e :: e in r.value ==> e.title != ""
  {
    match fetched
    case None => None
    case Some(root) => Some(Normalize.Normalize(root, now, parseDate))
  }

  predicate AllShaped(fetched: seq<Option<Tree>>) {
    forall i :: 0 <= i < |fetched| && fetched[i].Some? ==> WellShaped(fetched[i].value)
  }

  function Outcomes(fetched: seq<Option<Tree>>, now: int, parseDate: string -> int): (r: seq<Option<seq<Entry>>>)
    requires AllShaped(fetched)
    ensures |r| == |fetched|
    ensures forall i :: 0 <= i < |r| ==> r[i] == Outcome(fetched[i], now, parseDate)
  {
    seq(|fetched|, i requires 0 <= i < |fetched| => Outcome(fetched[i], now, parseDate))
  }

  /** Collecting one more feed appends its tagged entries. */
  lemma CollectStep(feeds: seq<Feed>, os: seq<Option<seq<Entry>>>, i: nat)
    requires |feeds| == |os| && i < |feeds|
    ensures Collect(feeds[..i + 1], os[..i + 1]) == Collect(feeds[..i], os[..i]) + TagAll(feeds[i], os[i])
  {
    assert feeds[..i + 1] == feeds[..i] + [feeds[i]];
    assert os[..i + 1] == os[..i] + [os[i]];
    CollectAppend(feeds[..i], os[..i], [feeds[i]], [os[i]]);
    assert [feeds[i]][1..] == [] && [os[i]][1..] == [];
    AppendEmpty(TagAll(feeds[i], os[i]));
  }

  /** The loop of `main` over the feeds: each successful feed's entries,
      tagged, appended in configuration order; a failed feed is skipped.
      `fetched[i]` is the parsed tree of feed `i`, or `None` when its fetch
      or parse failed. */
  method CollectFeeds(feeds: seq<Feed>, fetched: seq<Option<Tree>>, now: int, parseDate: string -> int)
    returns (all: seq<Item>)
    requires |fetched| == |feeds| && AllShaped(fetched)
    ensures all == Collect(feeds, Outcomes(fetched, now, parseDate))
  {
    var os := Outcomes(fetched, now, parseDate);
    all := [];
    for i := 0 to |feeds|
      invariant all == Collect(feeds[..i], os[..i])
    {
      CollectStep(feeds, os, i);
      match fetched[i]
      case None =>
        AppendEmpty(all);
      case Some(root) =>
        var entries := Normalize.Normalize(root, now, parseDate);
        all := all + TagAll(feeds[i], Some(entries));
    }
    assert feeds[..|feeds|] == feeds && os[..|os|] == os;
  }

  /** Every item on the page comes from a feed whose fetch succeeded. */
  lemma ShownFromSuccessfulFeeds(feeds: seq<Feed>, fetched: seq<Option<Tree>>, now: int, parseDate: string -> int)
    requires |fetched| == |feeds| && AllShaped(fetched)
    ensures forall x :: x in Aggregate.Aggregate(Collect(feeds, Outcomes(fetched, now, parseDate))) ==>
              exists i :: 0 <= i < |feeds| && fetched[i].Some? && x.source == feeds[i].source
  {
    var os := Outcomes(fetched, now, parseDate);
    AggregateShape(Collect(feeds, os));
    forall x | x in Aggregate.Aggregate(Collect(feeds, os))
      ensures exists i :: 0 <= i < |feeds| && fetched[i].Some? && x.source == feeds[i].source
    {
      var i :| 0 <= i < |feeds| && os[i].Some? && x.source == feeds[i].source && x.displayLabel == feeds[i].displayLabel;
    }
  }

  /** One run: collect, aggregate, render. `now`, `parseDate`, `fmt` and
      `updated` stand for the clock, `new Date(…)`, `formatDate` and the
      formatted run time. */
  method Run(feeds: seq<Feed>, fetched: seq<Option<Tree>>, now: int, parseDate: string -> int,
             fmt: int -> string, updated: string)
    returns (shown: seq<Item>, md: string)
    requires |fetched| == |feeds| && AllShaped(fetched)
    ensures shown == Aggregate.Aggregate(Collect(feeds, Outcomes(fetched, now, parseDate)))
    ensures md == Page(updated, shown, fmt)
  {
    var all := CollectFeeds(feeds, fetched, now, parseDate);
    shown := Aggregate.Aggregate(all);
    md := RenderPage(updated, shown, fmt);
  }
}
