/** The Markdown page `main` writes: a fixed header carrying the update time,
    one block per item, and a fixed footer. */
module Render {
  import opened Seqs
  import opened Aggregate

  /** The front matter up to the update time. */
  const FrontMatter: string :=
    "---\ndescription: >-\n  Automatisch bijgewerkte regulatory news feed van AFM, DNB, EBA en ESMA.\n  Laatste update: "

  /** From the end of the front matter to the update time in the banner. */
  const Banner: string :=
    "\n---\n\n# \U{1F4F0} Regulatory News Feed\n\n> **Laatste update:** "

  /** The rest of the banner, the link table and the heading of the item list. */
  const Links: string :=
    "\n> \n> Deze pagina wordt automatisch bijgewerkt via RSS feeds van de financi\U{EB}le toezichthouders.\n\n"
    + "## Directe links\n\n"
    + "| Toezichthouder | Nieuwspagina |\n|---|---|\n"
    + "| \U{1F7E2} **AFM** | [afm.nl/sector/actueel](https://www.afm.nl/nl-nl/sector/actueel) |\n"
    + "| \U{1F535} **DNB** | [dnb.nl/algemeen-nieuws](https://www.dnb.nl/algemeen-nieuws/) |\n"
    + "| \U{1F7E4} **EBA** | [eba.europa.eu/news-press](https://www.eba.europa.eu/news-press/news) |\n"
    + "| \U{1F7E3} **ESMA** | [esma.europa.eu/esma-news](https://www.esma.europa.eu/press-news/esma-news) |\n"
    + "\n---\n\n## Laatste nieuws\n\n"

  /** The fixed text above the items; `updated`, the formatted time of the
      run, appears twice: in the front matter and in the banner. */
  function Header(updated: string): (r: string)
    ensures |r| == |FrontMatter| + |Banner| + |Links| + 2 * |updated|
    ensures r[..|FrontMatter|] == FrontMatter
    ensures r[|FrontMatter|..|FrontMatter| + |updated|] == updated
    ensures r[|r| - |Links|..] == Links
  {
    Twice(FrontMatter, updated, Banner, Links);
    FrontMatter + updated + Banner + updated + Links
  }

  /** After the update time in the front matter come the closing `---`, the
      page title and the banner's label, then the update time again. */
  lemma HeaderBanner(updated: string)
    ensures var r, i := Header(updated), |FrontMatter| + |updated|;
            && r[i..i + |Banner|] == Banner
            && r[i + |Banner|..i + |Banner| + |updated|] == updated
  {
    Twice(FrontMatter, updated, Banner, Links);
  }

  const Footer: string :=
    "\n*Deze pagina wordt automatisch gegenereerd. Bronnen: AFM, DNB, EBA, ESMA RSS feeds.*\n"

  /** Opens every block. */
  const HeadingMark: string := "### "

  /** Closes every block. */
  const Separator: string := "---\n\n"

  /** The description paragraph, present only for a non-empty description. */
  function DescriptionPart(x: Item): string {
    if x.description != "" then x.description + "\n\n" else ""
  }

  /** The "read more" line, present only for a non-empty link. */
  function LinkPart(x: Item): string {
    if x.link != "" then "\U{1F517} [Lees meer \U{2192}](" + x.link + ")\n\n" else ""
  }

  /** The heading line of an item's block. */
  function Heading(x: Item): string {
    HeadingMark + x.displayLabel + " " + x.title + "\n\n"
  }

  /** The date-and-type line. */
  function DateLine(x: Item, fmt: int -> string): string {
    "**" + fmt(x.date) + "** \U{B7} " + x.kind + "\n\n"
  }

  /** The block of one item; `fmt` is `formatDate`. It opens with the
      heading line and the date-and-type line, closes with the separator,
      and in between holds the description paragraph only for a non-empty
      description and the read-more line only for a non-empty link. */
  function Block(x: Item, fmt: int -> string): (r: string)
    ensures HeadingMark + x.displayLabel + " " + x.title + "\n\n" + "**" + fmt(x.date) + "** \U{B7} " + x.kind + "\n\n" <= r
    ensures |r| >= |Separator|
    ensures r[|r| - |Separator|..] == Separator
    ensures var lead := |HeadingMark + x.displayLabel + " " + x.title + "\n\n" + "**" + fmt(x.date) + "** \U{B7} " + x.kind + "\n\n"|;
            lead <= |r| - |Separator| &&
            r[lead..|r| - |Separator|] ==
              (if x.description != "" then x.description + "\n\n" else "")
              + (if x.link != "" then "\U{1F517} [Lees meer \U{2192}](" + x.link + ")\n\n" else "")
  {
    Middle(Heading(x) + DateLine(x, fmt), DescriptionPart(x) + LinkPart(x), Separator);
    Heading(x) + DateLine(x, fmt) + (DescriptionPart(x) + LinkPart(x)) + Separator
  }

  /** The blocks of `items`, in order. */
  function Blocks(items: seq<Item>, fmt: int -> string): string
    decreases |items|
  {
    if items == [] then "" else Block(items[0], fmt) + Blocks(items[1..], fmt)
  }

  /** The whole page: the header, the blocks, and the footer last. */
  function Page(updated: string, items: seq<Item>, fmt: int -> string): (r: string)
    ensures Header(updated) <= r
    ensures |r| >= |Footer|
    ensures r[|r| - |Footer|..] == Footer
  {
    Ends(Header(updated), Blocks(items, fmt), Footer);
    Header(updated) + Blocks(items, fmt) + Footer
  }

  /** Rendering is compositional over the item list. */
  lemma {:induction false} BlocksAppend(a: seq<Item>, b: seq<Item>, fmt: int -> string)
    ensures Blocks(a + b, fmt) == Blocks(a, fmt) + Blocks(b, fmt)
    decreases |a|
  {
    if a == [] {
      assert a + b == b;
    } else {
      assert (a + b)[0] == a[0] && (a + b)[1..] == a[1..] + b;
      BlocksAppend(a[1..], b, fmt);
      AppendAssoc(Block(a[0], fmt), Blocks(a[1..], fmt), Blocks(b, fmt));
    }
  }

  /** Splits the blocks of a list around its item `i`. */
  lemma BlocksAround(items: seq<Item>, fmt: int -> string, i: nat)
    requires i < |items|
    ensures Blocks(items, fmt) == Blocks(items[..i], fmt) + (Block(items[i], fmt) + Blocks(items[i + 1..], fmt))
  {
    var a, b := items[..i], items[i..];
    SplitAt(items, i);
    BlocksAppend(a, b, fmt);
    assert b[0] == items[i] && b[1..] == items[i + 1..];
  }

  lemma FrameAround(h: string, items: seq<Item>, fmt: int -> string, i: nat)
    requires i < |items|
    ensures h + Blocks(items, fmt) + Footer ==
            h + (Blocks(items[..i], fmt) + (Block(items[i], fmt) + (Blocks(items[i + 1..], fmt) + Footer)))
  {
    var a, b, c := Blocks(items[..i], fmt), Block(items[i], fmt), Blocks(items[i + 1..], fmt);
    BlocksAround(items, fmt, i);
    AppendAssoc(h, a + (b + c), Footer);
    AppendAssoc(a, b + c, Footer);
    AppendAssoc(b, c, Footer);
  }

  /** The page is the header, the blocks of the items before `i`, the block
      of item `i`, the blocks after it, and the footer: one block per item in
      list order. */
  lemma PageBlockAt(updated: string, items: seq<Item>, fmt: int -> string, i: nat)
    requires i < |items|
    ensures Page(updated, items, fmt) ==
            Header(updated) + (Blocks(items[..i], fmt) + (Block(items[i], fmt) + (Blocks(items[i + 1..], fmt) + Footer)))
  {
    FrameAround(Header(updated), items, fmt, i);
  }

  lemma EmptyFrame(h: string, fmt: int -> string)
    ensures h + Blocks([], fmt) + Footer == h + Footer
  {
    AppendEmpty(h);
  }

  /** An empty list renders as the header followed directly by the footer. */
  lemma EmptyPage(updated: string, fmt: int -> string)
    ensures Page(updated, [], fmt) == Header(updated) + Footer
  {
    EmptyFrame(Header(updated), fmt);
  }

  /** Without description and link, a block is its two fixed lines and the
      separator. */
  lemma BareBlock(x: Item, fmt: int -> string)
    requires x.description == "" && x.link == ""
    ensures Block(x, fmt) == Heading(x) + DateLine(x, fmt) + Separator
  {
    assert DescriptionPart(x) + LinkPart(x) == [];
    AppendEmpty(Heading(x) + DateLine(x, fmt));
  }

  /** The description paragraph is left out exactly when the description is
      empty; the read-more line exactly when the link is empty. */
  lemma OptionalParts(x: Item, fmt: int -> string)
    ensures Block(x, fmt) == Block(x.(description := ""), fmt) <==> x.description == ""
    ensures Block(x, fmt) == Block(x.(link := ""), fmt) <==> x.link == ""
    ensures x.description == "" && x.link == "" ==>
              Block(x, fmt) == HeadingMark + x.displayLabel + " " + x.title + "\n\n" + "**" + fmt(x.date) + "** \U{B7} " + x.kind + "\n\n" + Separator
  {
    if x.description == "" && x.link == "" {
      BareBlock(x, fmt);
    }
    var d := x.(description := "");
    var l := x.(link := "");
    assert |Block(x, fmt)| == |Block(d, fmt)| + |DescriptionPart(x)|;
    assert |Block(x, fmt)| == |Block(l, fmt)| + |LinkPart(x)|;
  }

  /** The blocks of a list one item longer end with that item's block. */
  lemma BlocksSnoc(items: seq<Item>, fmt: int -> string, i: nat)
    requires i < |items|
    ensures Blocks(items[..i + 1], fmt) == Blocks(items[..i], fmt) + Block(items[i], fmt)
  {
    TakeSnoc(items, i);
    BlocksAppend(items[..i], [items[i]], fmt);
    assert [items[i]][1..] == [];
    AppendEmpty(Block(items[i], fmt));
  }

  /** Appending one block extends the rendered prefix by one item. */
  lemma RenderStep(h: string, items: seq<Item>, fmt: int -> string, i: nat)
    requires i < |items|
    ensures h + Blocks(items[..i + 1], fmt) == (h + Blocks(items[..i], fmt)) + Block(items[i], fmt)
  {
    BlocksSnoc(items, fmt, i);
    AppendAssoc(h, Blocks(items[..i], fmt), Block(items[i], fmt));
  }

  lemma RenderStart(h: string, items: seq<Item>, fmt: int -> string)
    ensures h == h + Blocks(items[..0], fmt)
  {
    assert items[..0] == [];
    AppendEmpty(h);
  }

  lemma RenderEnd(h: string, items: seq<Item>, fmt: int -> string)
    ensures h + Blocks(items[..|items|], fmt) == h + Blocks(items, fmt)
  {
    TakeAll(items);
  }

  /** The loop of `main` over the kept items, then the footer, starting from
      the text `start` already in `md`. */
  method AppendBlocks(start: string, items: seq<Item>, fmt: int -> string) returns (md: string)
    ensures md == start + Blocks(items, fmt) + Footer
  {
    md := start;
    RenderStart(start, items, fmt);
    for i := 0 to |items|
      invariant md == start + Blocks(items[..i], fmt)
    {
      RenderStep(start, items, fmt, i);
      md := md + Block(items[i], fmt);
    }
    RenderEnd(start, items, fmt);
    md := md + Footer;
  }

  /** `let md = header; for (const item of allItems) md += …; md += footer`. */
  method RenderPage(updated: string, items: seq<Item>, fmt: int -> string) returns (md: string)
    ensures md == Page(updated, items, fmt)
  {
    md := AppendBlocks(Header(updated), items, fmt);
  }
}
