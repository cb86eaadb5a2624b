# Regulatory news feed aggregator — Dafny model

`fetch-feeds.js` fetches the RSS and Atom feeds of four Dutch and European
financial supervisors (AFM, DNB, EBA, ESMA) and writes one Markdown news page.
This project models the pure part of that program, from parsed feed documents
to the finished page, and proves properties of it:

- `Text` — `stripHtml`: drop tags, collapse white space, trim, cut to 200
  characters.
- `Classify` — `guessType`: the keyword classifier with its fixed precedence.
- `Xml`, `Normalize` — the item mapping and title filter of `parseRSS`, over a
  datatype standing for the object tree xml2js builds with
  `explicitArray: false`.
- `Aggregate` — tagging each entry with its feed and resolved type,
  concatenation in configuration order, the stable newest-first sort,
  duplicate removal by lower-cased 60-character title prefix, and the cut to
  thirty items.
- `Render` — the Markdown page: fixed header carrying the update time, one
  block per item, fixed footer.
- `Pipeline` — the feed configuration and one run of `main` with the network,
  the XML parser and the clock turned into inputs.
- `Seqs` — `Option`, `Min`, `Take` and small lemmas on slicing and concatenating sequences.

Dates are integers (epoch milliseconds). `new Date(string)` is the parameter
`parseDate`, the clock reading is `now`, `formatDate` is `fmt`, and the
formatted run time is `updated`. `Xml.Get(t, k)` is JavaScript's optional
property access `t?.[k]`: it yields the child `k` when `t` is an object that
has one, and `undefined` (`None`) otherwise; every path such as
`result?.rss?.channel?.item` is a chain of `Get`s.

Points of the code's behaviour that are easy to miss, which the model keeps:

- `stripHtml` is not idempotent. It trims before it cuts, so a cut at 200
  characters can leave a trailing blank that a second pass removes.
  `Text.StripHtmlNotIdempotent` exhibits an input.
- A lone `item` or `entry` element is accepted and treated as a one-element
  list, exactly like an array holding that element.
- The date falls back to the clock only when the date field is absent or
  empty. An unparseable date string is still passed to `new Date`.
- The warnings feed sets its type to the bare word `Warning`. The classifier's
  label for the same category is `🔔 Warning`, so the two render differently.

## Model

| member | source | states |
|---|---|---|
| Text.RemoveTags | fetch-feeds.js:107 | removing `<…>` tags never lengthens the text and adds no character; text without `<` is unchanged; a leading character that does not open a tag is kept |
| Text.RemoveTagsTagFree | fetch-feeds.js:107 | after the global tag replacement no `<x…>` tag remains anywhere in the text |
| Text.RemoveTagsPlainPrefix | fetch-feeds.js:107 | text before the first `<` survives tag removal unchanged, in front of whatever the rest becomes |
| Text.RemoveTagsDropsTag | fetch-feeds.js:107 | a tag `<c…>` with no `>` inside it disappears, with nothing else around it changed |
| Text.RemoveTagsEmptyTag | fetch-feeds.js:107 | `<>` is no tag: both characters stay and the scan carries on after them |
| Text.RemoveTagsNoClose | fetch-feeds.js:107 | text without any `>` contains no complete tag and is left unchanged, even if it contains `<` |
| Text.Lower | fetch-feeds.js:117 | lower-casing keeps the length and maps each character to its lower-case form |
| Text.CollapseRun | fetch-feeds.js:107 | a run of white space followed by a non-white-space character becomes exactly one blank |
| Text.CollapseSplit | fetch-feeds.js:107 | the white-space replacement works piecewise at any point not inside a white-space run |
| Text.CollapseRunBetween | fetch-feeds.js:107 | a white-space run between two texts becomes one blank and the texts on either side are collapsed independently |
| Text.Collapse | fetch-feeds.js:107 | the white-space replacement yields single-spaced text; it is empty exactly when its input is; it keeps the first character's white-space class; every other character in it comes from the input |
| Text.CollapseKeepsText | fetch-feeds.js:107 | collapsing white space keeps every non-white-space character, in order |
| Text.CollapseFixedPoint | fetch-feeds.js:107 | collapsing leaves a text unchanged exactly when it is already single-spaced |
| Text.Trim | fetch-feeds.js:107 | `trim()` returns the input with all leading and all trailing white space removed: a trimmed infix with only white space around it |
| Text.TrimFixedPoint | fetch-feeds.js:107 | trimming leaves a text unchanged exactly when it has no white space at either end |
| Text.TrimKeeps | fetch-feeds.js:107 | trimming keeps a text single-spaced and tag-free |
| Text.Clean | fetch-feeds.js:107 | before the cut, the sanitised text is trimmed, single-spaced and tag-free |
| Text.StripHtml | fetch-feeds.js:106-108 | the description is exactly `min(200, n)` characters long for a cleaned text of length `n`, a prefix of the cleaned text, does not start with white space, is single-spaced and tag-free, and equals the whole cleaned text when that fits |
| Text.CleanOfPlain | fetch-feeds.js:107 | plain single-spaced trimmed text without `<` passes through the three replacements unchanged |
| Text.SecondPassTrims | fetch-feeds.js:107 | a short clean text that ends in a blank is changed by a second pass |
| Text.StripHtmlNotIdempotent | fetch-feeds.js:107 | there is an input on which applying `stripHtml` twice differs from applying it once |
| Classify.FirstMentioned | fetch-feeds.js:116-125 | the reference classifier returns `News` or one of the given categories; a category other than `News` is one the text mentions; `News` exactly when none is mentioned |
| Classify.Label | fetch-feeds.js:118-124 | every label is an emoji, a blank and a word: more than two characters, not ending in a blank |
| Classify.LabelsDistinct | fetch-feeds.js:118-124 | distinct categories have distinct labels |
| Classify.MentionsUnfold | fetch-feeds.js:118-123 | each category is mentioned exactly when one of its listed keywords occurs |
| Classify.GuessType | fetch-feeds.js:116-125 | `guessType` returns the first category, in precedence order, that the lower-cased `title + ' ' + desc` mentions, otherwise `News` |
| Classify.ConsultationWins | fetch-feeds.js:118 | a consultation keyword yields Consultation whatever other keywords occur |
| Classify.NewsIffNoKeyword | fetch-feeds.js:124 | `News` is returned exactly when no keyword of any group occurs |
| Classify.FirstMentionedIsFirst | fetch-feeds.js:118-124 | over distinct categories, category `i` is chosen exactly when it is mentioned and no earlier one is |
| Classify.GuessTypePrecedence | fetch-feeds.js:118-124 | a category is returned exactly when one of its keywords occurs and no keyword of a higher group does |
| Classify.GuessTypeIgnoresCase | fetch-feeds.js:117 | lower-casing title and description first does not change the result |
| Xml.AsList | fetch-feeds.js:81 | an array stays as it is; a single node becomes a one-element list |
| Xml.TextOf | fetch-feeds.js:83-85 | `x \|\| ''` on a text field gives the field's string, or the empty string when the field is absent or empty |
| Normalize.RssEntry | fetch-feeds.js:82-87 | an RSS item maps to its title and link or `''`, its sanitised description, and its parsed `pubDate` or the clock when `pubDate` is missing |
| Normalize.AtomTitle | fetch-feeds.js:94 | an Atom title in string form reads like any text field (`x \|\| ''`); in object form it is the object's text; an array title, or an object title without text, gives `''`; a non-empty title comes from a truthy field |
| Normalize.BodyText | fetch-feeds.js:96 | `x?._ \|\| x` on a `summary` or `content` reads a string field like any text field and an object by its text; a non-empty result comes from a truthy field |
| Normalize.AtomLink | fetch-feeds.js:95 | an Atom link is `link.$.href` when the link has attributes, the string when it is a string, `''` otherwise (including a list) |
| Normalize.AtomEntry | fetch-feeds.js:93-98 | an Atom entry's description is the sanitised `summary` when that is non-empty, else the sanitised `content`; its date is `published`, else `updated`, else the clock; `content` is read only when `summary` is empty and `updated` only when `published` is not truthy |
| Normalize.XhtmlContentWithSummary | fetch-feeds.js:96 | an entry with a string summary and an XHTML `content` object without text is accepted and described by its summary |
| Normalize.KeepTitled | fetch-feeds.js:101 | the filter keeps exactly the entries with a non-empty title and changes nothing when all have one |
| Normalize.KeepTitledAppend | fetch-feeds.js:101 | the filter distributes over concatenation, so it keeps the entries' order |
| Normalize.Normalize | fetch-feeds.js:76-101 | every entry returned has a non-empty title; a document with neither RSS items nor Atom entries yields nothing; at most one entry per item |
| Normalize.NormalizeKeepsTitled | fetch-feeds.js:79-101 | for an RSS or an Atom document, whatever its titles, the result is the title filter applied to the mapped items: exactly the mapped entries with a non-empty title, in order |
| Normalize.RssTakesPrecedence | fetch-feeds.js:79-90 | when `rss.channel.item` is present, the Atom entries of the document are ignored |
| Normalize.AtomOtherwise | fetch-feeds.js:90-99 | without RSS items the result depends only on `feed.entry` |
| Normalize.RssKeepsEveryTitledItem | fetch-feeds.js:79-101 | when every RSS item is well shaped and has a non-empty title, the document is well shaped and the filter drops nothing: the result is the item mapping itself, one entry per item in document order, each with the item's own title |
| Normalize.AtomKeepsEveryTitledEntry | fetch-feeds.js:90-98 | likewise for Atom entries that are well shaped and whose titles, in string or object form, read as non-empty: the document is then well shaped and the result is the entry mapping itself, one full entry per input entry in document order |
| Normalize.SingleItemIsList | fetch-feeds.js:81 | a document with a single item node yields what the same node inside a one-element array yields |
| Aggregate.ResolveType | fetch-feeds.js:145 | the resolved type is never empty: a truthy feed `type`, or a classifier label |
| Aggregate.ResolveTypeIsLabel | fetch-feeds.js:145 | without a feed override the type is one of the classifier's labels, and that label names exactly the category the classifier chose |
| Aggregate.Tag | fetch-feeds.js:141-146 | a tagged item keeps the entry's title, link, description and date and takes source and label from its feed |
| Aggregate.OverrideIsUniform | fetch-feeds.js:145 | with a truthy feed `type` every item of the feed gets that type whatever its text; otherwise the type is the classifier's label |
| Aggregate.TagAll | fetch-feeds.js:141-146 | a successful feed contributes one tagged item per entry, in order; a failed one contributes none |
| Aggregate.Collect | fetch-feeds.js:134-150 | the collected list holds every delivered entry, and each item comes from a feed whose fetch succeeded |
| Aggregate.CollectAppend | fetch-feeds.js:134-150 | collecting is compositional: feeds are concatenated in configuration order |
| Aggregate.FailedFeedContributesNothing | fetch-feeds.js:147-149 | a failed feed adds nothing and does not disturb the feeds around it |
| Aggregate.Insert | fetch-feeds.js:153 | inserting into a newest-first list gives a newest-first list one longer |
| Aggregate.InsertPermutes | fetch-feeds.js:153 | insertion adds exactly the inserted item |
| Aggregate.InsertStable | fetch-feeds.js:153 | the inserted item goes before every item of its own date and disturbs no other date |
| Aggregate.SortByDate | fetch-feeds.js:153 | the sorted list is a permutation of its input, newest first |
| Aggregate.SortByDateStable | fetch-feeds.js:153 | items with equal dates keep their collection order |
| Aggregate.StableSortUnique | fetch-feeds.js:153 | two newest-first lists with the same items of every date in the same order are equal |
| Aggregate.SortIsCanonical | fetch-feeds.js:153 | every stable newest-first ordering of the collected items is the one the model computes |
| Aggregate.Key | fetch-feeds.js:158 | the duplicate key of a title of length `n` has `min(60, n)` characters |
| Aggregate.KeyLowersTitle | fetch-feeds.js:158 | the key is the title's first 60 characters, each lower-cased, so titles of at least 60 characters that agree there up to case share a key |
| Aggregate.KeySetMembers | fetch-feeds.js:158 | the key set holds exactly the keys of the list's items |
| Aggregate.DedupFrom | fetch-feeds.js:156-162 | the filter keeps only items of the input whose key was not yet seen, no two kept items share a key, and a newest-first input stays newest first |
| Aggregate.DedupKeys | fetch-feeds.js:156-162 | every key of the input that was not seen before survives the filter |
| Aggregate.DedupIsKeepFirst | fetch-feeds.js:156-162 | the filter with its growing `seen` set equals the reference definition that keeps exactly the first item of every key, in order |
| Aggregate.KeepFirstKeeps | fetch-feeds.js:157-161 | an item with no earlier item of the same key is kept |
| Aggregate.UniqueKeysCount | fetch-feeds.js:156-162 | a list has distinct keys exactly when it has as many keys as items |
| Aggregate.DedupUnique | fetch-feeds.js:156-162 | with distinct keys the filter drops nothing |
| Aggregate.KeySetOfPermutation | fetch-feeds.js:153-158 | sorting does not change the set of keys |
| Aggregate.Aggregate | fetch-feeds.js:153-165 | the page holds at most thirty items and is a prefix of the sorted, de-duplicated list |
| Aggregate.AggregateShape | fetch-feeds.js:153-165 | the shown items are newest first, have pairwise distinct keys, and all come from the collected items |
| Aggregate.AggregateCount | fetch-feeds.js:165 | the page holds `min(30, n)` items for `n` distinct keys |
| Aggregate.MostRecentKept | fetch-feeds.js:153-165 | with distinct keys the page holds the thirty newest items, and no item left off is newer than any item shown |
| Render.Header | fetch-feeds.js:174-198 | the header opens with the front matter and the update time, is as long as its fixed parts plus the update time twice, and ends with the link table and the `Laatste nieuws` heading |
| Render.HeaderBanner | fetch-feeds.js:177-182 | after the update time in the front matter come the closing `---`, the `# 📰 Regulatory News Feed` title and the `> **Laatste update:** ` label, then the update time again |
| Render.Block | fetch-feeds.js:202-210 | every block opens with the `### label title` line and the `**date** · type` line, closes with the `---` separator, and in between holds the description paragraph only when the description is non-empty and the read-more line only when the link is non-empty |
| Render.Page | fetch-feeds.js:174-213 | the page opens with the header and ends with the footer |
| Render.BlocksAppend | fetch-feeds.js:201-211 | rendering a concatenation renders each part in turn |
| Render.PageBlockAt | fetch-feeds.js:174-213 | the page is the header, the blocks of the items before `i`, the block of item `i`, the blocks after it, and the footer |
| Render.EmptyPage | fetch-feeds.js:174-213 | with no items the page is the header followed directly by the footer |
| Render.OptionalParts | fetch-feeds.js:204-209 | blanking a non-empty description or link changes the block, and an item with neither is rendered as just its heading line, its date-and-type line and the separator |
| Render.AppendBlocks | fetch-feeds.js:201-213 | the loop appends one block per item, in order, and then the footer |
| Render.RenderPage | fetch-feeds.js:174-213 | the text built by the loop is the whole page: header with the update time, the blocks, the footer |
| Pipeline.OnlyWarningsFeedOverrides | fetch-feeds.js:18-50 | five feeds are configured; only the AFM warnings feed fixes its type, to the bare word `Warning`, which differs from the classifier's label |
| Pipeline.Outcome | fetch-feeds.js:135-149 | a feed yields nothing exactly when its fetch or parse failed, and otherwise only titled entries |
| Pipeline.CollectFeeds | fetch-feeds.js:132-150 | the loop over the feeds builds exactly the collected list |
| Pipeline.ShownFromSuccessfulFeeds | fetch-feeds.js:134-165 | every item on the page comes from a feed whose fetch succeeded |
| Pipeline.Run | fetch-feeds.js:129-213 | one run shows the aggregate of the collected items and writes the page rendered from them |

## Left out

- `fetchUrl` is left out: network access, redirects and the 15-second timeout. A feed's outcome is an input, `None` when fetching or parsing failed.
- The `parseString` call of xml2js is left out: the model starts from the tree it builds. Malformed XML is a failed feed.
- `new Date(…)`, `formatDate`, `toLocaleString` and the `Unknown date` path are left out: locale and floating-point time. They are the parameters `parseDate`, `fmt` and `updated`.
- Normalize.RssEntry: the clock is one `now` per run, while the source calls `new Date()` for each item without a date.
- Aggregate.SortByDate: assumes every date is a valid number. An unparseable date makes the JavaScript comparator return NaN, and that order is not modelled.
- Normalize.Normalize: requires `WellShaped` input, in which every field the mapping actually reads is text: the RSS `title`, `link`, `description` and `pubDate` are strings or absent; an Atom title is anything but an object without text that carries attributes (an array title or a text-less object without attributes reads as `''`); the Atom `summary` is a string, absent or an object with text, and so is `content` when the summary reads as empty; `published` is a string or absent, and so is `updated` when `published` is not truthy. What the source does with the excluded shapes is not modelled. A non-string `description`, `summary` or `content` reaches `stripHtml` (fetch-feeds.js:107), whose `replace` throws inside the parser callback; that feed then delivers no items (the `catch` at fetch-feeds.js:147-149, when the parser passes the exception on). A non-string title, such as an Atom title object with attributes but no text, passes the filter (fetch-feeds.js:101), and `toLowerCase` on it at fetch-feeds.js:158 throws outside any `try`, so `main` rejects and the run ends with exit code 1 and no page (fetch-feeds.js:225-228). A non-string `link` or `pubDate` is carried into the item or into `new Date` as an object.
- Normalize.AtomLink: a link whose attributes lack `href` gives `''`, where the source gives `undefined`. Both render as no link.
- Text.Lower: folds ASCII letters only. `toLowerCase` also folds other letters.
- Text.StripHtml: counts length in Unicode scalar values. JavaScript counts UTF-16 code units, so `substring(0, 200)` can cut a character outside the Basic Multilingual Plane in half.
- Aggregate.Key: counts the 60 characters of `substring(0, 60)` in Unicode scalar values, where JavaScript counts UTF-16 code units; two titles whose first 60 code units agree but whose first 60 scalar values differ are duplicates in the source and not in the model, and the reverse.
- Pipeline.Run: states the page and the shown items. That they come from successful feeds is stated by `Pipeline.ShownFromSuccessfulFeeds`.
- Writing the file, creating the directory, console output and the process exit code are left out: they are I/O.
