/** The keyword classifier `guessType` of fetch-feeds.js. */
module Classify {
  import opened Text

  datatype Category = Consultation | Warning | Enforcement | Guidance | Publication | Speech | News

  /** The label `guessType` returns for each category, emoji prefix included. */
  function Label(c: Category): (r: string)
    ensures |r| > 2 && r[|r| - 1] != ' '
  {
    match c
    case Consultation => "\U{1F4CB} Consultation"
    case Warning => "\U{1F514} Warning"
    case Enforcement => "\U{2696}\U{FE0F} Enforcement"
    case Guidance => "\U{1F4D6} Guidance"
    case Publication => "\U{1F4CA} Publication"
    case Speech => "\U{1F3A4} Speech"
    case News => "\U{1F4F0} News"
  }

  /** Distinct categories have distinct labels, so a label names its category. */
  lemma LabelsDistinct(a: Category, b: Category)
    ensures Label(a) == Label(b) <==> a == b
  {
  }

  /** The keywords that select each category; `News` is the fallback and has none. */
  function Keywords(c: Category): seq<string> {
    match c
    case Consultation => ["consultation", "consultatie"]
    case Warning => ["warning", "waarschuwing"]
    case Enforcement => ["enforcement", "boete", "fine"]
    case Guidance => ["guideline", "guidance", "leidraad"]
    case Publication => ["report", "publication", "rapport"]
    case Speech => ["speech", "toespraak"]
    case News => []
  }

  /** The keyword categories, highest precedence first. */
  const Precedence: seq<Category> := [Consultation, Warning, Enforcement, Guidance, Publication, Speech]

  /** Some keyword of `ks` occurs in `text`. */
  predicate ContainsAny(text: string, ks: seq<string>) {
    ks != [] && (Contains(text, ks[0]) || ContainsAny(text, ks[1..]))
  }

  /** Some keyword of `c` occurs in `text`. */
  predicate Mentions(text: string, c: Category) {
    ContainsAny(text, Keywords(c))
  }

  /** Reference classifier: the first category of `cats` that `text` mentions,
      or `News` when it mentions none of them. */
  function FirstMentioned(text: string, cats: seq<Category>): (r: Category)
    ensures r == News || r in cats
    ensures r != News ==> Mentions(text, r)
    ensures r == News <==> forall c :: c in cats && c != News ==> !Mentions(text, c)
  {
    if cats == [] then News
    else if cats[0] != News && Mentions(text, cats[0]) then cats[0]
    else FirstMentioned(text, cats[1..])
  }

  lemma ContainsAnyTwo(text: string, a: string, b: string)
    ensures ContainsAny(text, [a, b]) <==> Contains(text, a) || Contains(text, b)
  {
    assert [b][1..] == [];
    assert ContainsAny(text, [b]) <==> Contains(text, b);
    assert [a, b][1..] == [b];
  }

  lemma ContainsAnyThree(text: string, a: string, b: string, c: string)
    ensures ContainsAny(text, [a, b, c]) <==> Contains(text, a) || Contains(text, b) || Contains(text, c)
  {
    assert [a, b, c][1..] == [b, c];
    ContainsAnyTwo(text, b, c);
  }

  /** `Mentions` spelled out keyword by keyword. */
  lemma MentionsUnfold(text: string)
    ensures Mentions(text, Consultation) <==> Contains(text, "consultation") || Contains(text, "consultatie")
    ensures Mentions(text, Warning) <==> Contains(text, "warning") || Contains(text, "waarschuwing")
    ensures Mentions(text, Enforcement) <==>
              Contains(text, "enforcement") || Contains(text, "boete") || Contains(text, "fine")
    ensures Mentions(text, Guidance) <==>
              Contains(text, "guideline") || Contains(text, "guidance") || Contains(text, "leidraad")
    ensures Mentions(text, Publication) <==>
              Contains(text, "report") || Contains(text, "publication") || Contains(text, "rapport")
    ensures Mentions(text, Speech) <==> Contains(text, "speech") || Contains(text, "toespraak")
  {
    ContainsAnyTwo(text, "consultation", "consultatie");
    ContainsAnyTwo(text, "warning", "waarschuwing");
    ContainsAnyThree(text, "enforcement", "boete", "fine");
    ContainsAnyThree(text, "guideline", "guidance", "leidraad");
    ContainsAnyThree(text, "report", "publication", "rapport");
    ContainsAnyTwo(text, "speech", "toespraak");
  }

  lemma FirstMentionedStep(text: string, c: Category, rest: seq<Category>)
    requires c != News
    ensures FirstMentioned(text, [c] + rest) ==
            if Mentions(text, c) then c else FirstMentioned(text, rest)
  {
    assert ([c] + rest)[1..] == rest;
  }

  /** `FirstMentioned` over the precedence list, one group at a time. */
  lemma FirstMentionedUnfold(text: string)
    ensures FirstMentioned(text, Precedence) ==
      if Mentions(text, Consultation) then Consultation
      else if Mentions(text, Warning) then Warning
      else if Mentions(text, Enforcement) then Enforcement
      else if Mentions(text, Guidance) then Guidance
      else if Mentions(text, Publication) then Publication
      else if Mentions(text, Speech) then Speech
      else News
  {
    FirstMentionedStep(text, Speech, []);
    FirstMentionedStep(text, Publication, [Speech]);
    FirstMentionedStep(text, Guidance, [Publication, Speech]);
    FirstMentionedStep(text, Enforcement, [Guidance, Publication, Speech]);
    FirstMentionedStep(text, Warning, [Enforcement, Guidance, Publication, Speech]);
    FirstMentionedStep(text, Consultation, [Warning, Enforcement, Guidance, Publication, Speech]);
  }

  /** The text `guessType` searches: title, a blank, description, lower-cased. */
  function Haystack(title: string, desc: string): string {
    Lower(title + " " + desc)
  }

  /** `guessType(title, desc)`: keyword groups are checked in a fixed order
      and the first group with a keyword in the text wins. */
  function GuessType(title: string, desc: string): (r: Category)
    ensures r == FirstMentioned(Haystack(title, desc), Precedence)
  {
    var text := Haystack(title, desc);
    MentionsUnfold(text);
    FirstMentionedUnfold(text);
    if Contains(text, "consultation") || Contains(text, "consultatie") then Consultation
    else if Contains(text, "warning") || Contains(text, "waarschuwing") then Warning
    else if Contains(text, "enforcement") || Contains(text, "boete") || Contains(text, "fine") then Enforcement
    else if Contains(text, "guideline") || Contains(text, "guidance") || Contains(text, "leidraad") then Guidance
    else if Contains(text, "report") || Contains(text, "publication") || Contains(text, "rapport") then Publication
    else if Contains(text, "speech") || Contains(text, "toespraak") then Speech
    else News
  }

  /** A consultation keyword wins whatever other keywords occur. */
  lemma ConsultationWins(title: string, desc: string)
    requires Mentions(Haystack(title, desc), Consultation)
    ensures GuessType(title, desc) == Consultation
  {
  }

  /** `News` is returned exactly when no keyword of any group occurs. */
  lemma NewsIffNoKeyword(title: string, desc: string)
    ensures GuessType(title, desc) == News <==>
            forall c :: c in Precedence ==> !Mentions(Haystack(title, desc), c)
  {
  }

  /** Over a list of distinct keyword categories, a category is chosen exactly
      when it is mentioned and no category before it is. */
  lemma {:induction false} FirstMentionedIsFirst(text: string, cats: seq<Category>, i: nat)
    requires i < |cats| && News !in cats
    requires forall a, b :: 0 <= a < b < |cats| ==> cats[a] != cats[b]
    ensures FirstMentioned(text, cats) == cats[i] <==>
            && Mentions(text, cats[i])
            && forall j :: 0 <= j < i ==> !Mentions(text, cats[j])
    decreases i
  {
    if i > 0 {
      var rest := cats[1..];
      assert rest[i - 1] == cats[i];
      FirstMentionedIsFirst(text, rest, i - 1);
      if !Mentions(text, cats[0]) {
        assert (forall j :: 0 <= j < i ==> !Mentions(text, cats[j])) <==>
               (forall j :: 0 <= j < i - 1 ==> !Mentions(text, rest[j]));
      } else {
        assert cats[0] != cats[i];
      }
    }
  }

  /** A category is returned exactly when one of its keywords occurs and no
      keyword of a higher-precedence group does. */
  lemma GuessTypePrecedence(title: string, desc: string, i: nat)
    requires i < |Precedence|
    ensures GuessType(title, desc) == Precedence[i] <==>
            && Mentions(Haystack(title, desc), Precedence[i])
            && forall j :: 0 <= j < i ==> !Mentions(Haystack(title, desc), Precedence[j])
  {
    FirstMentionedIsFirst(Haystack(title, desc), Precedence, i);
  }

  /** Folding is idempotent, so the classifier ignores the case of its inputs. */
  lemma GuessTypeIgnoresCase(title: string, desc: string)
    ensures GuessType(Lower(title), Lower(desc)) == GuessType(title, desc)
  {
    assert Lower(Lower(title) + " " + Lower(desc)) == Lower(title + " " + desc);
  }
}
