/** Character classes and the description sanitiser `stripHtml` of fetch-feeds.js:
    remove tags, collapse white space, trim, cut to 200 characters. */
module Text {
  import opened Seqs

  /** Maximum length of a sanitised description. */
  const MaxDescription: nat := 200

  /** The characters JavaScript's `\s` class matches; `String.prototype.trim`
      removes the same set. */
  predicate IsSpace(c: char) {
    || c == '\t' || c == '\n' || c == '\U{B}' || c == '\U{C}' || c == '\r' || c == ' '
    || c == '\U{A0}' || c == '\U{1680}' || '\U{2000}' <= c <= '\U{200A}'
    || c == '\U{2028}' || c == '\U{2029}' || c == '\U{202F}' || c == '\U{205F}'
    || c == '\U{3000}' || c == '\U{FEFF}'
  }

  predicate AllSpace(s: string) {
    forall i :: 0 <= i < |s| ==> IsSpace(s[i])
  }

  /** Every white-space character is a plain blank and no two white-space
      characters are adjacent. */
  predicate SingleSpaced(s: string) {
    && (forall i :: 0 <= i < |s| && IsSpace(s[i]) ==> s[i] == ' ')
    && (forall i :: 0 <= i < |s| - 1 ==> !(IsSpace(s[i]) && IsSpace(s[i + 1])))
  }

  /** Neither the first nor the last character is white space. */
  predicate Trimmed(s: string) {
    s == [] || (!IsSpace(s[0]) && !IsSpace(s[|s| - 1]))
  }

  /** ASCII case folding; the source's `toLowerCase` also folds non-ASCII letters. */
  function LowerChar(c: char): char {
    if 'A' <= c <= 'Z' then (c as int + 32) as char else c
  }

  function Lower(s: string): (r: string)
    ensures |r| == |s|
    ensures forall i :: 0 <= i < |s| ==> r[i] == LowerChar(s[i])
  {
    seq(|s|, i requires 0 <= i < |s| => LowerChar(s[i]))
  }

  /** JavaScript's `text.includes(pat)`. */
  predicate Contains(text: string, pat: string) {
    exists i :: 0 <= i <= |text| && pat <= text[i..]
  }

  // ---------------------------------------------------------------- tags

  /** Position of the first `c` in `s`. */
  function FirstIndex(s: string, c: char): (k: nat)
    requires c in s
    ensures k < |s| && s[k] == c
    ensures c !in s[..k]
  {
    if s[0] == c then 0 else 1 + FirstIndex(s[1..], c)
  }

  /** The first `c` is the one with no `c` before it. */
  lemma {:induction false} FirstIndexAt(s: string, c: char, j: nat)
    requires j < |s| && s[j] == c && c !in s[..j]
    ensures FirstIndex(s, c) == j
    decreases j
  {
    if j > 0 {
      assert s[0] == s[..j][0];
      assert s[1..][j - 1] == c && s[1..][..j - 1] == s[..j][1..];
      FirstIndexAt(s[1..], c, j - 1);
    }
  }

  /** A match of the regular expression `<[^>]+>` starts at the front of `s`:
      a `<`, at least one character other than `>`, then a `>`. */
  predicate TagAtFront(s: string) {
    |s| >= 2 && s[0] == '<' && s[1] != '>' && '>' in s[2..]
  }

  /** No match of `<[^>]+>` starts anywhere in `s`. */
  predicate TagFree(s: string) {
    forall i :: 0 <= i < |s| ==> !TagAtFront(s[i..])
  }

  /** `str.replace(/<[^>]+>/g, '')`: scanning left to right, every match is
      deleted and the scan resumes just after it. */
  function RemoveTags(s: string): (r: string)
    ensures |r| <= |s|
    ensures forall c :: c in r ==> c in s
    ensures s != [] && !TagAtFront(s) ==> r != [] && r[0] == s[0]
    ensures '<' !in s ==> r == s
    decreases |s|
  {
    if s == [] then []
    else if TagAtFront(s) then RemoveTags(s[3 + FirstIndex(s[2..], '>')..])
    else [s[0]] + RemoveTags(s[1..])
  }

  /** `<>` is no match, since `[^>]+` needs a character: both characters
      stay and the scan resumes after them. */
  lemma RemoveTagsEmptyTag(v: string)
    ensures RemoveTags("<>" + v) == "<>" + RemoveTags(v)
  {
    var t := ['>'] + v;
    assert t[0] == '>' && t[1..] == v;
    assert RemoveTags(t) == ['>'] + RemoveTags(v);
    var s := ['<'] + t;
    assert s[0] == '<' && s[1] == '>' && s[1..] == t;
    assert RemoveTags(s) == ['<'] + RemoveTags(t);
    assert "<>" + v == s;
    AppendAssoc(['<'], ['>'], RemoveTags(v));
  }

  /** No tag survives `RemoveTags`. */
  lemma {:induction false} RemoveTagsTagFree(s: string)
    ensures TagFree(RemoveTags(s))
    decreases |s|
  {
    if s == [] {
    } else if TagAtFront(s) {
      RemoveTagsTagFree(s[3 + FirstIndex(s[2..], '>')..]);
    } else {
      var rest := RemoveTags(s[1..]);
      RemoveTagsTagFree(s[1..]);
      if s[0] == '<' && |s| >= 2 && s[1] != '>' {
        assert '>' !in s[2..];
        assert s[1..] == [s[1]] + s[2..];
        assert '>' !in rest;
      }
      TagFreeCons(s[0], rest);
    }
  }

  lemma TagFreeCons(c: char, t: string)
    requires TagFree(t) && !TagAtFront([c] + t)
    ensures TagFree([c] + t)
  {
    var s := [c] + t;
    forall i | 0 <= i < |s|
      ensures !TagAtFront(s[i..])
    {
      if i > 0 {
        assert s[i..] == t[i - 1..];
      }
    }
  }

  /** Removing characters from the end of a string cannot create a tag. */
  lemma TagFreeSlice(s: string, i: nat, j: nat)
    requires i <= j <= |s|
    ensures TagFree(s) ==> TagFree(s[i..j])
  {
    if !TagFree(s) { return; }
    var t := s[i..j];
    forall k | 0 <= k < |t|
      ensures !TagAtFront(t[k..])
    {
      assert !TagAtFront(s[i + k..]);
    }
  }

  /** Text before the first `<` is copied unchanged and the scan goes on
      after it. */
  lemma {:induction false} RemoveTagsPlainPrefix(u: string, v: string)
    requires '<' !in u
    ensures RemoveTags(u + v) == u + RemoveTags(v)
    decreases |u|
  {
    if u == [] {
      assert u + v == v;
    } else {
      var s := u + v;
      assert s[0] == u[0] && s[1..] == u[1..] + v;
      RemoveTagsPlainPrefix(u[1..], v);
      AppendAssoc([u[0]], u[1..], RemoveTags(v));
      HeadTail(u);
    }
  }

  /** A tag `<c…>` at the front is deleted up to its first `>`, and nothing
      after it is touched by the deletion. */
  lemma RemoveTagsDropsTag(c: char, m: string, v: string)
    requires c != '>' && '>' !in m
    ensures RemoveTags(['<', c] + m + ['>'] + v) == RemoveTags(v)
  {
    var s := ['<', c] + m + ['>'] + v;
    var t := s[2..];
    assert t == m + ['>'] + v;
    assert t[|m|] == '>';
    assert t[..|m|] == m;
    FirstIndexAt(t, '>', |m|);
    assert s[3 + |m|..] == v;
  }

  /** Text in which no `>` occurs has no tag and is kept whole. */
  lemma {:induction false} RemoveTagsNoClose(s: string)
    requires '>' !in s
    ensures RemoveTags(s) == s
    decreases |s|
  {
    if s != [] {
      assert !TagAtFront(s) by {
        assert |s| >= 2 ==> s[2..] == s[1..][1..];
      }
      assert '>' !in s[1..];
      RemoveTagsNoClose(s[1..]);
      HeadTail(s);
    }
  }

  // ---------------------------------------------------------- white space

  /** Drops the leading white space of `s` (JavaScript's `trimStart`). */
  function SkipSpaces(s: string): (r: string)
    ensures |r| <= |s| && r == s[|s| - |r|..]
    ensures AllSpace(s[..|s| - |r|])
    ensures r == [] || !IsSpace(r[0])
  {
    if s != [] && IsSpace(s[0]) then SkipSpaces(s[1..]) else s
  }

  /** `str.replace(/\s+/g, ' ')`: every maximal run of white space becomes a
      single blank; every other character is kept in place. The blank is
      emitted for the last character of each run. */
  function Collapse(s: string): (r: string)
    ensures |r| <= |s|
    ensures r == [] <==> s == []
    ensures SingleSpaced(r)
    ensures s != [] ==> (IsSpace(r[0]) <==> IsSpace(s[0]))
    ensures s != [] && !IsSpace(s[0]) ==> r[0] == s[0]
    ensures forall c :: c in r && c != ' ' ==> c in s
    decreases |s|
  {
    if s == [] then []
    else if IsSpace(s[0]) && |s| > 1 && IsSpace(s[1]) then Collapse(s[1..])
    else if IsSpace(s[0]) then [' '] + Collapse(s[1..])
    else [s[0]] + Collapse(s[1..])
  }

  /** Collapsing white space cannot create a tag. */
  lemma {:induction false} CollapseTagFree(s: string)
    requires TagFree(s)
    ensures TagFree(Collapse(s))
    decreases |s|
  {
    if s != [] {
      var t := s[1..];
      var rest := Collapse(t);
      TagFreeSlice(s, 1, |s|);
      assert s[1..|s|] == t;
      CollapseTagFree(t);
      if IsSpace(s[0]) && |s| > 1 && IsSpace(s[1]) {
      } else if IsSpace(s[0]) {
        TagFreeCons(' ', rest);
      } else {
        assert !TagAtFront(s[0..]);
        assert s[0..] == s;
        if s[0] == '<' && |s| >= 2 && s[1] != '>' {
          assert '>' !in s[2..];
          assert t == [s[1]] + s[2..];
          assert '>' !in rest;
        }
        TagFreeCons(s[0], rest);
      }
    }
  }

  /** The non-white-space characters of `s`, in order. */
  function NonSpace(s: string): string {
    if s == [] then [] else (if IsSpace(s[0]) then [] else [s[0]]) + NonSpace(s[1..])
  }

  /** Collapsing white space keeps every other character, in order. */
  lemma {:induction false} CollapseKeepsText(s: string)
    ensures NonSpace(Collapse(s)) == NonSpace(s)
    decreases |s|
  {
    if s != [] {
      var t := s[1..];
      CollapseKeepsText(t);
      if IsSpace(s[0]) && |s| > 1 && IsSpace(s[1]) {
      } else if IsSpace(s[0]) {
        assert ([' '] + Collapse(t))[1..] == Collapse(t);
      } else {
        assert ([s[0]] + Collapse(t))[1..] == Collapse(t);
      }
    }
  }

  /** A run of white space followed by the end of the text or by a
      character that is not white space becomes one blank. */
  lemma {:induction false} CollapseRun(w: string, v: string)
    requires w != [] && AllSpace(w)
    requires v == [] || !IsSpace(v[0])
    ensures Collapse(w + v) == " " + Collapse(v)
    decreases |w|
  {
    var s := w + v;
    assert s[0] == w[0] && s[1..] == w[1..] + v;
    if |w| > 1 {
      assert s[1] == w[1];
      CollapseRun(w[1..], v);
    } else {
      assert w[1..] + v == v;
      assert |s| > 1 ==> s[1] == v[0];
    }
  }

  /** Collapsing works piecewise after a character that is not white space. */
  lemma {:induction false} CollapseSplit(u: string, x: string)
    requires u == [] || !IsSpace(u[|u| - 1])
    ensures Collapse(u + x) == Collapse(u) + Collapse(x)
    decreases |u|
  {
    if u == [] {
      assert u + x == x;
    } else {
      var s := u + x;
      var u' := u[1..];
      assert s[0] == u[0] && s[1..] == u' + x;
      if u' == [] {
        assert Collapse(u) == [u[0]] + Collapse([]);
      } else {
        assert s[1] == u[1] && u'[|u'| - 1] == u[|u| - 1];
        CollapseSplit(u', x);
        var c := Collapse(u');
        if IsSpace(u[0]) && IsSpace(u[1]) {
          assert Collapse(s) == Collapse(u' + x) && Collapse(u) == c;
        } else if IsSpace(u[0]) {
          assert Collapse(s) == " " + Collapse(u' + x) && Collapse(u) == " " + c;
          AppendAssoc(" ", c, Collapse(x));
        } else {
          assert Collapse(s) == [u[0]] + Collapse(u' + x) && Collapse(u) == [u[0]] + c;
          AppendAssoc([u[0]], c, Collapse(x));
        }
      }
    }
  }

  /** `/\s+/g` replaces a whole white-space run between two other characters
      by exactly one blank. */
  lemma CollapseRunBetween(u: string, w: string, v: string)
    requires u == [] || !IsSpace(u[|u| - 1])
    requires w != [] && AllSpace(w)
    requires v == [] || !IsSpace(v[0])
    ensures Collapse(u + w + v) == Collapse(u) + " " + Collapse(v)
  {
    AppendAssoc(u, w, v);
    CollapseSplit(u, w + v);
    CollapseRun(w, v);
    AppendAssoc(Collapse(u), " ", Collapse(v));
  }

  /** Dropping a final white-space character keeps `r` a prefix followed
      by white space only. */
  lemma DropLastSpace(s: string, r: string)
    requires s != [] && IsSpace(s[|s| - 1])
    requires |r| <= |s| - 1 && r == s[..|s| - 1][..|r|] && AllSpace(s[..|s| - 1][|r|..])
    ensures r == s[..|r|] && AllSpace(s[|r|..])
  {
    var p := s[..|s| - 1];
    assert p[..|r|] == s[..|r|];
    var tail := s[|r|..];
    forall k | 0 <= k < |tail| ensures IsSpace(tail[k]) {
      if k < |tail| - 1 {
        assert tail[k] == p[|r|..][k];
      }
    }
  }

  /** Drops the trailing white space of `s` (JavaScript's `trimEnd`). */
  function TrimEnd(s: string): (r: string)
    ensures |r| <= |s| && r == s[..|r|]
    ensures AllSpace(s[|r|..])
    ensures r == [] || !IsSpace(r[|r| - 1])
    decreases |s|
  {
    if s != [] && IsSpace(s[|s| - 1]) then
      var r := TrimEnd(s[..|s| - 1]);
      DropLastSpace(s, r);
      r
    else
      assert s[..|s|] == s && s[|s|..] == [];
      s
  }

  /** `r` occurs in `s` at `i` with only white space before and after it. */
  ghost predicate SpacedAround(r: string, s: string, i: nat) {
    && i + |r| <= |s|
    && s[i..i + |r|] == r
    && AllSpace(s[..i])
    && AllSpace(s[i + |r|..])
  }

  /** `r` is `s` with all leading and all trailing white space removed. */
  ghost predicate TrimOf(r: string, s: string) {
    Trimmed(r) && exists i: nat :: SpacedAround(r, s, i)
  }

  lemma TrimmedPrefix(t: string, r: string)
    requires t == [] || !IsSpace(t[0])
    requires |r| <= |t| && r == t[..|r|] && (r == [] || !IsSpace(r[|r| - 1]))
    ensures Trimmed(r)
  {
    if r != [] {
      assert r[0] == t[0];
    }
  }

  /** Trimming the end of the suffix that starts after the leading white
      space trims `s`. */
  lemma TrimOfAt(s: string, i: nat)
    requires i <= |s| && AllSpace(s[..i])
    requires s[i..] == [] || !IsSpace(s[i])
    ensures TrimOf(TrimEnd(s[i..]), s)
  {
    var t := s[i..];
    var r := TrimEnd(t);
    TrimmedPrefix(t, r);
    SuffixSlices(s, i, |r|);
    assert SpacedAround(r, s, i);
  }

  /** JavaScript's `str.trim()`. */
  function Trim(s: string): (r: string)
    ensures |r| <= |s|
    ensures TrimOf(r, s)
  {
    var t := SkipSpaces(s);
    TrimOfAt(s, |s| - |t|);
    TrimEnd(t)
  }

  /** A slice of a single-spaced string is single-spaced. */
  lemma SingleSpacedSlice(s: string, i: nat, j: nat)
    requires i <= j <= |s|
    ensures SingleSpaced(s) ==> SingleSpaced(s[i..j])
  {
    if SingleSpaced(s) {
      var t := s[i..j];
      assert forall k :: 0 <= k < |t| ==> t[k] == s[i + k];
    }
  }

  /** A substring of a single-spaced, tag-free string is single-spaced and tag-free. */
  lemma SliceKeeps(s: string, r: string, i: nat)
    requires i + |r| <= |s| && s[i..i + |r|] == r
    ensures SingleSpaced(s) ==> SingleSpaced(r)
    ensures TagFree(s) ==> TagFree(r)
  {
    SingleSpacedSlice(s, i, i + |r|);
    TagFreeSlice(s, i, i + |r|);
  }

  /** Trimming keeps a string single-spaced and tag-free. */
  lemma TrimKeeps(s: string)
    ensures SingleSpaced(s) ==> SingleSpaced(Trim(s))
    ensures TagFree(s) ==> TagFree(Trim(s))
  {
    var r := Trim(s);
    var i: nat :| SpacedAround(r, s, i);
    SliceKeeps(s, r, i);
  }

  // ------------------------------------------------------------- stripHtml

  /** The text before the final cut: tags removed, white space collapsed, trimmed. */
  function Clean(s: string): (c: string)
    ensures Trimmed(c) && SingleSpaced(c) && TagFree(c)
  {
    var untagged := RemoveTags(s);
    RemoveTagsTagFree(s);
    CollapseTagFree(untagged);
    TrimKeeps(Collapse(untagged));
    Trim(Collapse(untagged))
  }

  /** A prefix of a single-spaced, tag-free string is single-spaced and tag-free. */
  lemma PrefixKeeps(c: string, n: nat)
    requires n <= |c|
    ensures SingleSpaced(c) ==> SingleSpaced(c[..n])
    ensures TagFree(c) ==> TagFree(c[..n])
  {
    TagFreeSlice(c, 0, n);
    assert c[0..n] == c[..n];
  }

  /** `stripHtml(str)`. The cut comes after the trim, so a result of exactly
      200 characters may end in a blank. */
  function StripHtml(s: string): (r: string)
    ensures |r| == Min(MaxDescription, |Clean(s)|)
    ensures r <= Clean(s)
    ensures r == [] || !IsSpace(r[0])
    ensures SingleSpaced(r)
    ensures TagFree(r)
    ensures |Clean(s)| <= MaxDescription ==> r == Clean(s) && Trimmed(r)
  {
    var c := Clean(s);
    var r := Take(c, MaxDescription);
    PrefixKeeps(c, |r|);
    r
  }

  // ------------------------------------------- fixed points and idempotence

  /** A single-spaced string collapses to itself. */
  lemma {:induction false} CollapseSingleSpaced(s: string)
    requires SingleSpaced(s)
    ensures Collapse(s) == s
    decreases |s|
  {
    if s != [] {
      var t := s[1..];
      assert SingleSpaced(t) by {
        SingleSpacedSlice(s, 1, |s|);
        assert s[1..|s|] == t;
      }
      CollapseSingleSpaced(t);
      assert IsSpace(s[0]) ==> s[0] == ' ' && !(|s| > 1 && IsSpace(s[1]));
      assert s == [s[0]] + t;
    }
  }

  /** The fixed points of `Collapse` are exactly the single-spaced strings. */
  lemma CollapseFixedPoint(s: string)
    ensures Collapse(s) == s <==> SingleSpaced(s)
  {
    if SingleSpaced(s) {
      CollapseSingleSpaced(s);
    }
  }

  /** The fixed points of `Trim` are exactly the strings without leading or
      trailing white space. */
  lemma TrimFixedPoint(s: string)
    ensures Trim(s) == s <==> Trimmed(s)
  {
    if Trimmed(s) && s != [] {
      assert SkipSpaces(s) == s;
      assert TrimEnd(s) == s;
    }
  }

  /** Text without tag openers that is already single-spaced and trimmed is
      left unchanged by the cleaning steps. */
  lemma CleanOfPlain(w: string)
    requires '<' !in w && SingleSpaced(w) && Trimmed(w)
    ensures Clean(w) == w
  {
    CollapseSingleSpaced(w);
    TrimFixedPoint(w);
  }

  lemma PlainWitness(w: string)
    requires w == seq(199, _ => 'a') + " b"
    ensures |w| == 201 && w[199] == ' '
    ensures '<' !in w && SingleSpaced(w) && Trimmed(w)
  {
    assert forall i :: 0 <= i < 199 ==> w[i] == 'a';
    assert w[199] == ' ' && w[200] == 'b';
    assert '<' !in w by {
      forall i | 0 <= i < |w| ensures w[i] != '<' {
      }
    }
    assert SingleSpaced(w) by {
      forall i | 0 <= i < |w| && i != 199 ensures !IsSpace(w[i]) {
      }
    }
  }

  /** A cut text ending in a blank loses that blank on a second pass. */
  lemma SecondPassTrims(once: string)
    requires '<' !in once && SingleSpaced(once) && |once| <= MaxDescription
    requires once != [] && once[|once| - 1] == ' '
    ensures StripHtml(once) != once
  {
    CollapseSingleSpaced(once);
    assert Clean(once) == Trim(once);
    assert |Clean(once)| <= MaxDescription;
    assert !Trimmed(once);
  }

  /** `stripHtml` is not idempotent: when the cleaned text is longer than 200
      characters and its 200th character is a blank, the first pass ends in
      that blank and a second pass trims it away. */
  lemma StripHtmlNotIdempotent()
    ensures var w := seq(199, _ => 'a') + " b";
            StripHtml(StripHtml(w)) != StripHtml(w)
  {
    var w := seq(199, _ => 'a') + " b";
    PlainWitness(w);
    CleanOfPlain(w);
    var once := StripHtml(w);
    assert once == w[..200];
    assert once[199] == ' ';
    assert '<' !in once;
    SecondPassTrims(once);
  }
}
