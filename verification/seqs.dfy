/** Small shared vocabulary: an optional value, sequence prefixes, and lemmas on slicing and concatenating sequences. */
module Seqs {

  /** A value that may be absent: an undefined property, a failed feed. */
  datatype Option<+T> = None | Some(value: T)

  function Min(a: int, b: int): int {
    if a <= b then a else b
  }

  /** JavaScript's `s.slice(0, n)` / `s.substring(0, n)` for a non-negative `n`:
      the first `n` elements, or all of them when there are fewer. */
  function Take<T>(s: seq<T>, n: nat): (r: seq<T>)
    ensures |r| == Min(n, |s|)
    ensures r <= s
  {
    if |s| <= n then s else s[..n]
  }

  lemma AppendEmpty<T>(a: seq<T>)
    ensures a + [] == a
  {
  }

  lemma AppendAssoc<T>(a: seq<T>, b: seq<T>, c: seq<T>)
    ensures (a + b) + c == a + (b + c)
  {
  }

  lemma SplitAt<T>(s: seq<T>, i: nat)
    requires i <= |s|
    ensures s[..i] + s[i..] == s
  {
  }

  lemma TakeSnoc<T>(s: seq<T>, i: nat)
    requires i < |s|
    ensures s[..i + 1] == s[..i] + [s[i]]
  {
  }

  lemma TakeAll<T>(s: seq<T>)
    ensures s[..|s|] == s
  {
  }

  lemma HeadTail<T>(s: seq<T>)
    requires s != []
    ensures [s[0]] + s[1..] == s
  {
  }

  lemma Ends<T>(a: seq<T>, b: seq<T>, c: seq<T>)
    ensures a <= a + b + c
    ensures (a + b + c)[|a + b + c| - |c|..] == c
  {
    assert (a + b + c)[..|a|] == a;
  }

  /** Where the parts of `a + u + b + u + c` lie: `u` occurs right after `a`
      and again right after `b`. */
  lemma Twice<T>(a: seq<T>, u: seq<T>, b: seq<T>, c: seq<T>)
    ensures var s := a + u + b + u + c;
            && |s| == |a| + |b| + |c| + 2 * |u|
            && s[..|a|] == a
            && s[|a|..|a| + |u|] == u
            && s[|a| + |u|..|a| + |u| + |b|] == b
            && s[|a| + |u| + |b|..|a| + |u| + |b| + |u|] == u
            && s[|s| - |c|..] == c
  {
    var s := a + u + b + u + c;
    assert s == a + (u + (b + (u + c)));
    assert s[|a|..] == u + (b + (u + c));
    assert s[|a| + |u|..] == b + (u + c);
    assert s[|a| + |u| + |b|..] == u + c;
  }

  /** Where the parts of `a + m + c` lie. */
  lemma Middle<T>(a: seq<T>, m: seq<T>, c: seq<T>)
    ensures var s := a + m + c;
            && s[..|a|] == a
            && s[|a|..|s| - |c|] == m
            && s[|s| - |c|..] == c
  {
    var s := a + m + c;
    assert s == a + (m + c);
    assert s[|a|..] == m + c;
  }

  /** Slicing a suffix is slicing the whole sequence at shifted indices. */
  lemma SuffixSlices<T>(s: seq<T>, i: nat, n: nat)
    requires i + n <= |s|
    ensures s[i..][..n] == s[i..i + n]
    ensures s[i..][n..] == s[i + n..]
  {
  }

  /** Moving the head of `s` over to the end of `p`. */
  lemma ShiftHead<T>(p: seq<T>, s: seq<T>)
    requires s != []
    ensures p + s == p + [s[0]] + s[1..]
  {
    HeadTail(s);
    AppendAssoc(p, [s[0]], s[1..]);
  }
}
