/** Slugs: folded letters, lower case, and dashes. */
module Slugs {
  import opened VietnameseLetters

  // ---------------------------------------------------------------- dashes

  predicate IsSlugChar(c: char) {
    'a' <= c <= 'z' || '0' <= c <= '9'
  }

  function RunLength(s: string, slug: bool): (n: nat)
    ensures n <= |s| && (forall i :: 0 <= i < n ==> IsSlugChar(s[i]) == slug)
    ensures n < |s| ==> IsSlugChar(s[n]) != slug
  {
    if s == "" || IsSlugChar(s[0]) != slug then 0 else 1 + RunLength(s[1..], slug)
  }

  /** `str.replace(/[^a-z0-9]+/g, '-')`. */
  function DashRuns(s: string): string
    decreases |s|
  {
    if s == "" then ""
    else if IsSlugChar(s[0]) then [s[0]] + DashRuns(s[1..])
    else "-" + DashRuns(s[RunLength(s, false)..])
  }

  function TrimLeft(s: string): string {
    if s != "" && s[0] == '-' then TrimLeft(s[1..]) else s
  }

  function TrimRight(s: string): string {
    if s != "" && s[|s| - 1] == '-' then TrimRight(s[..|s| - 1]) else s
  }

  /** `str.replace(/^-+|-+$/g, '')`. */
  function TrimDashes(s: string): string {
    TrimRight(TrimLeft(s))
  }

  /** `toLowerCase`, given what it makes of each character. */
  function LowerAll(s: string, lower: char -> string): string {
    if s == "" then "" else lower(s[0]) + LowerAll(s[1..], lower)
  }

  /** The slug of a text whose letters have been folded. */
  function SlugOfFolded(s: string, lower: char -> string): string {
    TrimDashes(DashRuns(LowerAll(s, lower)))
  }

  function Slugify(str: string, lower: char -> string): string {
    SlugOfFolded(Fold(str, ViMap()), lower)
  }

  method SlugifyInSteps(str: string, lower: char -> string) returns (r: string)
    ensures r == Slugify(str, lower)
  {
    hide ViMap;
    r := ViToAscii(str);
    r := LowerAll(r, lower);
    r := DashRuns(r);
    r := TrimDashes(r);
  }

  // ---------------------------------------------------------------- a slug is the words of the text, joined

  /** The maximal runs of slug characters. */
  function Words(s: string): seq<string>
    decreases |s|
  {
    if s == "" then []
    else if IsSlugChar(s[0]) then [s[..RunLength(s, true)]] + Words(s[RunLength(s, true)..])
    else Words(s[RunLength(s, false)..])
  }

  function Dashed(words: seq<string>): string {
    if words == [] then "" else if |words| == 1 then words[0] else words[0] + "-" + Dashed(words[1..])
  }

  predicate IsWord(w: string) {
    w != "" && forall i :: 0 <= i < |w| ==> IsSlugChar(w[i])
  }

  lemma {:induction false} WordsAreWords(s: string)
    ensures forall k :: 0 <= k < |Words(s)| ==> IsWord(Words(s)[k])
    decreases |s|
  {
    if s == "" {
    } else if IsSlugChar(s[0]) {
      WordsAreWords(s[RunLength(s, true)..]);
    } else {
      WordsAreWords(s[RunLength(s, false)..]);
    }
  }

  lemma {:induction false} DashRunsOfWord(w: string, rest: string)
    requires forall i :: 0 <= i < |w| ==> IsSlugChar(w[i])
    ensures DashRuns(w + rest) == w + DashRuns(rest)
  {
    if w == "" {
      assert w + rest == rest;
    } else {
      assert (w + rest)[1..] == w[1..] + rest;
      DashRunsOfWord(w[1..], rest);
      assert w == [w[0]] + w[1..];
    }
  }

  lemma {:induction false} TrimRightKeeps(a: string, b: string)
    requires TrimRight(b) != ""
    ensures TrimRight(a + b) == a + TrimRight(b)
    decreases |b|
  {
    if b[|b| - 1] != '-' {
    } else {
      assert (a + b)[..|a + b| - 1] == a + b[..|b| - 1];
      TrimRightKeeps(a, b[..|b| - 1]);
    }
  }

  lemma TrimRightOfWord(w: string)
    requires IsWord(w)
    ensures TrimRight(w) == w && TrimRight(w + "-") == w
  {
    assert (w + "-")[..|w|] == w;
  }

  lemma TrimLeftOfWord(w: string, rest: string)
    requires IsWord(w)
    ensures TrimLeft(w + rest) == w + rest
  {
    assert (w + rest)[0] == w[0];
  }

  lemma DashedIsEmptyExactly(words: seq<string>)
    requires forall k :: 0 <= k < |words| ==> IsWord(words[k])
    ensures Dashed(words) == "" <==> words == []
  {
  }

  lemma TrimAfterWord(w: string, tail: string)
    requires IsWord(w) && (tail == "" || TrimRight(tail) != "")
    ensures TrimRight(w + ("-" + tail)) == if tail == "" then w else w + "-" + TrimRight(tail)
  {
    TrimRightOfWord(w);
    if tail == "" {
      assert w + ("-" + tail) == w + "-";
    } else {
      TrimRightKeeps(w + "-", tail);
      assert w + ("-" + tail) == (w + "-") + tail;
    }
  }

  /** From a word on, collapsing and trimming on the right joins the words. */
  lemma {:induction false} DashesJoinWords(s: string)
    requires s == "" || IsSlugChar(s[0])
    ensures TrimRight(DashRuns(s)) == Dashed(Words(s))
    ensures s != "" ==> TrimRight(DashRuns(s)) != ""
    decreases |s|
  {
    if s == "" {
    } else {
      var n := RunLength(s, true);
      var w, rest := s[..n], s[n..];
      assert s == w + rest;
      DashRunsOfWord(w, rest);
      if rest == "" {
        TrimRightOfWord(w);
        assert DashRuns(s) == w && Words(s) == [w];
      } else {
        var next := rest[RunLength(rest, false)..];
        assert DashRuns(s) == w + ("-" + DashRuns(next)) && Words(s) == [w] + Words(next);
        DashesJoinWords(next);
        TrimAfterWord(w, DashRuns(next));
        hide TrimRight, RunLength;
        assert Words(s)[1..] == Words(next);
      }
    }
  }

  /** A slug is the words of the lower-cased text, in order, joined by single dashes. */
  lemma SlugJoinsWords(s: string)
    ensures TrimDashes(DashRuns(s)) == Dashed(Words(s))
  {
    if s == "" {
    } else if IsSlugChar(s[0]) {
      DashRunsOfWord(s[..1], s[1..]);
      assert s == s[..1] + s[1..];
      TrimLeftOfWord(s[..1], DashRuns(s[1..]));
      DashesJoinWords(s);
    } else {
      var next := s[RunLength(s, false)..];
      assert DashRuns(s)[1..] == DashRuns(next);
      StartsClean(next);
      DashesJoinWords(next);
    }
  }

  lemma StartsClean(s: string)
    requires s == "" || IsSlugChar(s[0])
    ensures TrimLeft(DashRuns(s)) == DashRuns(s)
  {
    if s != "" {
      assert DashRuns(s)[0] == s[0];
    }
  }

  // ---------------------------------------------------------------- the shape of slugs

  /** Empty, or groups of `[a-z0-9]+` joined by single dashes. */
  predicate IsSlug(s: string) {
    && (forall i :: 0 <= i < |s| ==> 'a' <= s[i] <= 'z' || '0' <= s[i] <= '9' || s[i] == '-')
    && (s != "" ==> s[0] != '-' && s[|s| - 1] != '-')
    && (forall i :: 0 < i < |s| ==> s[i - 1] != '-' || s[i] != '-')
  }

  lemma {:induction false} DashedIsSlug(words: seq<string>)
    requires forall k :: 0 <= k < |words| ==> IsWord(words[k])
    ensures IsSlug(Dashed(words))
  {
    if words == [] {
    } else if |words| == 1 {
      assert Dashed(words) == words[0];
    } else {
      DashedIsSlug(words[1..]);
      DashedIsEmptyExactly(words[1..]);
      var w, t := words[0], Dashed(words[1..]);
      assert Dashed(words) == w + ("-" + t);
      hide IsSlugChar;
      assert (w + ("-" + t))[|w|] == '-' && (w + ("-" + t))[|w| + 1] == t[0];
    }
  }

  // ---------------------------------------------------------------- what a slug is made from

  /** `t` is the text with its letters folded and then lowered, one character for one. */
  ghost predicate Lowered(s: string, t: string, lower: char -> string) {
    |t| == |s| && forall i :: 0 <= i < |s| ==> lower(FoldChar(s[i], ViMap())) == [t[i]]
  }

  lemma {:induction false} LowerAllAt(s: string, t: string, lower: char -> string)
    requires |t| == |s| && forall i :: 0 <= i < |s| ==> lower(s[i]) == [t[i]]
    ensures LowerAll(s, lower) == t
  {
    if s == "" {
    } else {
      LowerAllAt(s[1..], t[1..], lower);
      assert t == [t[0]] + t[1..];
    }
  }

  /** The slug of a text is its maximal alphanumeric words, folded and in lower case, in order and
      joined by single dashes. */
  lemma SlugifyJoinsWords(s: string, t: string, lower: char -> string)
    requires Lowered(s, t, lower)
    ensures Slugify(s, lower) == Dashed(Words(t))
  {
    LowerAllAt(Fold(s, ViMap()), t, lower);
    SlugJoinsWords(t);
    hide ViMap, LowerAll, DashRuns, TrimDashes, Words, Dashed;
  }

  lemma {:induction false} LowerAllAgrees(s: string, t: string, lower: char -> string)
    requires |s| == |t| && forall i :: 0 <= i < |s| ==> lower(s[i]) == lower(t[i])
    ensures LowerAll(s, lower) == LowerAll(t, lower)
  {
    if s == "" {
    } else {
      LowerAllAgrees(s[1..], t[1..], lower);
    }
  }

  /** Case does not matter: texts whose folded characters have the same lower case have the same
      slug, whatever `lower` makes of a character. */
  lemma CaseDoesNotMatter(s: string, t: string, lower: char -> string)
    requires |s| == |t| && forall i :: 0 <= i < |s| ==> lower(FoldChar(s[i], ViMap())) == lower(FoldChar(t[i], ViMap()))
    ensures Slugify(s, lower) == Slugify(t, lower)
  {
    LowerAllAgrees(Fold(s, ViMap()), Fold(t, ViMap()), lower);
    hide ViMap, LowerAll, DashRuns, TrimDashes;
  }

  // ---------------------------------------------------------------- slugs are fixed points

  /** What `toLowerCase` does to the characters of slugs. */
  ghost predicate KeepsSlugs(lower: char -> string) {
    forall c :: IsSlugChar(c) || c == '-' ==> lower(c) == [c]
  }

  lemma {:induction false} LowerKeepsSlug(s: string, lower: char -> string)
    requires KeepsSlugs(lower) && forall i :: 0 <= i < |s| ==> IsSlugChar(s[i]) || s[i] == '-'
    ensures LowerAll(s, lower) == s
  {
    if s == "" {
    } else {
      LowerKeepsSlug(s[1..], lower);
      assert s == [s[0]] + s[1..];
    }
  }

  lemma FoldKeepsSlug(s: string)
    requires forall i :: 0 <= i < |s| ==> IsSlugChar(s[i]) || s[i] == '-'
    ensures Fold(s, ViMap()) == s
  {
    hide ViMap, FoldChar;
    forall i | 0 <= i < |s| ensures FoldChar(s[i], ViMap()) == s[i] { UnaccentedIsKept(s[i]); }
  }

  lemma {:induction false} DashRunsKeepsSlug(s: string)
    requires forall i :: 0 <= i < |s| ==> IsSlugChar(s[i]) || s[i] == '-'
    requires forall i :: 0 < i < |s| ==> s[i - 1] != '-' || s[i] != '-'
    ensures DashRuns(s) == s
    decreases |s|
  {
    if s == "" {
    } else {
      DashRunsKeepsSlug(s[1..]);
      hide IsSlugChar;
      assert s == [s[0]] + s[1..];
      if !IsSlugChar(s[0]) {
        assert |s| > 1 ==> IsSlugChar(s[1]);
        assert RunLength(s[1..], false) == 0;
      }
    }
  }

  lemma TrimKeepsSlug(s: string)
    requires s == "" || (s[0] != '-' && s[|s| - 1] != '-')
    ensures TrimDashes(s) == s
  {
  }

  /** A text is its own slug if and only if it has the shape of one. */
  lemma FixedExactlySlugs(s: string, lower: char -> string)
    requires KeepsSlugs(lower)
    ensures Slugify(s, lower) == s <==> IsSlug(s)
    ensures IsSlug(Slugify(s, lower))
  {
    hide ViMap, Words, Dashed, DashRuns, TrimDashes, LowerAll, Fold;
    var text := LowerAll(Fold(s, ViMap()), lower);
    SlugJoinsWords(text);
    WordsAreWords(text);
    DashedIsSlug(Words(text));
    if IsSlug(s) {
      FoldKeepsSlug(s);
      LowerKeepsSlug(s, lower);
      DashRunsKeepsSlug(s);
      TrimKeepsSlug(s);
    }
  }

  /** `slugify` is idempotent. */
  lemma SlugifyIdempotent(s: string, lower: char -> string)
    requires KeepsSlugs(lower)
    ensures Slugify(Slugify(s, lower), lower) == Slugify(s, lower)
  {
    FixedExactlySlugs(s, lower);
    FixedExactlySlugs(Slugify(s, lower), lower);
  }
}
