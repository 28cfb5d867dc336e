/** The string operations of JavaScript that the models share. */
module Text {

  /** White space as `trim` and `\s` see it. */
  predicate IsSpace(c: char) {
    || c in {' ', '\t', '\n', '\r', '\U{0B}', '\U{0C}', '\U{A0}', '\U{1680}', '\U{2028}', '\U{2029}', '\U{202F}', '\U{205F}', '\U{3000}', '\U{FEFF}'}
    || '\U{2000}' <= c <= '\U{200A}'
  }

  predicate IsDigit(c: char) {
    '0' <= c <= '9'
  }

  predicate AllSpace(s: string) {
    forall i :: 0 <= i < |s| ==> IsSpace(s[i])
  }

  predicate AllDigits(s: string) {
    forall i :: 0 <= i < |s| ==> IsDigit(s[i])
  }

  /** The number a digit run denotes. */
  function Value(s: string): nat
    requires AllDigits(s)
  {
    if s == "" then 0 else 10 * Value(s[..|s| - 1]) + (s[|s| - 1] as nat - '0' as nat)
  }

  /** No white space at either end. */
  predicate Tight(s: string) {
    s == "" || (!IsSpace(s[0]) && !IsSpace(s[|s| - 1]))
  }

  function TrimStart(s: string): string {
    if s != "" && IsSpace(s[0]) then TrimStart(s[1..]) else s
  }

  function TrimEnd(s: string): string {
    if s != "" && IsSpace(s[|s| - 1]) then TrimEnd(s[..|s| - 1]) else s
  }

  function Trim(s: string): string {
    TrimEnd(TrimStart(s))
  }

  lemma {:induction false} TrimStartPadded(a: string, s: string)
    requires AllSpace(a) && (s == "" || !IsSpace(s[0]))
    ensures TrimStart(a + s) == s
  {
    if a == "" {
      assert a + s == s;
    } else {
      assert (a + s)[1..] == a[1..] + s;
      TrimStartPadded(a[1..], s);
    }
  }

  lemma {:induction false} TrimEndPadded(s: string, b: string)
    requires AllSpace(b) && (s == "" || !IsSpace(s[|s| - 1]))
    ensures TrimEnd(s + b) == s
  {
    if b == "" {
      assert s + b == s;
    } else {
      assert (s + b)[..|s + b| - 1] == s + b[..|b| - 1];
      TrimEndPadded(s, b[..|b| - 1]);
    }
  }

  /** Trimming removes exactly the padding of a tight text. */
  lemma TrimPadded(a: string, s: string, b: string)
    requires AllSpace(a) && AllSpace(b) && Tight(s)
    ensures Trim(a + s + b) == s
  {
    if s == "" {
      assert a + s + b == (a + b) + "";
      TrimStartPadded(a + b, "");
    } else {
      assert a + s + b == a + (s + b);
      TrimStartPadded(a, s + b);
      TrimEndPadded(s, b);
    }
  }

  /** White space in front of a text does not change what trimming leaves. */
  lemma {:induction false} TrimLead(lead: string, s: string)
    requires AllSpace(lead)
    ensures Trim(lead + s) == Trim(s)
  {
    if lead == "" {
      assert lead + s == s;
    } else {
      assert (lead + s)[1..] == lead[1..] + s;
      TrimLead(lead[1..], s);
    }
  }

  /** White space around a text does not change what trimming leaves. */
  lemma TrimWithin(a: string, s: string, b: string)
    requires AllSpace(a) && AllSpace(b)
    ensures Trim(a + s + b) == Trim(s)
  {
    TrimShape(s);
    var x, y :| AllSpace(x) && AllSpace(y) && s == x + Trim(s) + y;
    assert a + s + b == (a + x) + Trim(s) + (y + b);
    TrimPadded(a + x, Trim(s), y + b);
  }

  lemma TrimTight(s: string)
    requires Tight(s)
    ensures Trim(s) == s
  {
    assert "" + s + "" == s;
    TrimPadded("", s, "");
  }

  lemma {:induction false} TrimStartShape(s: string)
    ensures TrimStart(s) == "" || !IsSpace(TrimStart(s)[0])
    ensures exists a :: AllSpace(a) && s == a + TrimStart(s)
  {
    if s != "" && IsSpace(s[0]) {
      TrimStartShape(s[1..]);
      var a :| AllSpace(a) && s[1..] == a + TrimStart(s[1..]);
      assert s == ([s[0]] + a) + TrimStart(s) && AllSpace([s[0]] + a);
    } else {
      assert s == "" + s && AllSpace("");
    }
  }

  lemma {:induction false} TrimEndShape(s: string)
    ensures TrimEnd(s) == "" || !IsSpace(TrimEnd(s)[|TrimEnd(s)| - 1])
    ensures exists b :: AllSpace(b) && s == TrimEnd(s) + b
  {
    if s != "" && IsSpace(s[|s| - 1]) {
      var t := s[..|s| - 1];
      TrimEndShape(t);
      var b :| AllSpace(b) && t == TrimEnd(t) + b;
      assert s == TrimEnd(s) + (b + [s[|s| - 1]]) && AllSpace(b + [s[|s| - 1]]);
    } else {
      assert s == s + "" && AllSpace("");
    }
  }

  /** A trimmed text is tight and differs from the text only by white space around it. */
  lemma TrimShape(s: string)
    ensures Tight(Trim(s))
    ensures exists a, b :: AllSpace(a) && AllSpace(b) && s == a + Trim(s) + b
  {
    var t := TrimStart(s);
    TrimStartShape(s);
    TrimEndShape(t);
    var a :| AllSpace(a) && s == a + t;
    var b :| AllSpace(b) && t == Trim(s) + b;
    assert s == a + Trim(s) + b;
    if Trim(s) != "" { assert Trim(s)[0] == t[0]; }
  }

  /** The white space of ECMAScript, by code point. */
  lemma IsSpaceExact(c: char)
    ensures IsSpace(c) <==>
              || 9 <= c as int <= 13
              || c as int in {32, 160, 5760, 8232, 8233, 8239, 8287, 12288, 65279}
              || 8192 <= c as int <= 8202
  {
  }

  /** `text` is `word` with white space around it. */
  predicate Padded(text: string, a: string, word: string, b: string) {
    AllSpace(a) && AllSpace(b) && text == a + word + b
  }

  /** What trimming leaves is the text without its padding, and nothing else is. */
  lemma TrimExact(text: string, word: string)
    ensures Trim(text) == word <==> Tight(word) && exists a, b :: Padded(text, a, word, b)
  {
    TrimShape(text);
    if a, b :| Tight(word) && Padded(text, a, word, b) {
      TrimPadded(a, word, b);
    }
    if Trim(text) == word {
      var a, b :| AllSpace(a) && AllSpace(b) && text == a + Trim(text) + b;
      assert Padded(text, a, word, b);
    }
  }

  function UpperChar(c: char): char {
    if 'a' <= c <= 'z' then 'A' + (c - 'a') else c
  }

  function LowerChar(c: char): char {
    if 'A' <= c <= 'Z' then 'a' + (c - 'A') else c
  }

  /** `toUpperCase` on ASCII letters. */
  function Upper(s: string): (u: string)
    ensures |u| == |s| && forall i :: 0 <= i < |s| ==> u[i] == UpperChar(s[i])
  {
    if s == "" then "" else [UpperChar(s[0])] + Upper(s[1..])
  }

  /** `toLowerCase` on ASCII letters. */
  function Lower(s: string): (l: string)
    ensures |l| == |s| && forall i :: 0 <= i < |s| ==> l[i] == LowerChar(s[i])
  {
    if s == "" then "" else [LowerChar(s[0])] + Lower(s[1..])
  }

  const SMALL := "abcdefghijklmnopqrstuvwxyz"
  const CAPITAL := "ABCDEFGHIJKLMNOPQRSTUVWXYZ"

  lemma LettersInOrder(k: nat)
    requires k < 26
    ensures |SMALL| == |CAPITAL| == 26
    ensures SMALL[k] as int == 'a' as int + k && CAPITAL[k] as int == 'A' as int + k
  {
  }

  /** The two cases of the alphabet correspond letter by letter, and no other character changes. */
  lemma CaseExact(k: nat, c: char)
    requires k < 26
    ensures |SMALL| == |CAPITAL| == 26
    ensures UpperChar(SMALL[k]) == CAPITAL[k] == UpperChar(CAPITAL[k])
    ensures LowerChar(CAPITAL[k]) == SMALL[k] == LowerChar(SMALL[k])
    ensures c !in SMALL ==> UpperChar(c) == c
    ensures c !in CAPITAL ==> LowerChar(c) == c
  {
    LettersInOrder(k);
    if 'a' <= c <= 'z' { LettersInOrder(c as int - 'a' as int); }
    if 'A' <= c <= 'Z' { LettersInOrder(c as int - 'A' as int); }
  }
}
