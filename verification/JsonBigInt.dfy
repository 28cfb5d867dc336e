/** The scanner of `parseJsonSafe`: quotes every bare integer of a JSON text that a
    double-precision number cannot hold, and leaves everything else alone. */
module JsonBigInt {
  import opened Text

  /** 2^53 - 1, the largest integer of `Number.MAX_SAFE_INTEGER`. */
  const MAX_SAFE: nat := 9007199254740991

  function Pow2(n: nat): nat {
    if n == 0 then 1 else 2 * Pow2(n - 1)
  }

  lemma MaxSafeIsPow2()
    ensures MAX_SAFE + 1 == Pow2(53)
  {
    assert Pow2(10) == 1024;
    assert Pow2(20) == 1048576;
    assert Pow2(30) == 1073741824;
    assert Pow2(40) == 1099511627776;
    assert Pow2(50) == 1125899906842624;
  }

  // ---------------------------------------------------------------- characters

  predicate StartsNumber(c: char) {
    c == '-' || IsDigit(c)
  }

  /** The characters after which the scanner takes a digit run for the head of a float. */
  predicate IsFloatMark(c: char) {
    c == '.' || c == 'e' || c == 'E'
  }

  predicate FloatFollows(s: string) {
    s != "" && IsFloatMark(s[0])
  }

  // ---------------------------------------------------------------- short digit runs

  function Pow10(n: nat): nat {
    if n == 0 then 1 else 10 * Pow10(n - 1)
  }

  lemma {:induction false} ValueBelowPow10(s: string)
    requires AllDigits(s)
    ensures Value(s) < Pow10(|s|)
  {
    if s == "" {
    } else {
      ValueBelowPow10(s[..|s| - 1]);
    }
  }

  lemma {:induction false} Pow10Monotone(m: nat, n: nat)
    requires m <= n
    ensures Pow10(m) <= Pow10(n)
    decreases n
  {
    if m == n {
    } else {
      Pow10Monotone(m, n - 1);
    }
  }

  /** The `length > 15` test only saves work: no shorter run can be out of range. */
  lemma ShortRunsAreSafe(s: string)
    requires AllDigits(s) && |s| <= 15
    ensures Value(s) <= MAX_SAFE
  {
    ValueBelowPow10(s);
    Pow10Monotone(|s|, 15);
    assert Pow10(5) == 100000;
    assert Pow10(10) == 10000000000;
    assert Pow10(15) == 1000000000000000;
  }

  lemma {:induction false} ValueAtLeastPow10(s: string)
    requires s != "" && AllDigits(s) && s[0] != '0'
    ensures Value(s) >= Pow10(|s| - 1)
  {
    if |s| == 1 {
    } else {
      ValueAtLeastPow10(s[..|s| - 1]);
    }
  }

  /** And every longer run from 17 digits on is, unless it starts with a zero. */
  lemma LongRunsAreUnsafe(s: string)
    requires AllDigits(s) && |s| >= 17 && s[0] != '0'
    ensures Value(s) > MAX_SAFE
  {
    ValueAtLeastPow10(s);
    Pow10Monotone(16, |s| - 1);
    assert Pow10(5) == 100000;
    assert Pow10(10) == 10000000000;
    assert Pow10(16) == 10000000000000000;
  }

  // ---------------------------------------------------------------- specification

  /** A maximal unit of the scan: text copied as it is, or an integer put between quotes. */
  datatype Piece = Kept(text: string) | Quoted(text: string)

  function DigitRun(s: string): (n: nat)
    ensures n <= |s| && AllDigits(s[..n])
    ensures n < |s| ==> !IsDigit(s[n])
  {
    if s != "" && IsDigit(s[0]) then
      var n := DigitRun(s[1..]);
      assert s[..n + 1] == [s[0]] + s[1..][..n];
      n + 1
    else 0
  }

  /** How much of `s`, which starts after an opening quote, belongs to the string literal:
      up to and including the closing quote, or everything when there is none. */
  function BodyLength(s: string): (n: nat)
    ensures n <= |s|
  {
    if s == "" then 0
    else if s[0] == '\\' then if |s| == 1 then 1 else 2 + BodyLength(s[2..])
    else if s[0] == '"' then 1
    else 1 + BodyLength(s[1..])
  }

  function SignLength(s: string): (n: nat)
    ensures n <= |s|
  {
    if s != "" && s[0] == '-' then 1 else 0
  }

  function NumberLength(s: string): (n: nat)
    requires s != "" && StartsNumber(s[0])
    ensures 1 <= n <= |s| && SignLength(s) <= n
    ensures AllDigits(s[SignLength(s)..n])
    ensures n < |s| ==> !IsDigit(s[n])
  {
    var sign := SignLength(s);
    var run := DigitRun(s[sign..]);
    assert s[sign..sign + run] == s[sign..][..run];
    sign + run
  }

  /** The first piece of a non-empty text. */
  function Head(s: string): (p: Piece)
    requires s != ""
    ensures 1 <= |p.text| <= |s| && p.text == s[..|p.text|]
  {
    if s[0] == '"' then
      Kept(s[..1 + BodyLength(s[1..])])
    else if StartsNumber(s[0]) then
      var n := NumberLength(s);
      if !FloatFollows(s[n..]) && Value(s[SignLength(s)..n]) > MAX_SAFE then Quoted(s[..n]) else Kept(s[..n])
    else
      Kept(s[..1])
  }

  function Pieces(s: string): seq<Piece>
    decreases |s|
  {
    if s == "" then [] else [Head(s)] + Pieces(s[|Head(s).text|..])
  }

  function Shown(p: Piece): string {
    match p
    case Kept(text) => text
    case Quoted(text) => "\"" + text + "\""
  }

  function Render(ps: seq<Piece>): string {
    if ps == [] then "" else Shown(ps[0]) + Render(ps[1..])
  }

  function Source(ps: seq<Piece>): string {
    if ps == [] then "" else ps[0].text + Source(ps[1..])
  }

  function Rewrite(s: string): string {
    Render(Pieces(s))
  }

  /** One step of the specification, in the form every proof below uses. */
  lemma RewriteStep(s: string)
    requires s != ""
    ensures Rewrite(s) == Shown(Head(s)) + Rewrite(s[|Head(s).text|..])
  {
    var rest := s[|Head(s).text|..];
    assert Pieces(s)[1..] == Pieces(rest);
  }

  // ---------------------------------------------------------------- the scanner

  function Join(out: seq<string>): string {
    if out == [] then "" else Join(out[..|out| - 1]) + out[|out| - 1]
  }

  lemma JoinPush(out: seq<string>, t: string)
    ensures Join(out + [t]) == Join(out) + t
  {
    assert (out + [t])[..|out|] == out;
  }

  lemma Assoc(a: string, b: string, c: string)
    ensures (a + b) + c == a + (b + c)
  {
  }

  /** `raw[i]` pushed onto an array of strings: past the end it is `undefined`, which joins as "". */
  function At(raw: string, i: nat): string {
    if i < |raw| then [raw[i]] else ""
  }

  ghost function Clip(raw: string, i: nat): nat {
    if i <= |raw| then i else |raw|
  }

  /** What is left to scan at index `i`; the scanner's index can end one past the end. */
  ghost function Rest(raw: string, i: nat): string {
    raw[Clip(raw, i)..]
  }

  /** The output `done` so far, followed by the rewriting of what is left at `i`, is the goal. */
  ghost predicate OnTrack(raw: string, i: nat, done: string) {
    done + Rewrite(Rest(raw, i)) == Rewrite(raw)
  }

  lemma Advance(raw: string, i: nat, j: nat, done: string)
    requires i < |raw| && OnTrack(raw, i, done)
    requires Clip(raw, j) == i + |Head(raw[i..]).text|
    ensures OnTrack(raw, j, done + Shown(Head(raw[i..])))
  {
    var s := raw[i..];
    RewriteStep(s);
    assert Rest(raw, j) == s[|Head(s).text|..];
    Assoc(done, Shown(Head(s)), Rewrite(s[|Head(s).text|..]));
  }

  /** `out` is `before` followed by the text from `open` up to `i`. */
  ghost predicate Copied(out: seq<string>, before: string, raw: string, open: nat, i: nat)
    requires open <= |raw| && open <= i
  {
    Join(out) == before + raw[open..Clip(raw, i)]
  }

  lemma CopyOne(out: seq<string>, before: string, raw: string, open: nat, i: nat)
    requires open <= |raw| && open <= i && Copied(out, before, raw, open, i)
    ensures Copied(out + [At(raw, i)], before, raw, open, i + 1)
  {
    JoinPush(out, At(raw, i));
    assert raw[open..Clip(raw, i)] + At(raw, i) == raw[open..Clip(raw, i + 1)];
    Assoc(before, raw[open..Clip(raw, i)], At(raw, i));
  }

  /** A string literal from `open` ends where its body does. */
  lemma StringPiece(raw: string, open: nat, j: nat)
    requires open < |raw| && raw[open] == '"' && open < j
    requires 1 + BodyLength(Rest(raw, open + 1)) == Clip(raw, j) - open
    ensures Head(raw[open..]) == Kept(raw[open..Clip(raw, j)])
  {
    var s := raw[open..];
    assert s[1..] == Rest(raw, open + 1);
    assert s[..Clip(raw, j) - open] == raw[open..Clip(raw, j)];
  }

  /** A number token from `start` ends where its digit run does. */
  lemma NumberPiece(raw: string, start: nat, digits: nat, j: nat)
    requires start < |raw| && StartsNumber(raw[start])
    requires digits == if raw[start] == '-' then start + 1 else start
    requires j == digits + DigitRun(Rest(raw, digits))
    ensures digits <= j <= |raw| && start < j && AllDigits(raw[digits..j])
    ensures Head(raw[start..]) ==
            if !FloatFollows(Rest(raw, j)) && Value(raw[digits..j]) > MAX_SAFE
            then Quoted(raw[start..j]) else Kept(raw[start..j])
  {
    var s := raw[start..];
    assert s[SignLength(s)..] == Rest(raw, digits);
    var rest := raw[digits..];
    assert rest == Rest(raw, digits) && rest[..j - digits] == raw[digits..j];
    assert s[SignLength(s)..j - start] == raw[digits..j];
    assert s[..j - start] == raw[start..j] && s[j - start..] == Rest(raw, j);
  }

  lemma BodyStep(raw: string, i: nat)
    requires i < |raw|
    ensures BodyLength(Rest(raw, i)) ==
            if raw[i] == '\\' then Clip(raw, i + 2) - i + BodyLength(Rest(raw, i + 2))
            else if raw[i] == '"' then 1
            else 1 + BodyLength(Rest(raw, i + 1))
  {
    var s := Rest(raw, i);
    assert s[1..] == Rest(raw, i + 1);
    assert i + 1 < |raw| ==> s[2..] == Rest(raw, i + 2);
  }

  /** The string branch: copies the literal that opens at `open`, escapes included, up to its
      closing quote or the end of the text. */
  method CopyString(raw: string, open: nat, out0: seq<string>) returns (out: seq<string>, i: nat)
    requires open < |raw| && raw[open] == '"'
    ensures open < i <= |raw| + 1
    ensures Head(raw[open..]) == Kept(raw[open..Clip(raw, i)])
    ensures Join(out) == Join(out0) + raw[open..Clip(raw, i)]
  {
    hide Join, Head, BodyLength;
    ghost var before := Join(out0);
    CopyOne(out0, before, raw, open, open);
    out, i := out0 + [At(raw, open)], open + 1;
    ghost var length := 1 + BodyLength(Rest(raw, i));
    ghost var left := BodyLength(Rest(raw, i));
    while i < |raw|
      invariant open < i <= |raw| + 1
      invariant Copied(out, before, raw, open, i)
      invariant left == BodyLength(Rest(raw, i)) && length == Clip(raw, i) - open + left
      decreases |raw| + 1 - i
    {
      BodyStep(raw, i);
      CopyOne(out, before, raw, open, i);
      if raw[i] == '\\' {
        CopyOne(out + [At(raw, i)], before, raw, open, i + 1);
        out := out + [At(raw, i)] + [At(raw, i + 1)];
        i := i + 2;
      } else if raw[i] == '"' {
        out := out + [At(raw, i)];
        i := i + 1;
        left := 0;
        break;
      } else {
        out := out + [At(raw, i)];
        i := i + 1;
      }
      left := BodyLength(Rest(raw, i));
    }
    StringPiece(raw, open, i);
  }

  lemma DigitStep(raw: string, i: nat)
    requires i <= |raw|
    ensures DigitRun(Rest(raw, i)) == if i < |raw| && IsDigit(raw[i]) then 1 + DigitRun(Rest(raw, i + 1)) else 0
  {
    assert i < |raw| ==> Rest(raw, i)[1..] == Rest(raw, i + 1);
  }

  /** The digit loop of the number branch. */
  method ScanDigits(raw: string, from: nat) returns (i: nat)
    requires from <= |raw|
    ensures i == from + DigitRun(Rest(raw, from)) && i <= |raw|
  {
    hide DigitRun, Rest;
    i := from;
    ghost var end := from + DigitRun(Rest(raw, from));
    while i < |raw| && IsDigit(raw[i])
      invariant from <= i <= |raw| && end == i + DigitRun(Rest(raw, i))
    {
      DigitStep(raw, i);
      i := i + 1;
    }
    DigitStep(raw, i);
  }

  /** The number branch: one integer token, quoted when it is bare and out of range. */
  method CopyNumber(raw: string, start: nat, out0: seq<string>) returns (out: seq<string>, i: nat)
    requires start < |raw| && StartsNumber(raw[start])
    ensures start < i <= |raw|
    ensures i == start + |Head(raw[start..]).text|
    ensures Join(out) == Join(out0) + Shown(Head(raw[start..]))
  {
    hide Join, Head, Value, DigitRun;
    i := start;
    if raw[i] == '-' { i := i + 1; }
    ghost var digits := i;
    i := ScanDigits(raw, i);
    NumberPiece(raw, start, digits, i);
    var isFloat := i < |raw| && IsFloatMark(raw[i]);
    var token := raw[start..i];
    if !isFloat {
      var abs := if token[0] == '-' then token[1..] else token;
      assert abs == raw[digits..i];
      if |abs| <= 15 { ShortRunsAreSafe(abs); }
      if |abs| > 15 && Value(abs) > MAX_SAFE {
        JoinPush(out0, "\"" + token + "\"");
        out := out0 + ["\"" + token + "\""];
        return;
      }
    }
    JoinPush(out0, token);
    out := out0 + [token];
  }

  /** The whole scan up to `JSON.parse`, with the index, loops and 15-digit shortcut;
      its two inner loops are the methods above. */
  method ParseJsonSafe(raw: string) returns (text: string)
    ensures text == Rewrite(raw)
  {
    var out: seq<string> := [];
    var i: nat := 0;
    while i < |raw|
      invariant i <= |raw| + 1
      invariant OnTrack(raw, i, Join(out))
      decreases |raw| + 1 - i
    {
      ghost var start, done := i, Join(out);
      var ch := raw[i];
      if ch == '"' {
        out, i := CopyString(raw, i, out);
      } else if StartsNumber(ch) {
        out, i := CopyNumber(raw, i, out);
      } else {
        JoinPush(out, [raw[i]]);
        assert raw[i..][..1] == [raw[i]];
        out := out + [[raw[i]]];
        i := i + 1;
      }
      Advance(raw, start, i, done);
    }
    text := Join(out);
  }
}
