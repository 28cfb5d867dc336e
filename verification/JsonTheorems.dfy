/** What the rewriting of `JsonBigInt` keeps, for every input text and for every JSON value. */
module JsonTheorems {
  import opened Wrappers
  import opened JsonBigInt
  import opened Text

  // ---------------------------------------------------------------- every text, valid JSON or not

  function QuotedCount(ps: seq<Piece>): nat {
    if ps == [] then 0 else (if ps[0].Quoted? then 1 else 0) + QuotedCount(ps[1..])
  }

  lemma PiecesStep(s: string)
    requires s != ""
    ensures Pieces(s) != [] && Pieces(s)[0] == Head(s) && Pieces(s)[1..] == Pieces(s[|Head(s).text|..])
  {
    hide Head;
  }

  /** Conservation: the pieces are the input cut up, and the output is the same pieces with two
      quotes around each integer that was quoted; nothing is lost, reordered or added otherwise. */
  lemma {:induction false} Conservation(s: string)
    ensures Source(Pieces(s)) == s && Render(Pieces(s)) == Rewrite(s)
    ensures |Rewrite(s)| == |s| + 2 * QuotedCount(Pieces(s))
    decreases |s|
  {
    hide Head, Pieces;
    if s == "" {
      assert Pieces(s) == [] by { NoPieces(); }
    } else {
      PiecesStep(s);
      Conservation(s[|Head(s).text|..]);
      assert s == Head(s).text + s[|Head(s).text|..];
    }
  }

  lemma NoPieces()
    ensures Pieces("") == []
  {
  }

  // ---------------------------------------------------------------- stepping over known text

  predicate Other(c: char) {
    c != '"' && !StartsNumber(c)
  }

  lemma {:induction false} StepOver(t: string, rest: string)
    requires forall i :: 0 <= i < |t| ==> Other(t[i])
    ensures Rewrite(t + rest) == t + Rewrite(rest)
  {
    if t == "" {
      assert t + rest == rest;
    } else {
      var s := t + rest;
      RewriteStep(s);
      assert s[1..] == t[1..] + rest && s[..1] == t[..1];
      StepOver(t[1..], rest);
      assert t == t[..1] + t[1..];
      Assoc(t[..1], t[1..], Rewrite(rest));
    }
  }

  /** The text after an opening quote closes its literal within its own length. */
  predicate Closed(body: string)
    decreases |body|
  {
    if body == "" then false
    else if body[0] == '\\' then |body| > 1 && Closed(body[2..])
    else if body[0] == '"' then |body| == 1
    else Closed(body[1..])
  }

  lemma {:induction false} ClosedLength(body: string, rest: string)
    requires Closed(body)
    ensures BodyLength(body + rest) == |body|
    decreases |body|
  {
    var s := body + rest;
    if body[0] == '"' {
      assert s[0] == '"';
    } else if body[0] == '\\' {
      assert s[2..] == body[2..] + rest;
      ClosedLength(body[2..], rest);
    } else {
      assert s[1..] == body[1..] + rest;
      ClosedLength(body[1..], rest);
    }
  }

  lemma StepString(body: string, rest: string)
    requires Closed(body)
    ensures Rewrite("\"" + body + rest) == "\"" + body + Rewrite(rest)
  {
    hide Rewrite;
    hide Closed;
    var s := "\"" + body + rest;
    assert s[1..] == body + rest;
    ClosedLength(body, rest);
    RewriteStep(s);
    assert s[..1 + |body|] == "\"" + body;
    assert s[1 + |body|..] == rest;
  }

  lemma {:induction false} DigitRunAt(digits: string, rest: string)
    requires AllDigits(digits) && (rest == "" || !IsDigit(rest[0]))
    ensures DigitRun(digits + rest) == |digits|
  {
    if digits == "" {
      assert digits + rest == rest;
    } else {
      assert (digits + rest)[1..] == digits[1..] + rest;
      DigitRunAt(digits[1..], rest);
    }
  }

  predicate IsSign(sign: string) {
    sign == "" || sign == "-"
  }

  predicate TooBig(digits: string)
    requires AllDigits(digits)
  {
    Value(digits) > MAX_SAFE
  }

  /** An integer token as the scanner leaves it when `rest` follows. */
  function Token(sign: string, digits: string, rest: string): string
    requires AllDigits(digits)
  {
    if !FloatFollows(rest) && TooBig(digits) then "\"" + (sign + digits) + "\"" else sign + digits
  }

  lemma NumberHead(sign: string, digits: string, rest: string)
    requires IsSign(sign) && AllDigits(digits) && sign + digits != ""
    requires rest == "" || !IsDigit(rest[0])
    ensures Head(sign + digits + rest).text == sign + digits
    ensures Shown(Head(sign + digits + rest)) == Token(sign, digits, rest)
  {
    var s, n := sign + digits + rest, |sign| + |digits|;
    assert s[|sign|..] == digits + rest;
    assert SignLength(s) == |sign|;
    DigitRunAt(digits, rest);
    assert NumberLength(s) == n;
    assert s[..n] == sign + digits;
    assert s[n..] == rest;
    assert s[|sign|..n] == digits;
    assert Head(s) == if !FloatFollows(rest) && TooBig(digits) then Quoted(sign + digits) else Kept(sign + digits);
  }

  lemma StepNumber(sign: string, digits: string, rest: string)
    requires IsSign(sign) && AllDigits(digits) && sign + digits != ""
    requires rest == "" || !IsDigit(rest[0])
    ensures Rewrite(sign + digits + rest) == Token(sign, digits, rest) + Rewrite(rest)
  {
    var s := sign + digits + rest;
    NumberHead(sign, digits, rest);
    RewriteStep(s);
    assert s[|sign + digits|..] == rest;
  }

  // ---------------------------------------------------------------- rewriting twice

  lemma {:induction false} BodyClosedOrAll(s: string)
    ensures Closed(s[..BodyLength(s)]) || BodyLength(s) == |s|
    decreases |s|
  {
    var n := BodyLength(s);
    if s == "" || s[0] == '"' {
    } else if s[0] == '\\' {
      if |s| > 1 {
        BodyClosedOrAll(s[2..]);
        assert s[..n][2..] == s[2..][..n - 2];
      }
    } else {
      BodyClosedOrAll(s[1..]);
      assert s[..n][1..] == s[1..][..n - 1];
    }
  }

  /** A text with no quote and no backslash is closed by the quote put after it. */
  lemma {:induction false} PlainCloses(t: string)
    requires forall i :: 0 <= i < |t| ==> t[i] != '"' && t[i] != '\\'
    ensures Closed(t + "\"")
  {
    if t == "" {
    } else {
      assert (t + "\"")[1..] == t[1..] + "\"";
      PlainCloses(t[1..]);
    }
  }

  lemma RewriteEmpty()
    ensures Rewrite("") == ""
  {
  }

  /** Rewriting changes the first character only where it opens a quote before a number. */
  lemma FirstCharacter(s: string)
    requires s != ""
    ensures Rewrite(s) != ""
    ensures Rewrite(s)[0] == s[0] || (Rewrite(s)[0] == '"' && StartsNumber(s[0]))
  {
    RewriteStep(s);
  }

  lemma RewriteNumberAgain(s: string)
    requires s != "" && StartsNumber(s[0])
    ensures var r := Rewrite(s[|Head(s).text|..]); Rewrite(r) == r ==> Rewrite(Shown(Head(s)) + r) == Shown(Head(s)) + r
  {
    hide Rewrite;
    var n, d := NumberLength(s), SignLength(s);
    var sign, digits, rest := s[..d], s[d..n], s[n..];
    var r := Rewrite(rest);
    assert sign + digits == s[..n];
    if Head(s).Quoted? {
      PlainCloses(s[..n]);
      StepString(s[..n] + "\"", r);
      assert Shown(Head(s)) == "\"" + (s[..n] + "\"");
    } else {
      if rest == "" { assert Rewrite("") == "" by { RewriteEmpty(); } } else { FirstCharacter(rest); }
      StepNumber(sign, digits, r);
    }
  }

  lemma RewriteStringAgain(s: string)
    requires s != "" && s[0] == '"'
    ensures var r := Rewrite(s[|Head(s).text|..]); Rewrite(r) == r ==> Rewrite(Shown(Head(s)) + r) == Shown(Head(s)) + r
  {
    var body, n := s[1..], BodyLength(s[1..]);
    var rest := s[1 + n..];
    BodyClosedOrAll(body);
    assert Shown(Head(s)) == s[..1 + n] == "\"" + body[..n];
    if Closed(body[..n]) {
      StepString(body[..n], Rewrite(rest));
    } else {
      assert rest == "" && Pieces("") == [];
      RewriteStep(s);
      assert s[..1 + n] + "" == s;
    }
  }

  /** Idempotence: a rewritten text has nothing left to rewrite. */
  lemma {:induction false} RewriteIdempotent(s: string)
    ensures Rewrite(Rewrite(s)) == Rewrite(s)
    decreases |s|
  {
    if s == "" {
    } else {
      RewriteIdempotent(s[|Head(s).text|..]);
      RewriteStep(s);
      if s[0] == '"' {
        RewriteStringAgain(s);
      } else if StartsNumber(s[0]) {
        RewriteNumberAgain(s);
      } else {
        StepOver(s[..1], Rewrite(s[1..]));
      }
    }
  }

  // ---------------------------------------------------------------- JSON values (RFC 8259)

  /** A string body: characters that stand for themselves, and escapes. `\uXXXX` is the escape
      of `u` followed by four plain digits. */
  datatype StringItem = Plain(c: char) | Escape(c: char)

  datatype Exponent = Exponent(mark: char, sign: string, digits: string)

  /** A number of RFC 8259, section 6; `frac` is the digits after the point. */
  datatype Numeral = Numeral(sign: string, digits: string, frac: Option<string>, exp: Option<Exponent>)

  datatype Json =
    | Word(text: string)
    | Number(num: Numeral)
    | Literal(body: seq<StringItem>)
    | Group(isObject: bool, space: string, items: Items)

  /** Elements of an array or members of an object, with the white space around them. */
  datatype Items =
    | End
    | Item(before: string, key: Option<Key>, value: Json, after: string, tail: Items)

  datatype Key = Key(name: seq<StringItem>, gap1: string, gap2: string)

  predicate IsJsonSpace(s: string) {
    forall i :: 0 <= i < |s| ==> s[i] in {' ', '\t', '\n', '\r'}
  }

  predicate ProperDigits(s: string) {
    s != "" && AllDigits(s)
  }

  predicate ProperString(body: seq<StringItem>) {
    forall i :: 0 <= i < |body| ==> body[i].Plain? ==> body[i].c != '"' && body[i].c != '\\'
  }

  predicate ProperNumeral(n: Numeral) {
    && IsSign(n.sign) && ProperDigits(n.digits)
    && (n.frac.Some? ==> ProperDigits(n.frac.value))
    && (n.exp.Some? ==>
          && n.exp.value.mark in {'e', 'E'}
          && n.exp.value.sign in {"", "+", "-"}
          && ProperDigits(n.exp.value.digits))
  }

  predicate Proper(v: Json)
    decreases v
  {
    match v
    case Word(text) => text in {"null", "true", "false"}
    case Number(num) => ProperNumeral(num)
    case Literal(body) => ProperString(body)
    case Group(isObject, space, items) => IsJsonSpace(space) && ProperItems(isObject, items)
  }

  predicate ProperItems(isObject: bool, items: Items)
    decreases items
  {
    match items
    case End => true
    case Item(before, key, value, after, tail) =>
      && IsJsonSpace(before) && IsJsonSpace(after) && isObject == key.Some?
      && (key.Some? ==> ProperString(key.value.name) && IsJsonSpace(key.value.gap1) && IsJsonSpace(key.value.gap2))
      && Proper(value) && ProperItems(isObject, tail)
  }

  // ---------------------------------------------------------------- printing

  function PrintString(body: seq<StringItem>): string {
    if body == [] then "\""
    else (match body[0] case Plain(c) => [c] case Escape(c) => ['\\', c]) + PrintString(body[1..])
  }

  /** What follows the integer part of a number. */
  function PrintTail(n: Numeral): string {
    (match n.frac case None => "" case Some(f) => "." + f) + PrintExponent(n.exp)
  }

  function PrintExponent(exp: Option<Exponent>): string {
    match exp
    case None => ""
    case Some(e) => [e.mark] + e.sign + e.digits
  }

  function Print(v: Json): string {
    match v
    case Word(text) => text
    case Number(num) => (num.sign + num.digits) + PrintTail(num)
    case Literal(body) => "\"" + PrintString(body)
    case Group(isObject, space, items) =>
      ((if isObject then "{" else "[") + space) + (PrintItems(items) + (if isObject then "}" else "]"))
  }

  function PrintKey(key: Option<Key>): string {
    match key
    case None => ""
    case Some(l) => ("\"" + PrintString(l.name)) + (l.gap1 + ":" + l.gap2)
  }

  function PrintItems(items: Items): string {
    match items
    case End => ""
    case Item(before, key, value, after, tail) =>
      before + (PrintKey(key) + (Print(value) + ((after + if tail.End? then "" else ",") + PrintItems(tail))))
  }

  // ---------------------------------------------------------------- the intended change of value

  predicate IsBareInteger(n: Numeral) {
    n.frac.None? && n.exp.None?
  }

  function PlainText(s: string): seq<StringItem> {
    seq(|s|, i requires 0 <= i < |s| => Plain(s[i]))
  }

  /** Every integer out of range becomes the string of its own characters; all else stays. */
  function QuoteBig(v: Json): Json {
    match v
    case Word(_) => v
    case Literal(_) => v
    case Number(n) =>
      if ProperNumeral(n) && IsBareInteger(n) && TooBig(n.digits) then Literal(PlainText(n.sign + n.digits)) else v
    case Group(isObject, space, items) => Group(isObject, space, QuoteBigItems(items))
  }

  function QuoteBigItems(items: Items): Items {
    match items
    case End => End
    case Item(before, key, value, after, tail) => Item(before, key, QuoteBig(value), after, QuoteBigItems(tail))
  }

  /** The digit runs inside floats that the scanner mistakes for integers out of range: the
      fraction when no exponent follows it, and the exponent. */
  function Mistaken(v: Json): nat {
    match v
    case Word(_) => 0
    case Literal(_) => 0
    case Number(n) => if ProperNumeral(n) then MistakenRuns(n) else 0
    case Group(_, _, items) => MistakenItems(items)
  }

  function MistakenItems(items: Items): nat {
    match items
    case End => 0
    case Item(_, _, value, _, tail) => Mistaken(value) + MistakenItems(tail)
  }

  function MistakenRuns(n: Numeral): nat
    requires ProperNumeral(n)
  {
    (if n.frac.Some? && n.exp.None? && TooBig(n.frac.value) then 1 else 0)
    + (if n.exp.Some? && TooBig(n.exp.value.digits) then 1 else 0)
  }

  // ---------------------------------------------------------------- proof of the meaning theorem

  /** `rest` cannot continue a number. */
  predicate Stops(rest: string) {
    rest == "" || !(IsDigit(rest[0]) || IsFloatMark(rest[0]))
  }

  /** Rewriting `text` in front of any `rest` yields `shown`, up to `extra` mistaken runs. */
  ghost predicate Becomes(text: string, shown: string, extra: nat, rest: string) {
    && (extra == 0 ==> Rewrite(text + rest) == shown + Rewrite(rest))
    && |Rewrite(text + rest)| == |shown| + 2 * extra + |Rewrite(rest)|
  }

  lemma Chain(t1: string, s1: string, n1: nat, t2: string, s2: string, n2: nat, rest: string)
    requires Becomes(t1, s1, n1, t2 + rest) && Becomes(t2, s2, n2, rest)
    ensures Becomes(t1 + t2, s1 + s2, n1 + n2, rest)
  {
    hide Rewrite;
    Assoc(t1, t2, rest);
    Assoc(s1, s2, Rewrite(rest));
  }

  lemma OverBecomes(t: string, rest: string)
    requires forall i :: 0 <= i < |t| ==> Other(t[i])
    ensures Becomes(t, t, 0, rest)
  {
    hide Rewrite;
    StepOver(t, rest);
  }

  lemma PrefixBecomes(t: string, p: string, q: string, n: nat, rest: string)
    requires forall i :: 0 <= i < |t| ==> Other(t[i])
    requires Becomes(p, q, n, rest)
    ensures Becomes(t + p, t + q, n, rest)
  {
    hide Rewrite;
    OverBecomes(t, p + rest);
    Chain(t, t, 0, p, q, n, rest);
  }

  lemma {:induction false} PrintedStringCloses(body: seq<StringItem>)
    requires ProperString(body)
    ensures Closed(PrintString(body))
  {
    if body == [] {
    } else {
      PrintedStringCloses(body[1..]);
      var p := PrintString(body);
      match body[0]
      case Plain(c) => assert p[1..] == PrintString(body[1..]);
      case Escape(c) => assert p[2..] == PrintString(body[1..]);
    }
  }

  lemma StringBecomes(body: seq<StringItem>, rest: string)
    requires ProperString(body)
    ensures Becomes("\"" + PrintString(body), "\"" + PrintString(body), 0, rest)
  {
    hide Rewrite;
    PrintedStringCloses(body);
    StepString(PrintString(body), rest);
  }

  lemma {:induction false} PrintPlain(s: string)
    ensures PrintString(PlainText(s)) == s + "\""
  {
    if s == "" {
    } else {
      assert PlainText(s)[1..] == PlainText(s[1..]);
      PrintPlain(s[1..]);
      assert s == [s[0]] + s[1..];
    }
  }

  lemma ExponentBecomes(exp: Option<Exponent>, rest: string)
    requires Stops(rest)
    requires exp.Some? ==> exp.value.mark in {'e', 'E'} && exp.value.sign in {"", "+", "-"} && ProperDigits(exp.value.digits)
    ensures Becomes(PrintExponent(exp), PrintExponent(exp), if exp.Some? && TooBig(exp.value.digits) then 1 else 0, rest)
  {
    hide Rewrite;
    match exp
    case None => assert "" + rest == rest;
    case Some(e) =>
      var extra := if TooBig(e.digits) then 1 else 0;
      if e.sign == "-" {
        OverBecomes([e.mark], (e.sign + e.digits) + rest);
        StepNumber(e.sign, e.digits, rest);
        Chain([e.mark], [e.mark], 0, e.sign + e.digits, e.sign + e.digits, extra, rest);
        Assoc([e.mark], e.sign, e.digits);
      } else {
        OverBecomes([e.mark] + e.sign, e.digits + rest);
        StepNumber("", e.digits, rest);
        assert "" + e.digits == e.digits;
        Chain([e.mark] + e.sign, [e.mark] + e.sign, 0, e.digits, e.digits, extra, rest);
      }
  }

  lemma TailBecomes(n: Numeral, rest: string)
    requires ProperNumeral(n) && Stops(rest)
    ensures Becomes(PrintTail(n), PrintTail(n), MistakenRuns(n), rest)
  {
    hide Rewrite;
    var e := PrintExponent(n.exp);
    ExponentBecomes(n.exp, rest);
    match n.frac
    case None => assert "" + e == e;
    case Some(f) =>
      var extra := if n.exp.None? && TooBig(f) then 1 else 0;
      OverBecomes(".", f + (e + rest));
      StepNumber("", f, e + rest);
      assert "" + f == f;
      assert e == "" ==> e + rest == rest;
      Chain(".", ".", 0, f, f, extra, e + rest);
      Chain("." + f, "." + f, extra, e, e, MistakenRuns(n) - extra, rest);
  }

  lemma BareIntegerBecomes(n: Numeral, rest: string)
    requires ProperNumeral(n) && Stops(rest) && IsBareInteger(n)
    ensures Becomes(Print(Number(n)), Print(QuoteBig(Number(n))), 0, rest)
  {
    hide Rewrite;
    var head := n.sign + n.digits;
    assert Print(Number(n)) == head;
    StepNumber(n.sign, n.digits, rest);
    PrintPlain(head);
    Assoc("\"", head, "\"");
    assert Print(QuoteBig(Number(n))) == Token(n.sign, n.digits, rest);
  }

  lemma NumberBecomes(n: Numeral, rest: string)
    requires ProperNumeral(n) && Stops(rest)
    ensures Becomes(Print(Number(n)), Print(QuoteBig(Number(n))), MistakenRuns(n), rest)
  {
    hide Rewrite;
    if IsBareInteger(n) {
      BareIntegerBecomes(n, rest);
    } else {
      var head, tail := n.sign + n.digits, PrintTail(n);
      TailBecomes(n, rest);
      assert (tail + rest)[0] == tail[0];
      StepNumber(n.sign, n.digits, tail + rest);
      Chain(head, head, 0, tail, tail, MistakenRuns(n), rest);
    }
  }

  lemma KeyBecomes(key: Option<Key>, rest: string)
    requires key.Some? ==> ProperString(key.value.name) && IsJsonSpace(key.value.gap1) && IsJsonSpace(key.value.gap2)
    ensures Becomes(PrintKey(key), PrintKey(key), 0, rest)
  {
    hide Rewrite;
    match key
    case None => assert "" + rest == rest;
    case Some(l) =>
      var name, after := "\"" + PrintString(l.name), l.gap1 + ":" + l.gap2;
      OverBecomes(after, rest);
      StringBecomes(l.name, after + rest);
      Chain(name, name, 0, after, after, 0, rest);
  }

  lemma {:induction false} ValueBecomes(v: Json, rest: string)
    requires Proper(v) && Stops(rest)
    ensures Becomes(Print(v), Print(QuoteBig(v)), Mistaken(v), rest)
    decreases v, 2
  {
    hide Rewrite;
    match v
    case Word(text) => OverBecomes(text, rest);
    case Number(n) => NumberBecomes(n, rest);
    case Literal(body) => StringBecomes(body, rest);
    case Group(isObject, space, items) =>
      var open, close := if isObject then "{" else "[", if isObject then "}" else "]";
      var p, q, n := PrintItems(items), PrintItems(QuoteBigItems(items)), MistakenItems(items);
      OverBecomes(close, rest);
      ItemsBecome(isObject, items, close + rest);
      Chain(p, q, n, close, close, 0, rest);
      PrefixBecomes(open + space, p + close, q + close, n, rest);
  }

  lemma {:induction false} ItemsBecome(isObject: bool, items: Items, rest: string)
    requires ProperItems(isObject, items) && Stops(rest)
    ensures Becomes(PrintItems(items), PrintItems(QuoteBigItems(items)), MistakenItems(items), rest)
    decreases items, 1
  {
    hide Rewrite;
    match items
    case End => assert "" + rest == rest;
    case Item(before, key, value, after, tail) =>
      ItemBecomes(isObject, items, rest);
      var comma := if tail.End? then "" else ",";
      var p := Print(value) + ((after + comma) + PrintItems(tail));
      var q := Print(QuoteBig(value)) + ((after + comma) + PrintItems(QuoteBigItems(tail)));
      KeyBecomes(key, p + rest);
      Chain(PrintKey(key), PrintKey(key), 0, p, q, MistakenItems(items), rest);
      PrefixBecomes(before, PrintKey(key) + p, PrintKey(key) + q, MistakenItems(items), rest);
  }

  lemma GapIsOther(after: string, comma: string)
    requires IsJsonSpace(after) && comma in {"", ","}
    ensures forall i :: 0 <= i < |after + comma| ==>
              Other((after + comma)[i]) && !IsFloatMark((after + comma)[i]) && !IsDigit((after + comma)[i])
    ensures after + comma == "" ==> comma == ""
  {
  }

  lemma GapStops(gap: string, p: string, rest: string)
    requires gap == "" ==> p == "" && Stops(rest)
    requires gap != "" ==> !IsFloatMark(gap[0]) && !IsDigit(gap[0])
    ensures Stops((gap + p) + rest)
  {
    if gap == "" { assert (gap + p) + rest == rest; } else { assert ((gap + p) + rest)[0] == gap[0]; }
  }

  /** The value of an item and all that comes after it. */
  lemma {:induction false} ItemBecomes(isObject: bool, items: Items, rest: string)
    requires items.Item? && ProperItems(isObject, items) && Stops(rest)
    ensures var comma := if items.tail.End? then "" else ",";
            Becomes(Print(items.value) + ((items.after + comma) + PrintItems(items.tail)),
                    Print(QuoteBig(items.value)) + ((items.after + comma) + PrintItems(QuoteBigItems(items.tail))),
                    MistakenItems(items), rest)
    decreases items, 0
  {
    var Item(before, key, value, after, tail) := items;
    var comma := if tail.End? then "" else ",";
    var gap := after + comma;
    var p, q, n := PrintItems(tail), PrintItems(QuoteBigItems(tail)), MistakenItems(tail);
    assert tail.End? ==> p == "";
    hide Rewrite, Becomes, Print, PrintItems, QuoteBig, QuoteBigItems;
    GapIsOther(after, comma);
    hide IsJsonSpace, Other, IsFloatMark;
    ItemsBecome(isObject, tail, rest);
    PrefixBecomes(gap, p, q, n, rest);
    GapStops(gap, p, rest);
    ValueBecomes(value, (gap + p) + rest);
    Chain(Print(value), Print(QuoteBig(value)), Mistaken(value), gap + p, gap + q, n, rest);
  }

  /** At the end of the text, the rewriting is the intended one exactly when nothing is mistaken. */
  lemma BecomesAtEnd(text: string, shown: string, extra: nat)
    requires Becomes(text, shown, extra, "")
    ensures Rewrite(text) == shown <==> extra == 0
  {
    assert Rewrite("") == "";
    hide Rewrite;
    assert text + "" == text && shown + "" == shown;
  }

  /** Meaning: the text of a JSON value, white space included, is rewritten to the text of the
      value with its out-of-range integers turned into strings, if and only if no float in it
      has a fraction without exponent, or an exponent, whose digits exceed 2^53 - 1. */
  lemma RewritePreservesMeaning(v: Json, lead: string, trail: string)
    requires Proper(v) && IsJsonSpace(lead) && IsJsonSpace(trail)
    ensures Rewrite(lead + (Print(v) + trail)) == lead + (Print(QuoteBig(v)) + trail) <==> Mistaken(v) == 0
  {
    var p, q := Print(v) + trail, Print(QuoteBig(v)) + trail;
    assert Stops(trail);
    assert forall i :: 0 <= i < |lead| ==> Other(lead[i]);
    assert forall i :: 0 <= i < |trail| ==> Other(trail[i]);
    hide Rewrite, Becomes, Print, QuoteBig, Mistaken, IsJsonSpace, Other;
    OverBecomes(trail, "");
    assert trail + "" == trail;
    ValueBecomes(v, trail);
    Chain(Print(v), Print(QuoteBig(v)), Mistaken(v), trail, trail, 0, "");
    PrefixBecomes(lead, p, q, Mistaken(v), "");
    BecomesAtEnd(lead + p, lead + q, Mistaken(v));
  }

  lemma AloneIsQuoted(f: string)
    requires ProperDigits(f) && TooBig(f)
    ensures Rewrite(f) == "\"" + f + "\""
  {
    assert Rewrite("") == "";
    hide Rewrite, Value;
    StepNumber("", f, "");
    assert "" + f + "" == f == "" + f;
  }

  lemma FractionIsQuoted(f: string)
    requires ProperDigits(f) && TooBig(f)
    ensures Rewrite("0" + ("." + f)) == "0" + ("." + ("\"" + f + "\""))
  {
    hide Rewrite, TooBig, Value;
    AloneIsQuoted(f);
    StepOver(".", f);
    ZeroAhead("." + f);
  }

  lemma ZeroAhead(rest: string)
    requires FloatFollows(rest)
    ensures Rewrite("0" + rest) == "0" + Rewrite(rest)
  {
    hide Rewrite, TooBig;
    StepNumber("", "0", rest);
    assert "" + "0" + rest == "0" + rest;
  }

  /** Any bare fraction out of range comes out with quotes inside the float. */
  lemma FractionIsBroken(f: string)
    requires ProperDigits(f) && TooBig(f)
    ensures var v := Number(Numeral("", "0", Some(f), None));
            && Proper(v) && Mistaken(v) == 1 && QuoteBig(v) == v
            && Print(v) == "0" + ("." + f)
            && Rewrite(Print(v)) == "0" + ("." + ("\"" + f + "\"")) != Print(v)
  {
    hide Value, Rewrite, TooBig;
    FractionIsQuoted(f);
    assert "." + f + "" == "." + f && "" + "0" == "0";
    assert |"\"" + f + "\""| == |f| + 2;
  }

  /** A value whose meaning is lost: `0.12345678901234567` comes out with quotes inside the float. */
  lemma LongFractionIsBroken()
    ensures var v := Number(Numeral("", "0", Some("12345678901234567"), None));
            && Proper(v) && Mistaken(v) == 1 && QuoteBig(v) == v
            && Print(v) == "0" + ("." + "12345678901234567")
            && Rewrite(Print(v)) == "0" + ("." + ("\"" + "12345678901234567" + "\""))
            && Rewrite(Print(v)) != Print(QuoteBig(v))
  {
    var f := "12345678901234567";
    var v := Number(Numeral("", "0", Some(f), None));
    LongRunsAreUnsafe(f);
    FractionIsBroken(f);
  }
}
