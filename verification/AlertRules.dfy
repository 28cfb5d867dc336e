/** The rule strings of device alerts: the threshold DSL, its action part, and the rendering of
    the gateway's anomaly detector. Numbers stay decimal lexemes. */
module AlertRules {
  import opened Wrappers
  import opened Text

  // ---------------------------------------------------------------- scanning

  /** The characters a scan can stop at. */
  datatype Stop = Dot | Colon | Equals | Comparison | NotSpace | Space | NotDigit

  predicate Hits(stop: Stop, c: char) {
    match stop
    case Dot => c == '.'
    case Colon => c == ':'
    case Equals => c == '='
    case Comparison => c in {'<', '>', '=', '!'}
    case NotSpace => !IsSpace(c)
    case Space => IsSpace(c)
    case NotDigit => !IsDigit(c)
  }

  /** The first position whose character stops the scan, or the length of the text. */
  function FirstIndex(s: string, stop: Stop): (n: nat)
    ensures n <= |s|
    ensures forall i :: 0 <= i < n ==> !Hits(stop, s[i])
    ensures n < |s| ==> Hits(stop, s[n])
  {
    if s == "" || Hits(stop, s[0]) then 0 else 1 + FirstIndex(s[1..], stop)
  }

  predicate Free(s: string, stop: Stop) {
    forall i :: 0 <= i < |s| ==> !Hits(stop, s[i])
  }

  /** What a text free of a stop is free of. */
  lemma StopsSpelledOut(s: string)
    ensures Free(s, Dot) <==> '.' !in s
    ensures Free(s, Colon) <==> ':' !in s
    ensures Free(s, Equals) <==> '=' !in s
    ensures Free(s, Comparison) <==> '<' !in s && '>' !in s && '=' !in s && '!' !in s
    ensures Free(s, Space) <==> forall i :: 0 <= i < |s| ==> !IsSpace(s[i])
  {
    hide IsSpace;
    forall stop | !Free(s, stop) ensures exists c :: c in s && Hits(stop, c) {
      var i :| 0 <= i < |s| && Hits(stop, s[i]);
      assert s[i] in s;
    }
  }

  lemma {:induction false} FirstIndexAt(a: string, b: string, stop: Stop)
    requires Free(a, stop) && (b == "" || Hits(stop, b[0]))
    ensures FirstIndex(a + b, stop) == |a|
  {
    if a == "" {
      assert a + b == b;
    } else {
      assert (a + b)[1..] == a[1..] + b;
      FirstIndexAt(a[1..], b, stop);
    }
  }

  /** A text is cut at the first stop into what comes before and after it. */
  lemma SplitsAt(a: string, b: string, stop: Stop)
    requires Free(a, stop) && b != "" && Hits(stop, b[0])
    ensures FirstIndex(a + b, stop) == |a| && (a + b)[..|a|] == a && (a + b)[|a|..] == b && (a + b)[|a| + 1..] == b[1..]
  {
    FirstIndexAt(a, b, stop);
    hide FirstIndex;
  }

  lemma FreeConcat(a: string, b: string, stop: Stop)
    requires Free(a, stop) && Free(b, stop)
    ensures Free(a + b, stop)
  {
  }

  lemma Reassociate(a: string, b: string, c: string, d: string)
    ensures a + ((b + c) + d) == (a + b) + (c + d)
  {
  }

  lemma FreeBefore(s: string, stop: Stop)
    ensures Free(s[..FirstIndex(s, stop)], stop)
  {
    hide FirstIndex;
  }

  lemma CutAt(lead: string, middle: string, i: nat, rest: string)
    requires i < |middle|
    ensures lead + (middle + rest) == (lead + middle[..i]) + (middle[i..] + rest)
    ensures (middle[i..] + rest)[0] == middle[i] && (middle[i..] + rest)[1..] == middle[i + 1..] + rest
  {
    assert middle == middle[..i] + middle[i..];
    Reassociate(lead, middle[..i], middle[i..], rest);
  }

  /** The first stop of a text, when only its middle part has one. */
  lemma StopInMiddle(lead: string, middle: string, rest: string, stop: Stop)
    requires Free(lead, stop)
    ensures var sep, text := FirstIndex(middle, stop), lead + (middle + rest);
            sep < |middle| ==>
              && FirstIndex(text, stop) == |lead| + sep && text[..|lead| + sep] == lead + middle[..sep]
              && text[|lead| + sep + 1..] == middle[sep + 1..] + rest
  {
    var sep := FirstIndex(middle, stop);
    FreeBefore(middle, stop);
    if sep < |middle| {
      CutAt(lead, middle, sep, rest);
      hide FirstIndex, Free, Hits;
      FreeConcat(lead, middle[..sep], stop);
      SplitsAt(lead + middle[..sep], middle[sep..] + rest, stop);
    }
  }

  // ---------------------------------------------------------------- numbers: -?\d+(\.\d+)?

  ghost predicate IsNumeral(s: string) {
    exists sign, whole, frac :: NumeralParts(s, sign, whole, frac)
  }

  ghost predicate NumeralParts(s: string, sign: string, whole: string, frac: string) {
    && sign in {"", "-"}
    && whole != "" && AllDigits(whole)
    && (frac == "" || (frac[0] == '.' && |frac| > 1 && AllDigits(frac[1..])))
    && s == sign + whole + frac
  }

  lemma DigitIsNumeral(d: char)
    requires IsDigit(d)
    ensures IsNumeral([d])
  {
    assert NumeralParts([d], "", [d], "");
  }

  /** Length of the longest numeral at the start of `s`; 0 when there is none. */
  function NumeralLength(s: string): (n: nat)
    ensures n <= |s|
  {
    var sign := if s != "" && s[0] == '-' then 1 else 0;
    var whole := FirstIndex(s[sign..], NotDigit);
    if whole == 0 then 0 else sign + whole + FractionLength(s[sign + whole..])
  }

  function FractionLength(s: string): (n: nat)
    ensures n <= |s|
  {
    if s == "" || s[0] != '.' then 0
    else
      var digits := FirstIndex(s[1..], NotDigit);
      if digits == 0 then 0 else 1 + digits
  }

  lemma FractionShape(s: string)
    ensures var frac := s[..FractionLength(s)];
            frac == "" || (frac[0] == '.' && |frac| > 1 && AllDigits(frac[1..]))
  {
    var n := FractionLength(s);
    if n > 0 {
      assert s[..n][1..] == s[1..][..n - 1];
    }
  }

  lemma NumeralShape(s: string)
    requires NumeralLength(s) > 0
    ensures IsNumeral(s[..NumeralLength(s)])
  {
    hide FractionLength, FirstIndex;
    var sign := if s != "" && s[0] == '-' then 1 else 0;
    var whole := FirstIndex(s[sign..], NotDigit);
    var rest := s[sign + whole..];
    FractionShape(rest);
    var n, frac := NumeralLength(s), rest[..FractionLength(rest)];
    var digits := s[sign..][..whole];
    assert digits != "" && AllDigits(digits);
    assert s[..sign] == if sign == 1 then "-" else "";
    hide AllDigits, NumeralLength;
    assert s[..n] == s[..sign] + digits + frac;
    assert NumeralParts(s[..n], s[..sign], digits, frac);
  }

  /** `rest` cannot prolong a numeral. */
  predicate EndsNumeral(rest: string) {
    rest == "" || (!IsDigit(rest[0]) && rest[0] != '.')
  }

  lemma FractionAt(frac: string, rest: string)
    requires frac == "" || (frac[0] == '.' && |frac| > 1 && AllDigits(frac[1..]))
    requires EndsNumeral(rest)
    ensures FractionLength(frac + rest) == |frac|
  {
    if frac != "" {
      assert (frac + rest)[1..] == frac[1..] + rest;
      FirstIndexAt(frac[1..], rest, NotDigit);
    }
  }

  lemma NumeralAt(s: string, rest: string)
    requires IsNumeral(s) && EndsNumeral(rest)
    ensures NumeralLength(s + rest) == |s| && s != ""
  {
    hide NumeralLength, AllDigits;
    var sign, whole, frac :| NumeralParts(s, sign, whole, frac);
    NumeralPartsAt(sign, whole, frac, rest);
    Regroup(sign, whole, frac, rest);
  }

  lemma Regroup(a: string, b: string, c: string, d: string)
    ensures (a + b + c) + d == a + (b + (c + d))
  {
  }

  lemma NumeralPartsAt(sign: string, whole: string, frac: string, rest: string)
    requires NumeralParts(sign + whole + frac, sign, whole, frac) && EndsNumeral(rest)
    ensures NumeralLength(sign + (whole + (frac + rest))) == |sign + whole + frac|
  {
    hide FractionLength, FirstIndex;
    var t := sign + (whole + (frac + rest));
    FractionAt(frac, rest);
    assert frac + rest == "" || !IsDigit((frac + rest)[0]);
    FirstIndexAt(whole, frac + rest, NotDigit);
    hide AllDigits;
    assert t[|sign|..] == whole + (frac + rest);
    assert t[|sign| + |whole|..] == frac + rest;
    assert |sign| == if t[0] == '-' then 1 else 0;
  }

  lemma NumeralEnds(s: string)
    requires IsNumeral(s)
    ensures s != "" && (s[0] == '-' || IsDigit(s[0])) && IsDigit(s[|s| - 1])
  {
    var sign, whole, frac :| NumeralParts(s, sign, whole, frac);
    if frac != "" {
      assert s[|s| - 1] == frac[1..][|frac| - 2];
    }
  }

  // ---------------------------------------------------------------- the action: key=value

  datatype Action = Action(key: string, value: string)

  /** `parseChannelStateMessage` on a string. */
  function ParseChannelState(message: string): Option<Action> {
    var i := FirstIndex(message, Equals);
    if i == 0 || i == |message| then None
    else
      var key, value := Trim(message[..i]), Trim(message[i + 1..]);
      if key != "" && value != "" then Some(Action(key, value)) else None
  }

  predicate ProperAction(a: Action) {
    && a.key != "" && Tight(a.key) && Free(a.key, Equals)
    && a.value != "" && Tight(a.value)
  }

  lemma ChannelStateReadsBack(a: Action, s0: string, s1: string, s2: string, s3: string)
    requires ProperAction(a) && AllSpace(s0) && AllSpace(s1) && AllSpace(s2) && AllSpace(s3)
    ensures ParseChannelState((s0 + a.key + s1) + ("=" + (s2 + a.value + s3))) == Some(a)
  {
    var left, right := s0 + a.key + s1, s2 + a.value + s3;
    var text := left + ("=" + right);
    FirstIndexAt(left, "=" + right, Equals);
    TrimPadded(s0, a.key, s1);
    TrimPadded(s2, a.value, s3);
    hide Trim, Tight;
    assert text[..|left|] == left && text[|left| + 1..] == right;
  }

  /** The text is an action with white space around its parts. */
  predicate IsActionText(message: string, a: Action, s0: string, s1: string, s2: string, s3: string) {
    && AllSpace(s0) && AllSpace(s1) && AllSpace(s2) && AllSpace(s3)
    && message == (s0 + a.key + s1) + ("=" + (s2 + a.value + s3))
  }

  /** An action is read exactly from a key without `=` and a value, neither empty, with an `=`
      between them and any white space around both; everything else is none. */
  lemma ChannelStateExact(message: string, a: Action)
    ensures ParseChannelState(message) == Some(a) <==>
              && a.key != "" && Tight(a.key) && '=' !in a.key && a.value != "" && Tight(a.value)
              && exists s0, s1, s2, s3 :: IsActionText(message, a, s0, s1, s2, s3)
  {
    StopsSpelledOut(a.key);
    hide Trim, Tight, AllSpace, FirstIndex, Free;
    if s0, s1, s2, s3 :| ProperAction(a) && IsActionText(message, a, s0, s1, s2, s3) {
      hide ParseChannelState;
      ChannelStateReadsBack(a, s0, s1, s2, s3);
    }
    if ParseChannelState(message) == Some(a) {
      ActionIsPrinted(message);
    }
  }

  lemma InnerIsFree(a: string, s: string, b: string, stop: Stop)
    requires Free(a + s + b, stop)
    ensures Free(s, stop)
  {
    assert forall i :: 0 <= i < |s| ==> (a + s + b)[|a| + i] == s[i];
  }

  lemma JoinAt(s: string, i: nat)
    requires i < |s| && s[i] == '='
    ensures s == s[..i] + ("=" + s[i + 1..])
  {
  }

  lemma ActionIsPrinted(message: string)
    requires ParseChannelState(message).Some?
    ensures var a := ParseChannelState(message).value;
            ProperAction(a) && exists s0, s1, s2, s3 :: IsActionText(message, a, s0, s1, s2, s3)
  {
    hide Trim, Tight, AllSpace, FirstIndex;
    var i := FirstIndex(message, Equals);
    var left, right, a := message[..i], message[i + 1..], ParseChannelState(message).value;
    FreeBefore(message, Equals);
    TrimShape(left);
    TrimShape(right);
    var s0, s1 :| AllSpace(s0) && AllSpace(s1) && left == s0 + a.key + s1;
    var s2, s3 :| AllSpace(s2) && AllSpace(s3) && right == s2 + a.value + s3;
    InnerIsFree(s0, a.key, s1, Equals);
    hide Free, ParseChannelState;
    JoinAt(message, i);
    assert IsActionText(message, a, s0, s1, s2, s3);
  }

  // ---------------------------------------------------------------- the condition: metric.field op threshold

  datatype Condition = Condition(metric: string, field: string, operator: string, threshold: string)

  const OPERATORS := {">=", "<=", "==", "!=", ">", "<"}

  /** The operator at the start of `s`, two characters preferred; "" when there is none. */
  function OperatorAt(s: string): (op: string)
    ensures op == "" || (op in OPERATORS && op <= s)
  {
    if |s| >= 2 && s[..2] in OPERATORS then s[..2]
    else if |s| >= 1 && s[..1] in OPERATORS then s[..1]
    else ""
  }

  /** The shortest non-empty text that leaves only white space of `s` behind it: the lazy group. */
  function LazyField(s: string): (f: string)
    requires s != ""
    ensures f != "" && f <= s && AllSpace(s[|f|..])
    ensures forall n :: 0 < n <= |s| && AllSpace(s[n..]) ==> |f| <= n
  {
    if |s| == 1 || !IsSpace(s[|s| - 1]) then s
    else
      var init := s[..|s| - 1];
      var f := LazyField(init);
      assert forall i :: |f| <= i < |s| - 1 ==> s[i] == init[|f|..][i - |f|];
      assert forall n :: 0 < n < |s| && AllSpace(s[n..]) ==> forall i :: 0 <= i < |init[n..]| ==> init[n..][i] == s[n..][i];
      f
  }

  /** The regular expression of `parseAlertRule`, run on a trimmed condition, group by group. */
  function ParseCondition(c: string): Option<Condition> {
    var dot := FirstIndex(c, Dot);
    if dot == 0 || dot == |c| then None else ParseAfterDot(c[..dot], c[dot + 1..])
  }

  function ParseAfterDot(metric: string, rest: string): Option<Condition> {
    var k := FirstIndex(rest, Comparison);
    if k == 0 then None else ParseComparison(metric, rest[..k], rest[k..])
  }

  function ParseComparison(metric: string, left: string, right: string): Option<Condition>
    requires left != ""
  {
    var op := OperatorAt(right);
    var number := TrimStart(right[|op|..]);
    if op == "" || number == "" || NumeralLength(number) != |number| then None
    else Some(Condition(metric, LazyField(left), op, number))
  }

  /** The language of the regular expression: one way to cut `c` along its groups. */
  ghost predicate Cuts(c: string, cond: Condition, gap1: string, gap2: string) {
    && cond.metric != "" && Free(cond.metric, Dot)
    && cond.field != "" && Free(cond.field, Comparison)
    && cond.operator in OPERATORS && IsNumeral(cond.threshold)
    && AllSpace(gap1) && AllSpace(gap2)
    && c == cond.metric + ("." + AfterDot(cond, gap1, gap2))
  }

  /** What the groups behind the dot spell, with the white space between them. */
  function AfterDot(cond: Condition, gap1: string, gap2: string): string {
    (cond.field + gap1) + (cond.operator + (gap2 + cond.threshold))
  }

  /** The same language, spelled out on the characters of the parts. */
  lemma LanguageSpelledOut(c: string, cond: Condition, gap1: string, gap2: string)
    ensures Cuts(c, cond, gap1, gap2) <==>
              && cond.metric != "" && '.' !in cond.metric
              && cond.field != "" && '<' !in cond.field && '>' !in cond.field && '=' !in cond.field && '!' !in cond.field
              && cond.operator in {">=", "<=", "==", "!=", ">", "<"}
              && IsNumeral(cond.threshold) && AllSpace(gap1) && AllSpace(gap2)
              && c == cond.metric + "." + cond.field + gap1 + cond.operator + gap2 + cond.threshold
  {
    hide IsNumeral, AllSpace;
    SpelledOut(cond, gap1, gap2);
    StopsSpelledOut(cond.metric);
    StopsSpelledOut(cond.field);
    hide Free;
    hide AfterDot;
  }

  lemma SpelledOut(cond: Condition, gap1: string, gap2: string)
    ensures cond.metric + ("." + AfterDot(cond, gap1, gap2))
         == cond.metric + "." + cond.field + gap1 + cond.operator + gap2 + cond.threshold
  {
  }

  lemma SpacesAreFree(s: string)
    requires AllSpace(s)
    ensures Free(s, Comparison)
  {
  }

  lemma OperatorStarts(op: string, gap: string, number: string)
    requires op in OPERATORS && AllSpace(gap) && IsNumeral(number)
    ensures OperatorAt(op + (gap + number)) == op && Hits(Comparison, op[0])
  {
    NumeralEnds(number);
    hide IsNumeral;
    var s := op + (gap + number);
    assert s[|op|] == if gap == "" then number[0] else gap[0];
    assert IsSpace(s[|op|]) || s[|op|] == '-' || IsDigit(s[|op|]);
    if |op| == 1 {
      assert s[..2] == [op[0], s[1]];
      assert s[..1] == op;
    } else {
      assert s[..2] == op;
    }
  }

  lemma ComparisonIsParsed(metric: string, left: string, op: string, gap: string, number: string)
    requires left != "" && op in OPERATORS && AllSpace(gap) && IsNumeral(number)
    ensures ParseComparison(metric, left, op + (gap + number)) == Some(Condition(metric, LazyField(left), op, number))
  {
    hide OperatorAt, TrimStart, NumeralLength, IsNumeral, LazyField, AllSpace;
    OperatorStarts(op, gap, number);
    NumeralEnds(number);
    TrimStartPadded(gap, number);
    NumeralAt(number, "");
    assert number + "" == number;
    assert (op + (gap + number))[|op|..] == gap + number;
  }

  /** However `c` can be cut, the parser finds that cut up to the boundary between the field and
      the white space after it, and there it takes the shortest field. */
  lemma CutsAreParsed(c: string, cond: Condition, gap1: string, gap2: string)
    requires Cuts(c, cond, gap1, gap2)
    ensures ParseCondition(c) == Some(cond.(field := LazyField(cond.field + gap1)))
    ensures LazyField(cond.field + gap1) <= cond.field
  {
    hide FirstIndex, ParseComparison, OperatorAt, IsNumeral, LazyField;
    var left, right := cond.field + gap1, cond.operator + (gap2 + cond.threshold);
    var rest := left + right;
    ComparisonIsParsed(cond.metric, left, cond.operator, gap2, cond.threshold);
    OperatorStarts(cond.operator, gap2, cond.threshold);
    SpacesAreFree(gap1);
    FirstIndexAt(left, right, Comparison);
    FirstIndexAt(cond.metric, "." + rest, Dot);
    assert rest[..|left|] == left && rest[|left|..] == right;
    assert c[..|cond.metric|] == cond.metric && c[|cond.metric| + 1..] == rest;
    LazyFieldWithin(cond.field, gap1);
  }

  lemma LazyFieldWithin(field: string, gap: string)
    requires field != "" && AllSpace(gap)
    ensures LazyField(field + gap) <= field
  {
    hide LazyField;
    assert (field + gap)[|field|..] == gap;
    var f := LazyField(field + gap);
    assert f == (field + gap)[..|f|] == field[..|f|];
  }

  lemma ParsedComparisonIsCut(metric: string, left: string, right: string)
    requires left != "" && ParseComparison(metric, left, right).Some?
    ensures var cond := ParseComparison(metric, left, right).value;
            exists gap :: AllSpace(gap) && IsNumeral(cond.threshold) && right == cond.operator + (gap + cond.threshold)
  {
    hide OperatorAt, TrimStart, NumeralLength, IsNumeral, LazyField, AllSpace;
    var cond := ParseComparison(metric, left, right).value;
    var after := right[|cond.operator|..];
    TrimStartShape(after);
    var gap :| AllSpace(gap) && after == gap + cond.threshold;
    NumeralShape(cond.threshold);
    assert cond.threshold[..|cond.threshold|] == cond.threshold;
    assert right == cond.operator + after;
    assert right == cond.operator + (gap + cond.threshold);
  }

  lemma FreePrefix(a: string, b: string, stop: Stop)
    requires Free(a + b, stop)
    ensures Free(a, stop)
  {
    assert forall i :: 0 <= i < |a| ==> (a + b)[i] == a[i];
  }

  lemma PartsAreCut(c: string, dot: nat, cond: Condition, gap1: string, gap2: string)
    requires 0 < dot < |c| && c[dot] == '.' && cond.metric == c[..dot] && Free(cond.metric, Dot)
    requires c[dot + 1..] == AfterDot(cond, gap1, gap2)
    requires cond.field != "" && Free(cond.field, Comparison) && cond.operator in OPERATORS
    requires IsNumeral(cond.threshold) && AllSpace(gap1) && AllSpace(gap2)
    ensures Cuts(c, cond, gap1, gap2)
  {
    hide AfterDot, Free, IsNumeral, AllSpace;
    assert c == c[..dot] + ([c[dot]] + c[dot + 1..]);
  }

  lemma ParsedAfterDotIsCut(metric: string, rest: string)
    requires ParseAfterDot(metric, rest).Some?
    ensures var cond := ParseAfterDot(metric, rest).value;
            && cond.metric == metric && cond.field != "" && Free(cond.field, Comparison) && cond.operator in OPERATORS
            && exists gap1, gap2 ::
                 AllSpace(gap1) && AllSpace(gap2) && IsNumeral(cond.threshold) && rest == AfterDot(cond, gap1, gap2)
  {
    hide FirstIndex, NumeralLength, LazyField, OperatorAt, TrimStart, IsNumeral, AllSpace;
    var cond := ParseAfterDot(metric, rest).value;
    var k := FirstIndex(rest, Comparison);
    var left, right := rest[..k], rest[k..];
    assert Free(left, Comparison);
    ParsedComparisonIsCut(metric, left, right);
    assert cond.field == LazyField(left);
    hide ParseComparison, ParseAfterDot;
    var gap1 := left[|cond.field|..];
    var gap2 :| AllSpace(gap2) && IsNumeral(cond.threshold) && right == cond.operator + (gap2 + cond.threshold);
    assert left == cond.field + gap1;
    FreePrefix(cond.field, gap1, Comparison);
    assert rest == left + right;
  }

  /** What the parser accepts is a cut of the text. */
  lemma ParsedIsCut(c: string)
    requires ParseCondition(c).Some?
    ensures exists gap1, gap2 :: Cuts(c, ParseCondition(c).value, gap1, gap2)
  {
    hide ParseAfterDot, IsNumeral, AllSpace, AfterDot;
    var cond, dot := ParseCondition(c).value, FirstIndex(c, Dot);
    ParsedAfterDotIsCut(c[..dot], c[dot + 1..]);
    var gap1, gap2 :| AllSpace(gap1) && AllSpace(gap2) && IsNumeral(cond.threshold) && c[dot + 1..] == AfterDot(cond, gap1, gap2);
    PartsAreCut(c, dot, cond, gap1, gap2);
  }

  lemma CutPoint(s: string, a: string, x: string, b: string, y: string, stop: Stop)
    requires s == a + x && s == b + y
    requires Free(a, stop) && Free(b, stop) && x != "" && y != "" && Hits(stop, x[0]) && Hits(stop, y[0])
    ensures a == b && x == y
  {
    FirstIndexAt(a, x, stop);
    FirstIndexAt(b, y, stop);
    assert s[..|a|] == a && s[..|b|] == b && s[|a|..] == x && s[|b|..] == y;
  }

  lemma TailIsUnambiguous(op1: string, gap1: string, n1: string, op2: string, gap2: string, n2: string)
    requires op1 in OPERATORS && AllSpace(gap1) && IsNumeral(n1)
    requires op2 in OPERATORS && AllSpace(gap2) && IsNumeral(n2)
    requires op1 + (gap1 + n1) == op2 + (gap2 + n2)
    ensures op1 == op2 && gap1 == gap2 && n1 == n2
  {
    OperatorStarts(op1, gap1, n1);
    OperatorStarts(op2, gap2, n2);
    NumeralEnds(n1);
    NumeralEnds(n2);
    hide IsNumeral, OperatorAt, FirstIndex;
    assert gap1 + n1 == (op1 + (gap1 + n1))[|op1|..] == (op2 + (gap2 + n2))[|op2|..] == gap2 + n2;
    CutPoint(gap1 + n1, gap1, n1, gap2, n2, NotSpace);
  }

  /** All cuts of a text agree on metric, operator, both the gap and the number after it, and on
      field plus gap; only the white space before the operator can be shared out differently. */
  lemma ConditionIsUnambiguous(c: string, a: Condition, a1: string, a2: string, b: Condition, b1: string, b2: string)
    requires Cuts(c, a, a1, a2) && Cuts(c, b, b1, b2)
    ensures a.metric == b.metric && a.field + a1 == b.field + b1
    ensures a.operator == b.operator && a2 == b2 && a.threshold == b.threshold
  {
    hide IsNumeral, OperatorAt, FirstIndex;
    var x, y := a.operator + (a2 + a.threshold), b.operator + (b2 + b.threshold);
    OperatorStarts(a.operator, a2, a.threshold);
    OperatorStarts(b.operator, b2, b.threshold);
    SpacesAreFree(a1);
    SpacesAreFree(b1);
    var resta, restb := AfterDot(a, a1, a2), AfterDot(b, b1, b2);
    assert resta == (a.field + a1) + x && restb == (b.field + b1) + y;
    hide AfterDot;
    CutPoint(c, a.metric, "." + resta, b.metric, "." + restb, Dot);
    assert resta == ("." + resta)[1..] == ("." + restb)[1..] == restb;
    CutPoint(resta, a.field + a1, x, b.field + b1, y, Comparison);
    TailIsUnambiguous(a.operator, a2, a.threshold, b.operator, b2, b.threshold);
  }

  /** The text before the operator, field and white space together, as the expression sees it. */
  lemma OtherCut(c: string, a: Condition, a1: string, a2: string, field: string, gap: string)
    requires Cuts(c, a, a1, a2) && a.field + a1 == field + gap && field != "" && AllSpace(gap)
    ensures Cuts(c, a.(field := field), gap, a2)
  {
    hide IsNumeral, AllSpace;
    SpacesAreFree(a1);
    FreeConcat(a.field, a1, Comparison);
    FreePrefix(field, gap, Comparison);
  }

  /** There is only one way to cut a text exactly when what stands before its operator is a single
      character or does not end in white space. */
  lemma SplitIsUniqueExactly(c: string, a: Condition, a1: string, a2: string)
    requires Cuts(c, a, a1, a2)
    ensures (forall b, b1, b2 :: Cuts(c, b, b1, b2) ==> b == a && b1 == a1 && b2 == a2)
            <==> (|a.field + a1| == 1 || !IsSpace((a.field + a1)[|a.field + a1| - 1]))
  {
    var left := a.field + a1;
    var init, last := left[..|left| - 1], left[|left| - 1..];
    if |left| == 1 || !IsSpace(left[|left| - 1]) {
      forall b, b1, b2 | Cuts(c, b, b1, b2) ensures b == a && b1 == a1 && b2 == a2 {
        ConditionIsUnambiguous(c, a, a1, a2, b, b1, b2);
        if a1 != "" { GapShows(a.field, a1); }
        if b1 != "" { GapShows(b.field, b1); }
        assert a.field + "" == a.field && b.field + "" == b.field;
      }
    } else {
      OtherCut(c, a, a1, a2, left, "");
      OtherCut(c, a, a1, a2, init, last);
      assert Cuts(c, a.(field := left), "", a2) && Cuts(c, a.(field := init), last, a2);
      assert left != init;
    }
  }

  /** A space before the operator can end the field or be the gap; the parser makes it the gap. */
  lemma SpaceSplitsTwoWays(c: string, short: Condition, gap2: string)
    requires Cuts(c, short, " ", gap2) && !IsSpace(short.field[|short.field| - 1])
    ensures Cuts(c, short.(field := short.field + " "), "", gap2) && ParseCondition(c) == Some(short)
  {
    assert short.field != "";
    hide IsNumeral, ParseCondition, AfterDot, LazyField, Cuts;
    assert AllSpace("") && short.field + " " == (short.field + " ") + "";
    OtherCut(c, short, " ", gap2, short.field + " ", "");
    CutsAreParsed(c, short, " ", gap2);
    LazyFieldIsWhole(short.field, " ");
  }

  /** A text that can be cut in two ways: `a.b >5`. */
  lemma TwoSplitsExist()
    ensures var short := Condition("a", "b", ">", "5");
            var text := PrintCondition(short, " ", "");
            Cuts(text, short, " ", "") && Cuts(text, short.(field := "b "), "", "") && ParseCondition(text) == Some(short)
  {
    var short := Condition("a", "b", ">", "5");
    DigitIsNumeral('5');
    hide IsNumeral, ParseCondition, AfterDot;
    assert Cuts(PrintCondition(short, " ", ""), short, " ", "");
    assert short.field + " " == "b ";
    hide Cuts, PrintCondition;
    SpaceSplitsTwoWays(PrintCondition(short, " ", ""), short, "");
  }

  lemma GapShows(field: string, gap: string)
    requires field != "" && gap != "" && AllSpace(gap)
    ensures |field + gap| > 1 && IsSpace((field + gap)[|field + gap| - 1])
  {
    assert (field + gap)[|field + gap| - 1] == gap[|gap| - 1];
  }

  /** The regular expression accepts exactly the texts that can be cut along its groups. */
  lemma ConditionExact(c: string)
    ensures ParseCondition(c).Some? <==> exists cond, gap1, gap2 :: Cuts(c, cond, gap1, gap2)
  {
    if ParseCondition(c).Some? {
      ParsedIsCut(c);
    }
    if cond, gap1, gap2 :| Cuts(c, cond, gap1, gap2) {
      CutsAreParsed(c, cond, gap1, gap2);
    }
  }

  // ---------------------------------------------------------------- the whole rule

  datatype AlertRule = AlertRule(condition: Condition, action: Option<Action>)

  /** `parseAlertRule`. */
  function ParseAlertRule(rule: string): Option<AlertRule> {
    var sep := FirstIndex(rule, Colon);
    var actionText := if sep == |rule| then "" else Trim(rule[sep + 1..]);
    var condition := ParseCondition(Trim(rule[..sep]));
    if condition == None then None
    else
      var hasAction := actionText != "" && Lower(actionText) != "none";
      Some(AlertRule(condition.value, if hasAction then ParseChannelState(actionText) else None))
  }

  /** What may follow the condition, with white space wherever it is allowed. */
  datatype Ending =
    | Bare
    | Blank(s0: string)
    | NoneWord(s0: string, word: string, s1: string)
    | Acts(s0: string, action: Action, s1: string, s2: string, s3: string)

  predicate ProperEnding(e: Ending) {
    match e
    case Bare => true
    case Blank(s0) => AllSpace(s0)
    case NoneWord(s0, word, s1) => AllSpace(s0) && AllSpace(s1) && Lower(word) == "none"
    case Acts(s0, action, s1, s2, s3) =>
      ProperAction(action) && AllSpace(s0) && AllSpace(s1) && AllSpace(s2) && AllSpace(s3)
  }

  function ActionOf(e: Ending): Option<Action> {
    if e.Acts? then Some(e.action) else None
  }

  function PrintAction(a: Action, s1: string, s2: string): string {
    (a.key + s1) + ("=" + (s2 + a.value))
  }

  function PrintEnding(e: Ending): string {
    match e
    case Bare => ""
    case Blank(s0) => ":" + s0
    case NoneWord(s0, word, s1) => ":" + (s0 + word + s1)
    case Acts(s0, action, s1, s2, s3) => ":" + (s0 + PrintAction(action, s1, s2) + s3)
  }

  /** A condition whose parts the grammar can give back. */
  predicate ProperParts(c: Condition) {
    && c.metric != "" && Free(c.metric, Dot) && Free(c.metric, Colon) && !IsSpace(c.metric[0])
    && c.field != "" && Free(c.field, Comparison) && Free(c.field, Colon) && !IsSpace(c.field[|c.field| - 1])
    && c.operator in OPERATORS
  }

  function PrintCondition(c: Condition, gap1: string, gap2: string): string {
    c.metric + ("." + AfterDot(c, gap1, gap2))
  }

  lemma NumeralHasNoColon(s: string)
    requires IsNumeral(s)
    ensures Free(s, Colon)
  {
    var sign, whole, frac :| NumeralParts(s, sign, whole, frac);
    assert Free(whole, Colon);
    assert Free(frac, Colon) by {
      forall i | 0 <= i < |frac| ensures frac[i] != ':' { assert i > 0 ==> frac[i] == frac[1..][i - 1]; }
    }
    FreeConcat(sign, whole, Colon);
    FreeConcat(sign + whole, frac, Colon);
  }

  lemma SpaceHasNoColon(s: string)
    requires AllSpace(s)
    ensures Free(s, Colon)
  {
  }

  lemma ConditionHasNoColon(c: Condition, gap1: string, gap2: string)
    requires ProperParts(c) && IsNumeral(c.threshold) && AllSpace(gap1) && AllSpace(gap2)
    ensures Free(PrintCondition(c, gap1, gap2), Colon)
  {
    NumeralHasNoColon(c.threshold);
    SpaceHasNoColon(gap1);
    SpaceHasNoColon(gap2);
    assert Free(c.operator, Colon);
    hide IsNumeral, AllSpace;
    FreeConcat(gap2, c.threshold, Colon);
    FreeConcat(c.operator, gap2 + c.threshold, Colon);
    FreeConcat(c.field, gap1, Colon);
    FreeConcat(c.field + gap1, c.operator + (gap2 + c.threshold), Colon);
    FreeConcat(".", AfterDot(c, gap1, gap2), Colon);
    FreeConcat(c.metric, "." + AfterDot(c, gap1, gap2), Colon);
  }

  lemma ConditionIsTight(c: Condition, gap1: string, gap2: string)
    requires ProperParts(c) && IsNumeral(c.threshold)
    ensures Tight(PrintCondition(c, gap1, gap2))
    ensures var t := PrintCondition(c, gap1, gap2); t != "" && IsDigit(t[|t| - 1])
  {
    NumeralEnds(c.threshold);
    hide IsNumeral;
    var t := PrintCondition(c, gap1, gap2);
    assert t[0] == c.metric[0];
    assert AfterDot(c, gap1, gap2)[|AfterDot(c, gap1, gap2)| - 1] == c.threshold[|c.threshold| - 1];
    assert t[|t| - 1] == AfterDot(c, gap1, gap2)[|AfterDot(c, gap1, gap2)| - 1];
  }

  lemma LazyFieldIsWhole(field: string, gap: string)
    requires field != "" && !IsSpace(field[|field| - 1]) && AllSpace(gap)
    ensures LazyField(field + gap) == field
  {
    hide LazyField;
    LazyFieldWithin(field, gap);
    var f, s := LazyField(field + gap), field + gap;
    assert forall i :: |f| <= i < |s| ==> s[i] == s[|f|..][i - |f|];
    assert s[|field| - 1] == field[|field| - 1];
  }

  lemma ConditionReadsBack(c: Condition, gap1: string, gap2: string)
    requires ProperParts(c) && IsNumeral(c.threshold) && AllSpace(gap1) && AllSpace(gap2)
    ensures ParseCondition(PrintCondition(c, gap1, gap2)) == Some(c)
  {
    hide IsNumeral, ParseCondition, AllSpace, LazyField;
    CutsAreParsed(PrintCondition(c, gap1, gap2), c, gap1, gap2);
    LazyFieldIsWhole(c.field, gap1);
  }

  lemma EndingReadsBack(e: Ending)
    requires ProperEnding(e) && !e.Bare?
    ensures var text := Trim(PrintEnding(e)[1..]);
            ActionOf(e) == if text != "" && Lower(text) != "none" then ParseChannelState(text) else None
  {
    match e
    case Blank(s0) =>
      assert PrintEnding(e)[1..] == s0 + "" + "";
      TrimPadded(s0, "", "");
    case NoneWord(s0, word, s1) =>
      assert PrintEnding(e)[1..] == s0 + word + s1;
      assert LowerChar(word[0]) == 'n' && LowerChar(word[3]) == 'e';
      TrimPadded(s0, word, s1);
    case Acts(s0, action, s1, s2, s3) =>
      ActionReadsBack(s0, action, s1, s2, s3);
  }

  lemma ActionReadsBack(s0: string, a: Action, s1: string, s2: string, s3: string)
    requires ProperAction(a) && AllSpace(s0) && AllSpace(s1) && AllSpace(s2) && AllSpace(s3)
    ensures var text := Trim(PrintEnding(Acts(s0, a, s1, s2, s3))[1..]);
            text != "" && Lower(text) != "none" && ParseChannelState(text) == Some(a)
  {
    hide Trim, ParseChannelState, Tight, AllSpace, Lower, PrintAction, ProperAction;
    var t := PrintAction(a, s1, s2);
    assert PrintEnding(Acts(s0, a, s1, s2, s3))[1..] == s0 + t + s3;
    PrintedActionIsTight(a, s1, s2);
    TrimPadded(s0, t, s3);
    NotTheNoneWord(t, |a.key + s1|);
    PrintedActionParses(a, s1, s2);
  }

  lemma PrintedActionIsTight(a: Action, s1: string, s2: string)
    requires ProperAction(a)
    ensures var t := PrintAction(a, s1, s2); t != "" && Tight(t) && |a.key + s1| < |t| && t[|a.key + s1|] == '='
  {
    var t := PrintAction(a, s1, s2);
    assert t[0] == a.key[0] && t[|t| - 1] == a.value[|a.value| - 1];
  }

  lemma PrintedActionParses(a: Action, s1: string, s2: string)
    requires ProperAction(a) && AllSpace(s1) && AllSpace(s2)
    ensures ParseChannelState(PrintAction(a, s1, s2)) == Some(a)
  {
    ChannelStateReadsBack(a, "", s1, s2, "");
    hide ParseChannelState, AllSpace, ProperAction;
    assert PrintAction(a, s1, s2) == ("" + a.key + s1) + ("=" + (s2 + a.value + ""));
  }

  lemma NotTheNoneWord(t: string, i: nat)
    requires i < |t| && t[i] == '='
    ensures Lower(t) != "none"
  {
    hide Lower;
    assert Lower(t)[i] == '=';
    assert "none"[0] == 'n' && "none"[1] == 'o' && "none"[2] == 'n' && "none"[3] == 'e';
  }

  /** The first colon is the one before the ending. */
  lemma SeparatorFound(left: string, e: Ending)
    requires Free(left, Colon)
    ensures var rule, sep := left + PrintEnding(e), FirstIndex(left + PrintEnding(e), Colon);
            && sep == |left| && rule[..sep] == left && (e.Bare? <==> sep == |rule|)
            && (!e.Bare? ==> rule[sep + 1..] == PrintEnding(e)[1..])
  {
    FirstIndexAt(left, PrintEnding(e), Colon);
    hide FirstIndex;
  }

  /** A condition and an ending that are read separately are read together. */
  lemma RuleFromParts(left: string, c: Condition, e: Ending)
    requires Free(left, Colon) && ParseCondition(Trim(left)) == Some(c) && ProperEnding(e)
    ensures ParseAlertRule(left + PrintEnding(e)) == Some(AlertRule(c, ActionOf(e)))
  {
    hide ParseCondition, Trim, ParseChannelState, Lower, FirstIndex, ProperEnding, PrintEnding, Free;
    SeparatorFound(left, e);
    if !e.Bare? { EndingReadsBack(e); }
  }

  /** Round trip: every well-formed rule, with any white space around the operator, the `:` and
      the `=`, parses back to its metric, field, operator, threshold and action. */
  lemma RuleReadsBack(c: Condition, e: Ending, lead: string, gap1: string, gap2: string, trail: string)
    requires ProperParts(c) && IsNumeral(c.threshold) && ProperEnding(e)
    requires AllSpace(lead) && AllSpace(gap1) && AllSpace(gap2) && AllSpace(trail)
    ensures ParseAlertRule((lead + PrintCondition(c, gap1, gap2) + trail) + PrintEnding(e)) == Some(AlertRule(c, ActionOf(e)))
  {
    hide IsNumeral, PrintCondition, ParseCondition, ProperParts, Trim, ParseChannelState, Lower, FirstIndex, AllSpace, ProperEnding,
         ActionOf, Free, Tight;
    var text := PrintCondition(c, gap1, gap2);
    ConditionHasNoColon(c, gap1, gap2);
    ConditionIsTight(c, gap1, gap2);
    ConditionReadsBack(c, gap1, gap2);
    SpaceHasNoColon(lead);
    SpaceHasNoColon(trail);
    TrimPadded(lead, text, trail);
    FreeConcat(lead, text, Colon);
    FreeConcat(lead + text, trail, Colon);
    RuleFromParts(lead + text + trail, c, e);
  }

  /** The action of an accepted rule is what the text after its first colon reads as: there is
      none without a colon, and a text without `=`, such as `none`, reads as none. */
  lemma ActionExactly(rule: string, a: Action)
    requires ParseAlertRule(rule).Some?
    ensures ParseAlertRule(rule).value.action == Some(a) <==>
              var sep := FirstIndex(rule, Colon);
              sep < |rule| && ParseChannelState(rule[sep + 1..]) == Some(a)
  {
    hide ParseCondition, Trim, FirstIndex, ParseChannelState, Lower;
    var sep := FirstIndex(rule, Colon);
    if sep < |rule| {
      var text := rule[sep + 1..];
      TrimmedActionReads(text);
      if Trim(text) == "" || Lower(Trim(text)) == "none" {
        NoActionInNone(Trim(text));
      }
    }
  }

  lemma SpaceHasNoEquals(s: string)
    requires AllSpace(s)
    ensures Free(s, Equals)
  {
  }

  lemma NoEqualsNoAction(text: string)
    requires Free(text, Equals)
    ensures ParseChannelState(text) == None
  {
  }

  lemma EmptyIsSpace()
    ensures AllSpace("") && Tight("")
  {
  }

  lemma SpaceTrimsToNothing(a: string)
    requires AllSpace(a)
    ensures Trim(a + "") == ""
  {
    TrimPadded(a, "", "");
    assert a + "" + "" == a + "";
  }

  /** White space around an action does not change how it reads. */
  lemma PaddedActionReads(a: string, text: string, b: string)
    requires AllSpace(a) && AllSpace(b)
    ensures ParseChannelState(a + (text + b)) == ParseChannelState(text)
  {
    hide Trim, AllSpace, FirstIndex, Free;
    SpaceHasNoEquals(a);
    SpaceHasNoEquals(b);
    StopInMiddle(a, text, b, Equals);
    EmptyIsSpace();
    var i := FirstIndex(text, Equals);
    if i < |text| {
      var before, after := text[..i], text[i + 1..];
      TrimWithin(a, before, "");
      TrimWithin("", after, b);
      assert a + before + "" == a + before && "" + after + b == after + b;
      if i == 0 { SpaceTrimsToNothing(a); }
    } else {
      FreeBefore(text, Equals);
      assert text[..i] == text;
      FreeConcat(text, b, Equals);
      FreeConcat(a, text + b, Equals);
      NoEqualsNoAction(a + (text + b));
    }
  }

  lemma TrimmedActionReads(text: string)
    ensures ParseChannelState(Trim(text)) == ParseChannelState(text)
  {
    TrimShape(text);
    hide ParseChannelState, Trim, AllSpace;
    var a, b :| AllSpace(a) && AllSpace(b) && text == a + Trim(text) + b;
    assert text == a + (Trim(text) + b);
    PaddedActionReads(a, Trim(text), b);
  }

  lemma NoActionInNone(text: string)
    requires text == "" || Lower(text) == "none"
    ensures ParseChannelState(text) == None
  {
    var i := FirstIndex(text, Equals);
    if i < |text| {
      NotTheNoneWord(text, i);
    }
  }

  // ---------------------------------------------------------------- the anomaly detector's rule

  datatype Anomaly = Anomaly(metric: string, field: string, z: string, mean: string, stdDev: string)

  /** `lit` at the start of `s`, and what follows. */
  function After(lit: string, s: string): Option<string> {
    if |lit| <= |s| && s[..|lit|] == lit then Some(s[|lit|..]) else None
  }

  /** `parseAnomalyRule`: the regular expression on the trimmed rule, group by group. */
  function ParseAnomaly(rule: string): Option<Anomaly> {
    ParseTrimmed(Trim(rule))
  }

  function ParseTrimmed(c: string): Option<Anomaly> {
    var dot := FirstIndex(c, Dot);
    if dot == 0 || dot == |c| then None
    else
      var rest := c[dot + 1..];
      var n := FirstIndex(rest, Space);
      if n == 0 || n == |rest| then None else ParseZ(c[..dot], rest[..n], TrimStart(rest[n..]))
  }

  function ParseZ(metric: string, field: string, s: string): Option<Anomaly> {
    var t := After("z=", s);
    if t == None || NumeralLength(t.value) == 0 then None
    else
      var n := NumeralLength(t.value);
      ParseMean(metric, field, t.value[..n], TrimStart(t.value[n..]))
  }

  function ParseMean(metric: string, field: string, z: string, s: string): Option<Anomaly> {
    var t := After("(mean=", s);
    if t == None || NumeralLength(t.value) == 0 then None
    else
      var n := NumeralLength(t.value);
      var u := After(",", t.value[n..]);
      if u == None then None else ParseStdDev(metric, field, z, t.value[..n], TrimStart(u.value))
  }

  function ParseStdDev(metric: string, field: string, z: string, mean: string, s: string): Option<Anomaly> {
    var t := After("stddev=", s);
    if t == None || NumeralLength(t.value) == 0 then None
    else
      var n := NumeralLength(t.value);
      if t.value[n..] == ")" then Some(Anomaly(metric, field, z, mean, t.value[..n])) else None
  }

  function PrintStdDev(a: Anomaly): string {
    "stddev=" + (a.stdDev + ")")
  }

  function PrintMean(a: Anomaly, gap3: string): string {
    "(mean=" + (a.mean + ("," + (gap3 + PrintStdDev(a))))
  }

  function PrintZ(a: Anomaly, gap2: string, gap3: string): string {
    "z=" + (a.z + (gap2 + PrintMean(a, gap3)))
  }

  function PrintAnomaly(a: Anomaly, gap1: string, gap2: string, gap3: string): string {
    a.metric + ("." + (a.field + (gap1 + PrintZ(a, gap2, gap3))))
  }

  /** An anomaly rule, spelled out. */
  lemma AnomalySpelledOut(a: Anomaly, gap1: string, gap2: string, gap3: string)
    ensures PrintAnomaly(a, gap1, gap2, gap3)
         == (a.metric + "." + a.field + gap1)
            + ("z=" + a.z + gap2 + "(mean=" + a.mean + "," + gap3 + "stddev=" + a.stdDev + ")")
  {
    var mean := PrintMean(a, gap3);
    assert PrintZ(a, gap2, gap3) == ("z=" + a.z + gap2) + mean;
    hide PrintZ;
    assert mean == "(mean=" + a.mean + "," + gap3 + "stddev=" + a.stdDev + ")";
  }

  /** The language of the anomaly expression on a trimmed rule. */
  ghost predicate ProperAnomaly(a: Anomaly, gap1: string, gap2: string, gap3: string) {
    && a.metric != "" && Free(a.metric, Dot) && !IsSpace(a.metric[0])
    && a.field != "" && Free(a.field, Space)
    && IsNumeral(a.z) && IsNumeral(a.mean) && IsNumeral(a.stdDev)
    && gap1 != "" && AllSpace(gap1) && AllSpace(gap2) && AllSpace(gap3)
  }

  lemma NumeralBefore(n: string, rest: string)
    requires IsNumeral(n) && EndsNumeral(rest)
    ensures NumeralLength(n + rest) == |n| && n != "" && (n + rest)[..|n|] == n && (n + rest)[|n|..] == rest
  {
    NumeralAt(n, rest);
    hide NumeralLength, IsNumeral;
  }

  lemma StdDevReadsBack(a: Anomaly)
    requires IsNumeral(a.stdDev)
    ensures ParseStdDev(a.metric, a.field, a.z, a.mean, PrintStdDev(a)) == Some(a)
  {
    NumeralBefore(a.stdDev, ")");
    hide NumeralLength, IsNumeral;
    assert PrintStdDev(a)[..7] == "stddev=" && PrintStdDev(a)[7..] == a.stdDev + ")";
  }

  lemma MeanReadsBack(a: Anomaly, gap3: string)
    requires IsNumeral(a.mean) && IsNumeral(a.stdDev) && AllSpace(gap3)
    ensures ParseMean(a.metric, a.field, a.z, PrintMean(a, gap3)) == Some(a)
  {
    var rest := "," + (gap3 + PrintStdDev(a));
    NumeralBefore(a.mean, rest);
    TrimStartPadded(gap3, PrintStdDev(a));
    StdDevReadsBack(a);
    hide NumeralLength, IsNumeral, PrintStdDev, ParseStdDev, TrimStart;
    assert PrintMean(a, gap3)[..6] == "(mean=" && PrintMean(a, gap3)[6..] == a.mean + rest;
    assert rest[..1] == "," && rest[1..] == gap3 + PrintStdDev(a);
  }

  lemma ZReadsBack(a: Anomaly, gap2: string, gap3: string)
    requires IsNumeral(a.z) && IsNumeral(a.mean) && IsNumeral(a.stdDev) && AllSpace(gap2) && AllSpace(gap3)
    ensures ParseZ(a.metric, a.field, PrintZ(a, gap2, gap3)) == Some(a)
  {
    hide NumeralLength, IsNumeral, ParseMean, TrimStart;
    var rest := gap2 + PrintMean(a, gap3);
    assert PrintMean(a, gap3)[0] == '(';
    hide PrintMean;
    assert rest[0] == if gap2 == "" then '(' else gap2[0];
    assert EndsNumeral(rest);
    NumeralBefore(a.z, rest);
    TrimStartPadded(gap2, PrintMean(a, gap3));
    MeanReadsBack(a, gap3);
    assert PrintZ(a, gap2, gap3)[..2] == "z=" && PrintZ(a, gap2, gap3)[2..] == a.z + rest;
  }

  lemma AnomalyEnds(a: Anomaly, gap1: string, gap2: string, gap3: string)
    requires a.metric != "" && !IsSpace(a.metric[0])
    ensures var t := PrintAnomaly(a, gap1, gap2, gap3); t != "" && Tight(t) && t[|t| - 1] == ')'
  {
    var t := PrintAnomaly(a, gap1, gap2, gap3);
    assert t[0] == a.metric[0];
    assert PrintStdDev(a)[|PrintStdDev(a)| - 1] == ')';
    assert PrintMean(a, gap3)[|PrintMean(a, gap3)| - 1] == ')';
    assert PrintZ(a, gap2, gap3)[|PrintZ(a, gap2, gap3)| - 1] == ')';
    hide PrintZ;
    assert t[|t| - 1] == PrintZ(a, gap2, gap3)[|PrintZ(a, gap2, gap3)| - 1];
  }

  lemma TrimmedAnomalyReadsBack(a: Anomaly, gap1: string, gap2: string, gap3: string)
    requires ProperAnomaly(a, gap1, gap2, gap3)
    ensures ParseTrimmed(PrintAnomaly(a, gap1, gap2, gap3)) == Some(a)
  {
    hide IsNumeral, ParseZ, TrimStart, FirstIndex, Free;
    var z := PrintZ(a, gap2, gap3);
    ZReadsBack(a, gap2, gap3);
    assert z[0] == 'z';
    hide PrintZ;
    TrimStartPadded(gap1, z);
    var rest := a.field + (gap1 + z);
    SplitsAt(a.metric, "." + rest, Dot);
    assert ("." + rest)[1..] == rest;
    assert (gap1 + z)[0] == gap1[0];
    SplitsAt(a.field, gap1 + z, Space);
  }

  /** Round trip: an anomaly rule parses back to its five parts, whatever white space is used. */
  lemma AnomalyReadsBack(a: Anomaly, lead: string, gap1: string, gap2: string, gap3: string, trail: string)
    requires ProperAnomaly(a, gap1, gap2, gap3) && AllSpace(lead) && AllSpace(trail)
    ensures ParseAnomaly(lead + PrintAnomaly(a, gap1, gap2, gap3) + trail) == Some(a)
  {
    AnomalyEnds(a, gap1, gap2, gap3);
    hide PrintAnomaly, ParseTrimmed, Trim;
    TrimPadded(lead, PrintAnomaly(a, gap1, gap2, gap3), trail);
    TrimmedAnomalyReadsBack(a, gap1, gap2, gap3);
  }

  lemma AfterSplits(lit: string, s: string)
    requires After(lit, s).Some?
    ensures s == lit + After(lit, s).value
  {
  }

  lemma NumeralSplits(s: string)
    requires NumeralLength(s) > 0
    ensures var n := NumeralLength(s); IsNumeral(s[..n]) && s == s[..n] + s[n..]
  {
    NumeralShape(s);
    hide NumeralLength, IsNumeral;
  }

  lemma StdDevIsPrinted(metric: string, field: string, z: string, mean: string, s: string)
    requires ParseStdDev(metric, field, z, mean, s).Some?
    ensures var a := ParseStdDev(metric, field, z, mean, s).value;
            && a == Anomaly(metric, field, z, mean, a.stdDev) && IsNumeral(a.stdDev) && s == PrintStdDev(a)
  {
    AfterSplits("stddev=", s);
    NumeralSplits(After("stddev=", s).value);
    hide After, NumeralLength, IsNumeral;
  }

  lemma MeanIsPrinted(metric: string, field: string, z: string, s: string)
    requires ParseMean(metric, field, z, s).Some?
    ensures var a := ParseMean(metric, field, z, s).value;
            && a == Anomaly(metric, field, z, a.mean, a.stdDev) && IsNumeral(a.mean) && IsNumeral(a.stdDev)
            && exists gap3 :: AllSpace(gap3) && s == PrintMean(a, gap3)
  {
    AfterSplits("(mean=", s);
    var t := After("(mean=", s).value;
    NumeralSplits(t);
    hide After, NumeralLength, IsNumeral, ParseStdDev, PrintStdDev, TrimStart, AllSpace;
    var n := NumeralLength(t);
    AfterSplits(",", t[n..]);
    var u := After(",", t[n..]).value;
    StdDevIsPrinted(metric, field, z, t[..n], TrimStart(u));
    TrimStartShape(u);
    var a := ParseMean(metric, field, z, s).value;
    var gap3 :| AllSpace(gap3) && u == gap3 + TrimStart(u);
    assert s == PrintMean(a, gap3);
  }

  lemma ZIsPrinted(metric: string, field: string, s: string)
    requires ParseZ(metric, field, s).Some?
    ensures var a := ParseZ(metric, field, s).value;
            && a == Anomaly(metric, field, a.z, a.mean, a.stdDev)
            && IsNumeral(a.z) && IsNumeral(a.mean) && IsNumeral(a.stdDev)
            && exists gap2, gap3 :: AllSpace(gap2) && AllSpace(gap3) && s == PrintZ(a, gap2, gap3)
  {
    AfterSplits("z=", s);
    var t := After("z=", s).value;
    NumeralSplits(t);
    hide After, NumeralLength, IsNumeral, ParseMean, PrintMean, TrimStart, AllSpace;
    var n := NumeralLength(t);
    MeanIsPrinted(metric, field, t[..n], TrimStart(t[n..]));
    TrimStartShape(t[n..]);
    var a := ParseZ(metric, field, s).value;
    var gap2 :| AllSpace(gap2) && t[n..] == gap2 + TrimStart(t[n..]);
    var gap3 :| AllSpace(gap3) && TrimStart(t[n..]) == PrintMean(a, gap3);
    assert s == PrintZ(a, gap2, gap3);
  }

  /** Conversely, what the anomaly parser accepts is the print of its result. */
  lemma AnomalyIsPrinted(c: string)
    requires Tight(c) && ParseTrimmed(c).Some?
    ensures var a := ParseTrimmed(c).value;
            exists gap1, gap2, gap3 :: ProperAnomaly(a, gap1, gap2, gap3) && c == PrintAnomaly(a, gap1, gap2, gap3)
  {
    hide FirstIndex, IsNumeral, ParseZ, PrintZ, TrimStart, AllSpace;
    var dot := FirstIndex(c, Dot);
    var rest := c[dot + 1..];
    var n := FirstIndex(rest, Space);
    var a, body := ParseTrimmed(c).value, TrimStart(rest[n..]);
    ZIsPrinted(c[..dot], rest[..n], body);
    var gap2, gap3 :| AllSpace(gap2) && AllSpace(gap3) && body == PrintZ(a, gap2, gap3);
    TrimStartShape(rest[n..]);
    var gap1 :| AllSpace(gap1) && rest[n..] == gap1 + body;
    GapIsNotEmpty(rest, n, gap1, body);
    assert Free(a.metric, Dot) && Free(a.field, Space);
    hide ParseTrimmed;
    assert rest == a.field + (gap1 + body);
    AnomalyFromParts(c, dot, a, gap1, gap2, gap3);
  }

  lemma AnomalyFromParts(c: string, dot: nat, a: Anomaly, gap1: string, gap2: string, gap3: string)
    requires 0 < dot < |c| && c[dot] == '.' && a.metric == c[..dot] && !IsSpace(c[0])
    requires c[dot + 1..] == a.field + (gap1 + PrintZ(a, gap2, gap3))
    requires a.field != "" && gap1 != "" && Free(a.metric, Dot) && Free(a.field, Space)
    requires IsNumeral(a.z) && IsNumeral(a.mean) && IsNumeral(a.stdDev)
    requires AllSpace(gap1) && AllSpace(gap2) && AllSpace(gap3)
    ensures ProperAnomaly(a, gap1, gap2, gap3) && c == PrintAnomaly(a, gap1, gap2, gap3)
  {
    hide IsNumeral, PrintZ, AllSpace, Free;
    assert c == c[..dot] + ([c[dot]] + c[dot + 1..]);
  }

  lemma GapIsNotEmpty(rest: string, n: nat, gap: string, body: string)
    requires n < |rest| && IsSpace(rest[n]) && rest[n..] == gap + body && (body == "" || !IsSpace(body[0]))
    ensures gap != ""
  {
    assert rest[n..][0] == rest[n];
    assert gap == "" ==> gap + body == body;
  }

  // ---------------------------------------------------------------- the two shapes cannot be confused

  lemma AnomalyEndsInParenthesis(rule: string)
    requires ParseAnomaly(rule).Some?
    ensures Trim(rule) != "" && Trim(rule)[|Trim(rule)| - 1] == ')'
  {
    hide Trim, ParseTrimmed, PrintAnomaly;
    TrimShape(rule);
    AnomalyIsPrinted(Trim(rule));
    var a := ParseAnomaly(rule).value;
    var gap1, gap2, gap3 :| ProperAnomaly(a, gap1, gap2, gap3) && Trim(rule) == PrintAnomaly(a, gap1, gap2, gap3);
    AnomalyEnds(a, gap1, gap2, gap3);
  }

  lemma ConditionEndsInDigit(c: string)
    requires ParseCondition(c).Some?
    ensures c != "" && IsDigit(c[|c| - 1])
  {
    ParsedIsCut(c);
    hide ParseCondition, IsNumeral;
    var cond := ParseCondition(c).value;
    var gap1, gap2 :| Cuts(c, cond, gap1, gap2);
    NumeralEnds(cond.threshold);
    assert AfterDot(cond, gap1, gap2)[|AfterDot(cond, gap1, gap2)| - 1] == cond.threshold[|cond.threshold| - 1];
  }

  datatype Recognised = Alert(rule: AlertRule) | Unusual(anomaly: Anomaly) | Unknown

  /** The order `parseAlertPayload` tries the two parsers in, on an already trimmed rule. */
  function AlertFirst(rule: string): Recognised {
    if ParseAlertRule(rule).Some? then Alert(ParseAlertRule(rule).value)
    else if ParseAnomaly(rule).Some? then Unusual(ParseAnomaly(rule).value)
    else Unknown
  }

  function AnomalyFirst(rule: string): Recognised {
    if ParseAnomaly(rule).Some? then Unusual(ParseAnomaly(rule).value)
    else if ParseAlertRule(rule).Some? then Alert(ParseAlertRule(rule).value)
    else Unknown
  }

  lemma WholeRuleIsCondition(rule: string)
    requires Free(rule, Colon) && ParseAlertRule(rule).Some?
    ensures ParseCondition(Trim(rule)).Some?
  {
    hide ParseCondition, Trim, Lower, ParseChannelState;
    assert FirstIndex(rule, Colon) == |rule| && rule[..|rule|] == rule;
  }

  /** On rules without a colon the order of the two parsers does not matter: none accepts what
      the other accepts. */
  lemma NoConfusionWithoutColon(rule: string)
    requires Free(rule, Colon)
    ensures ParseAlertRule(rule) == None || ParseAnomaly(rule) == None
    ensures AlertFirst(rule) == AnomalyFirst(rule)
  {
    hide ParseAlertRule, ParseAnomaly, ParseCondition, Trim;
    if ParseAlertRule(rule).Some? && ParseAnomaly(rule).Some? {
      WholeRuleIsCondition(rule);
      ConditionEndsInDigit(Trim(rule));
      AnomalyEndsInParenthesis(rule);
      assert false;
    }
  }

  lemma ZHasNoColon(a: Anomaly, gap1: string, gap2: string, gap3: string)
    requires ProperAnomaly(a, gap1, gap2, gap3)
    ensures Free(gap1 + PrintZ(a, gap2, gap3), Colon)
  {
    NumeralHasNoColon(a.z);
    NumeralHasNoColon(a.mean);
    NumeralHasNoColon(a.stdDev);
    SpaceHasNoColon(gap1);
    SpaceHasNoColon(gap2);
    SpaceHasNoColon(gap3);
    hide IsNumeral, AllSpace;
    FreeConcat(a.stdDev, ")", Colon);
    FreeConcat("stddev=", a.stdDev + ")", Colon);
    FreeConcat(gap3, PrintStdDev(a), Colon);
    FreeConcat(",", gap3 + PrintStdDev(a), Colon);
    FreeConcat(a.mean, "," + (gap3 + PrintStdDev(a)), Colon);
    FreeConcat("(mean=", a.mean + ("," + (gap3 + PrintStdDev(a))), Colon);
    FreeConcat(gap2, PrintMean(a, gap3), Colon);
    FreeConcat(a.z, gap2 + PrintMean(a, gap3), Colon);
    FreeConcat("z=", a.z + (gap2 + PrintMean(a, gap3)), Colon);
    FreeConcat(gap1, PrintZ(a, gap2, gap3), Colon);
  }

  /** The metric and field of an anomaly, as its rule spells them. */
  function Subject(a: Anomaly): string {
    a.metric + ("." + a.field)
  }

  /** The text before the first colon of the subject is a threshold condition. */
  predicate HidesCondition(a: Anomaly) {
    var sep := FirstIndex(Subject(a), Colon);
    sep < |Subject(a)| && ParseCondition(Trim(Subject(a)[..sep])).Some?
  }

  /** A rule is accepted exactly when the text before its first colon is a condition. */
  lemma AcceptedExactly(rule: string)
    ensures ParseAlertRule(rule).Some? <==> ParseCondition(Trim(rule[..FirstIndex(rule, Colon)])).Some?
  {
    hide ParseCondition, Trim, Lower, ParseChannelState, FirstIndex;
  }

  /** Exactly when the two shapes are confused: among the rules that the anomaly parser accepts,
      the alert parser accepts those whose `metric.field` holds a colon with a threshold
      condition before it, and for those, and only those, the order of the parsers decides. */
  lemma ConfusionExactly(rule: string)
    requires ParseAnomaly(rule).Some?
    ensures ParseAlertRule(rule).Some? <==> HidesCondition(ParseAnomaly(rule).value)
    ensures AlertFirst(rule) != AnomalyFirst(rule) <==> HidesCondition(ParseAnomaly(rule).value)
  {
    hide ParseAlertRule, ParseAnomaly, ParseCondition, ParseTrimmed, IsNumeral, PrintZ, Trim, FirstIndex, Tight, Free, AllSpace,
         ProperAnomaly;
    var a := ParseAnomaly(rule).value;
    var lead, subject, rest := AnomalyRule(rule);
    StopInMiddle(lead, subject, rest, Colon);
    var sep := FirstIndex(subject, Colon);
    if sep == |subject| {
      FreeBefore(subject, Colon);
      assert subject[..sep] == subject;
      FreeConcat(subject, rest, Colon);
      FreeConcat(lead, subject + rest, Colon);
      NoConfusionWithoutColon(rule);
    } else {
      AcceptedExactly(rule);
      TrimLead(lead, subject[..sep]);
    }
  }

  /** A rule that the anomaly parser accepts: white space, its subject, and no colon after that. */
  lemma AnomalyRule(rule: string) returns (lead: string, subject: string, rest: string)
    requires ParseAnomaly(rule).Some?
    ensures AllSpace(lead) && Free(lead, Colon) && subject == Subject(ParseAnomaly(rule).value) && Free(rest, Colon)
    ensures rule == lead + (subject + rest)
  {
    hide ParseTrimmed, IsNumeral, PrintZ, Trim, Tight, Free, AllSpace, ProperAnomaly;
    var a := ParseAnomaly(rule).value;
    TrimShape(rule);
    AnomalyIsPrinted(Trim(rule));
    var gap1, gap2, gap3 :| ProperAnomaly(a, gap1, gap2, gap3) && Trim(rule) == PrintAnomaly(a, gap1, gap2, gap3);
    var trail: string;
    lead, trail :| AllSpace(lead) && AllSpace(trail) && rule == lead + Trim(rule) + trail;
    var z := gap1 + PrintZ(a, gap2, gap3);
    subject, rest := Subject(a), z + trail;
    ZHasNoColon(a, gap1, gap2, gap3);
    SpaceHasNoColon(lead);
    SpaceHasNoColon(trail);
    FreeConcat(z, trail, Colon);
    SubjectFirst(lead, a, z, trail);
  }

  lemma SubjectFirst(lead: string, a: Anomaly, z: string, trail: string)
    ensures lead + (a.metric + ("." + (a.field + z))) + trail == lead + (Subject(a) + (z + trail))
  {
    assert a.metric + ("." + (a.field + z)) == Subject(a) + z;
  }

  lemma ConfusingSubject()
    ensures Subject(Anomaly("a", "b>5:c", "1", "1", "1")) == PrintCondition(Condition("a", "b", ">", "5"), "", "") + (":" + "c")
  {
    assert AfterDot(Condition("a", "b", ">", "5"), "", "") == "b>5";
  }

  /** A subject that is a condition and a colon hides that condition. */
  lemma ConditionHides(c: Condition, a: Anomaly, suffix: string)
    requires ProperParts(c) && IsNumeral(c.threshold) && Subject(a) == PrintCondition(c, "", "") + (":" + suffix)
    ensures HidesCondition(a)
  {
    hide IsNumeral, ParseCondition, Trim, Tight, FirstIndex, PrintCondition, Subject, Free;
    var text := PrintCondition(c, "", "");
    ConditionHasNoColon(c, "", "");
    ConditionIsTight(c, "", "");
    ConditionReadsBack(c, "", "");
    TrimTight(text);
    SplitsAt(text, ":" + suffix, Colon);
  }

  /** Such a rule exists: `a.b>5:c z=1 (mean=1, stddev=1)`. */
  lemma ConfusingRuleExists()
    ensures var rule := PrintAnomaly(Anomaly("a", "b>5:c", "1", "1", "1"), " ", " ", " ");
            ParseAlertRule(rule).Some? && ParseAnomaly(rule).Some? && AlertFirst(rule) != AnomalyFirst(rule)
  {
    var c, a := Condition("a", "b", ">", "5"), Anomaly("a", "b>5:c", "1", "1", "1");
    hide IsNumeral, ParseAlertRule, ParseAnomaly, PrintAnomaly, PrintCondition, Subject, HidesCondition, AlertFirst, AnomalyFirst;
    DigitIsNumeral('1');
    DigitIsNumeral('5');
    ConfusingSubject();
    AnomalyReadsBack(a, "", " ", " ", " ", "");
    assert "" + PrintAnomaly(a, " ", " ", " ") + "" == PrintAnomaly(a, " ", " ", " ");
    ConditionHides(c, a, "c");
    ConfusionExactly(PrintAnomaly(a, " ", " ", " "));
  }
}
