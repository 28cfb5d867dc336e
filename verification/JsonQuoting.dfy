/** Which integers of an arbitrary text the scanner quotes, said position by position and
    without the scanner: a reference definition for `JsonBigInt.Pieces`. */
module JsonQuoting {
  import opened JsonBigInt
  import opened Text

  /** Whether a position lies outside every string literal, inside one, or after its backslash. */
  datatype Mode = Outside | Inside | Escaped

  function ModeAt(s: string, i: nat): Mode
    requires i <= |s|
  {
    if i == 0 then Outside
    else match ModeAt(s, i - 1)
      case Outside => if s[i - 1] == '"' then Inside else Outside
      case Inside => if s[i - 1] == '\\' then Escaped else if s[i - 1] == '"' then Outside else Inside
      case Escaped => Inside
  }

  /** No longer number token starts before position `i` and runs over it. */
  predicate Fresh(s: string, i: nat)
    requires i <= |s|
  {
    i == |s| || !IsDigit(s[i]) || i == 0 || !StartsNumber(s[i - 1])
  }

  /** A maximal integer token starts at `i`, outside strings, out of range and not the head of a float. */
  predicate BigIntegerAt(s: string, i: nat) {
    && i < |s| && ModeAt(s, i) == Outside
    && (s[i] == '-' || IsDigit(s[i])) && Fresh(s, i)
    && var t := s[i..];
       var n := NumberLength(t);
       (n == |t| || t[n] !in {'.', 'e', 'E'}) && Value(t[SignLength(t)..n]) >= Pow2(53)
  }

  /** The piece of `ps` that starts at offset `i` is a quoted integer. */
  predicate QuotedAt(ps: seq<Piece>, i: int) {
    ps != [] && ((i == 0 && ps[0].Quoted?) || QuotedAt(ps[1..], i - |ps[0].text|))
  }

  lemma {:induction false} NothingQuotedBefore(ps: seq<Piece>, i: int)
    requires i < 0
    ensures !QuotedAt(ps, i)
  {
    if ps == [] {
    } else {
      NothingQuotedBefore(ps[1..], i - |ps[0].text|);
    }
  }

  lemma BodyFrom(s: string, j: nat)
    requires j < |s|
    ensures BodyLength(s[j..]) ==
            if s[j] == '\\' then if j + 1 == |s| then 1 else 2 + BodyLength(s[j + 2..])
            else if s[j] == '"' then 1
            else 1 + BodyLength(s[j + 1..])
    ensures BodyLength(s[|s|..]) == 0
  {
    assert s[j..][1..] == s[j + 1..];
    assert j + 1 < |s| ==> s[j..][2..] == s[j + 2..];
  }

  /** From inside a literal, the scan of its body keeps to the positions of that literal. */
  lemma {:induction false} BodyModes(s: string, j: nat)
    requires j <= |s| && ModeAt(s, j) == Inside
    ensures var e := j + BodyLength(s[j..]);
            && (forall i :: j <= i < e ==> ModeAt(s, i) != Outside)
            && (e < |s| ==> ModeAt(s, e) == Outside && s[e - 1] == '"')
    decreases |s| - j
  {
    if j == |s| {
    } else {
      BodyFrom(s, j);
      hide BodyLength;
      if s[j] == '\\' {
        if j + 1 < |s| {
          assert ModeAt(s, j + 1) == Escaped;
          BodyModes(s, j + 2);
        }
      } else if s[j] != '"' {
        BodyModes(s, j + 1);
      }
    }
  }

  /** No quote in a stretch means no string literal opens in it. */
  lemma {:induction false} StaysOutside(s: string, b: nat, e: nat)
    requires b <= e <= |s| && ModeAt(s, b) == Outside
    requires forall i :: b <= i < e ==> s[i] != '"'
    ensures forall i :: b <= i <= e ==> ModeAt(s, i) == Outside
    decreases e
  {
    if b == e {
    } else {
      StaysOutside(s, b, e - 1);
    }
  }

  ghost predicate Boundary(s: string, b: nat) {
    b <= |s| && ModeAt(s, b) == Outside && Fresh(s, b)
  }

  /** What the scan makes of the piece at a boundary agrees with the definition. */
  ghost predicate HeadAgreesAt(s: string, b: nat)
    requires b < |s|
  {
    var h := Head(s[b..]);
    && (h.Quoted? <==> BigIntegerAt(s, b))
    && (forall i :: b < i < b + |h.text| ==> !BigIntegerAt(s, i))
    && (b + |h.text| < |s| ==> Boundary(s, b + |h.text|))
  }

  lemma StringAgrees(s: string, b: nat)
    requires Boundary(s, b) && b < |s| && s[b] == '"'
    ensures HeadAgreesAt(s, b)
  {
    assert ModeAt(s, b + 1) == Inside;
    assert s[b..][1..] == s[b + 1..];
    BodyModes(s, b + 1);
    hide BodyLength, ModeAt, NumberLength;
  }

  lemma NumberAgrees(s: string, b: nat)
    requires Boundary(s, b) && b < |s| && StartsNumber(s[b])
    ensures HeadAgreesAt(s, b)
  {
    MaxSafeIsPow2();
    hide ModeAt, NumberLength, Value, Pow2;
    var t := s[b..];
    var n := NumberLength(t);
    NumberIsDigits(s, b);
    StaysOutside(s, b, b + n);
    assert b + n < |s| ==> t[n] == s[b + n];
    assert |Head(t).text| == n;
  }

  lemma NumberIsDigits(s: string, b: nat)
    requires b < |s| && StartsNumber(s[b])
    ensures forall i :: b < i < b + NumberLength(s[b..]) ==> IsDigit(s[i])
  {
    var t := s[b..];
    var n, d := NumberLength(t), SignLength(t);
    hide NumberLength;
    forall i | b < i < b + n ensures IsDigit(s[i]) { assert s[i] == t[d..n][i - b - d]; }
  }

  /** The head of the scan at a boundary is quoted just when the definition says so, no other
      integer starts within it, and it ends at a boundary again. */
  lemma HeadAgrees(s: string, b: nat)
    requires Boundary(s, b) && b < |s|
    ensures HeadAgreesAt(s, b)
  {
    if s[b] == '"' {
      StringAgrees(s, b);
    } else if StartsNumber(s[b]) {
      NumberAgrees(s, b);
    } else {
      StaysOutside(s, b, b + 1);
      hide ModeAt, NumberLength;
    }
  }

  lemma {:induction false} PiecesAgree(s: string, b: nat, i: nat)
    requires Boundary(s, b) && b <= i < |s|
    ensures QuotedAt(Pieces(s[b..]), i - b) <==> BigIntegerAt(s, i)
    decreases |s| - b
  {
    hide Head, BigIntegerAt, ModeAt;
    var t := s[b..];
    var h, ps := Head(t), Pieces(t);
    var e := b + |h.text|;
    HeadAgrees(s, b);
    assert ps[0] == h && ps[1..] == Pieces(t[|h.text|..]);
    assert t[|h.text|..] == s[e..];
    if i < e {
      NothingQuotedBefore(ps[1..], i - e);
    } else {
      PiecesAgree(s, e, i);
    }
  }

  /** For every text, valid JSON or not, the quoted pieces start exactly at the maximal integers
      above 2^53 - 1 that lie outside string literals and are not the head of a float. */
  lemma QuotesExactlyBigIntegers(s: string, i: nat)
    requires i < |s|
    ensures QuotedAt(Pieces(s), i) <==> BigIntegerAt(s, i)
  {
    assert s[0..] == s;
    PiecesAgree(s, 0, i);
  }
}
