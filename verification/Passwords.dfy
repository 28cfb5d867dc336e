/** The in-place shuffle and the password generator; every random number is an input. */
module Passwords {

  // ---------------------------------------------------------------- the shuffle as a function of its choices

  function Swap<T>(s: seq<T>, i: nat, j: nat): (t: seq<T>)
    requires i < |s| && j < |s|
    ensures |t| == |s|
  {
    s[i := s[j]][j := s[i]]
  }

  /** One choice per position: position `k` is swapped with one of 0..k. */
  ghost predicate ChoiceVector(js: seq<nat>) {
    forall k :: 0 <= k < |js| ==> js[k] <= k
  }

  /** What is left of the shuffle when positions `n` and above are settled. */
  ghost function Shuffled<T>(s: seq<T>, js: seq<nat>, n: nat): (t: seq<T>)
    requires n <= |s| && n <= |js| && ChoiceVector(js)
    ensures |t| == |s| && forall k :: n <= k < |s| ==> t[k] == s[k]
    decreases n
  {
    if n <= 1 then s else Shuffled(Swap(s, n - 1, js[n - 1]), js, n - 1)
  }

  ghost predicate Distinct<T>(s: seq<T>) {
    forall i, j :: 0 <= i < j < |s| ==> s[i] != s[j]
  }

  lemma SwapIsPermutation<T>(s: seq<T>, i: nat, j: nat)
    requires i < |s| && j < |s|
    ensures multiset(Swap(s, i, j)) == multiset(s)
  {
  }

  lemma ShuffledStep<T>(s: seq<T>, js: seq<nat>, n: nat)
    requires n <= |s| && n <= |js| && ChoiceVector(js)
    ensures Shuffled(s, js, n) == if n <= 1 then s else Shuffled(Swap(s, n - 1, js[n - 1]), js, n - 1)
  {
  }

  lemma {:induction false} ShuffledIsPermutation<T>(s: seq<T>, js: seq<nat>, n: nat)
    requires n <= |s| && n <= |js| && ChoiceVector(js)
    ensures multiset(Shuffled(s, js, n)) == multiset(s)
    decreases n
  {
    hide Shuffled, Swap;
    ShuffledStep(s, js, n);
    if n <= 1 {
    } else {
      SwapIsPermutation(s, n - 1, js[n - 1]);
      ShuffledIsPermutation(Swap(s, n - 1, js[n - 1]), js, n - 1);
    }
  }

  /** Different choices give different orders. */
  lemma {:induction false} ChoicesAreDetermined<T>(s: seq<T>, js: seq<nat>, ks: seq<nat>, n: nat)
    requires n <= |s| && n <= |js| && n <= |ks| && ChoiceVector(js) && ChoiceVector(ks)
    requires Distinct(s) && Shuffled(s, js, n) == Shuffled(s, ks, n)
    ensures forall k :: 0 <= k < n ==> js[k] == ks[k]
    decreases n
  {
    if n <= 1 {
    } else {
      hide Shuffled;
      ShuffledStep(s, js, n);
      ShuffledStep(s, ks, n);
      var a, b := Swap(s, n - 1, js[n - 1]), Swap(s, n - 1, ks[n - 1]);
      assert Shuffled(a, js, n - 1)[n - 1] == s[js[n - 1]] && Shuffled(b, ks, n - 1)[n - 1] == s[ks[n - 1]];
      assert js[n - 1] == ks[n - 1];
      ChoicesAreDetermined(a, js, ks, n - 1);
    }
  }

  ghost function IndexOf<T>(s: seq<T>, x: T): (i: nat)
    requires x in s
    ensures i < |s| && s[i] == x
  {
    if s[0] == x then 0 else 1 + IndexOf(s[1..], x)
  }

  /** The choices that bring `s`, already settled from `n` on, into the order `t`. */
  ghost function ChoicesFor<T>(s: seq<T>, t: seq<T>, n: nat): (js: seq<nat>)
    requires n <= |s| == |t| && multiset(s[..n]) == multiset(t[..n])
    ensures |js| == n && ChoiceVector(js)
    decreases n
  {
    if n == 0 then []
    else
      LastIsInPrefix(s, t, n);
      var j := IndexOf(s[..n], t[n - 1]);
      SwapSettles(s, t, n, j);
      ChoicesFor(Swap(s, n - 1, j), t, n - 1) + [j]
  }

  lemma LastIsInPrefix<T>(s: seq<T>, t: seq<T>, n: nat)
    requires 0 < n <= |s| == |t| && multiset(s[..n]) == multiset(t[..n])
    ensures t[n - 1] in s[..n]
  {
    assert t[..n][n - 1] in multiset(t[..n]);
  }

  lemma DropLast<T>(s: seq<T>, n: nat)
    requires 0 < n <= |s|
    ensures multiset(s[..n - 1]) == multiset(s[..n]) - multiset{s[n - 1]}
  {
    assert s[..n] == s[..n - 1] + [s[n - 1]];
  }

  lemma SwapPrefix<T>(s: seq<T>, n: nat, j: nat)
    requires j < n <= |s|
    ensures Swap(s, n - 1, j)[..n] == Swap(s[..n], n - 1, j) && Swap(s, n - 1, j)[n - 1] == s[j]
  {
  }

  lemma SwapSettles<T>(s: seq<T>, t: seq<T>, n: nat, j: nat)
    requires 0 < n <= |s| == |t| && multiset(s[..n]) == multiset(t[..n])
    requires j < n && s[j] == t[n - 1]
    ensures multiset(Swap(s, n - 1, j)[..n - 1]) == multiset(t[..n - 1])
  {
    hide Swap;
    SwapPrefix(s, n, j);
    SwapIsPermutation(s[..n], n - 1, j);
    DropLast(Swap(s, n - 1, j), n);
    DropLast(t, n);
  }

  /** The choice made for the last open position, and what it leaves to be done. */
  lemma ChoicesStep<T>(s: seq<T>, t: seq<T>, n: nat) returns (j: nat)
    requires 0 < n <= |s| == |t| && multiset(s[..n]) == multiset(t[..n])
    requires forall k :: n <= k < |s| ==> s[k] == t[k]
    ensures j < n && multiset(Swap(s, n - 1, j)[..n - 1]) == multiset(t[..n - 1])
    ensures forall k :: n - 1 <= k < |s| ==> Swap(s, n - 1, j)[k] == t[k]
    ensures ChoicesFor(s, t, n) == ChoicesFor(Swap(s, n - 1, j), t, n - 1) + [j]
  {
    LastIsInPrefix(s, t, n);
    j := IndexOf(s[..n], t[n - 1]);
    SwapSettles(s, t, n, j);
  }

  lemma {:induction false} ChoicesReach<T>(s: seq<T>, t: seq<T>, n: nat)
    requires n <= |s| == |t| && multiset(s[..n]) == multiset(t[..n])
    requires forall k :: n <= k < |s| ==> s[k] == t[k]
    ensures Shuffled(s, ChoicesFor(s, t, n), n) == t
    decreases n
  {
    hide Shuffled, Swap, ChoicesFor;
    var js := ChoicesFor(s, t, n);
    ShuffledStep(s, js, n);
    if n == 0 {
    } else {
      var j := ChoicesStep(s, t, n);
      var a := Swap(s, n - 1, j);
      ChoicesReach(a, t, n - 1);
      OnlyPrefixCounts(a, ChoicesFor(a, t, n - 1), js, n - 1);
      if n == 1 {
        SwapWithItself(s, 0);
        ShuffledStep(a, js, 0);
      }
    }
  }

  lemma SwapWithItself<T>(s: seq<T>, i: nat)
    requires i < |s|
    ensures Swap(s, i, i) == s
  {
  }

  lemma {:induction false} OnlyPrefixCounts<T>(s: seq<T>, js: seq<nat>, ks: seq<nat>, n: nat)
    requires n <= |s| && n <= |js| && n <= |ks| && ChoiceVector(js) && ChoiceVector(ks)
    requires forall k :: 0 <= k < n ==> js[k] == ks[k]
    ensures Shuffled(s, js, n) == Shuffled(s, ks, n)
    decreases n
  {
    hide Shuffled, Swap;
    ShuffledStep(s, js, n);
    ShuffledStep(s, ks, n);
    if n <= 1 {
    } else {
      OnlyPrefixCounts(Swap(s, n - 1, js[n - 1]), js, ks, n - 1);
    }
  }

  ghost predicate Reaches<T>(s: seq<T>, js: seq<nat>, t: seq<T>) {
    |js| == |s| && ChoiceVector(js) && Shuffled(s, js, |s|) == t
  }

  /** Fairness: over distinct items the choice vectors of full length correspond one-to-one to
      the orders of the items: every order is reached, and by one vector only. */
  lemma ShuffleIsBijective<T>(s: seq<T>, t: seq<T>)
    requires Distinct(s) && multiset(t) == multiset(s)
    ensures exists js: seq<nat> :: Reaches(s, js, t)
    ensures forall js, ks :: Reaches(s, js, t) && Reaches(s, ks, t) ==> js == ks
  {
    assert |s| == |multiset(s)| == |multiset(t)| == |t|;
    assert s[..|s|] == s && t[..|t|] == t;
    ChoicesReach(s, t, |s|);
    assert Reaches(s, ChoicesFor(s, t, |s|), t);
    forall js, ks | Reaches(s, js, t) && Reaches(s, ks, t) ensures js == ks {
      ChoicesAreDetermined(s, js, ks, |s|);
    }
  }

  // ---------------------------------------------------------------- the loop

  /** The choice the loop makes at index `i` of a random number. */
  function ChoiceAt(i: nat, r: nat): (j: nat)
    ensures j <= i
    ensures r <= i ==> j == r
  {
    r % (i + 1)
  }

  /** Numbers pick the choices at an index one after the other, over and over. */
  lemma ChoiceAtExact(i: nat, r: nat)
    ensures r <= i ==> ChoiceAt(i, r) == r
    ensures ChoiceAt(i, r + i + 1) == ChoiceAt(i, r)
  {
    assert (r + i + 1) % (i + 1) == r % (i + 1) by {
      assert r + i + 1 == r + (i + 1);
      ModuloPeriodic(r, i + 1);
    }
  }

  ghost function Choices(draws: nat -> nat, n: nat): (js: seq<nat>)
    ensures |js| == n && ChoiceVector(js)
    ensures forall k :: 0 <= k < n ==> js[k] == ChoiceAt(k, draws(k))
  {
    if n == 0 then [] else Choices(draws, n - 1) + [ChoiceAt(n - 1, draws(n - 1))]
  }

  /** Every choice vector comes from some random numbers below the number of items. */
  lemma DrawsCoverChoices(js: seq<nat>)
    requires ChoiceVector(js)
    ensures exists draws: nat -> nat :: Choices(draws, |js|) == js
  {
    var draws := (i: nat) => if i < |js| then js[i] else 0;
    assert Choices(draws, |js|) == js;
  }

  /** The shuffle below position `n` with the choices that `draws` makes. */
  ghost function ShuffledBy<T>(s: seq<T>, draws: nat -> nat, n: nat): (t: seq<T>)
    requires n <= |s|
    ensures |t| == |s|
  {
    Shuffled(s, Choices(draws, |s|), n)
  }

  lemma ShuffledByStep<T>(s: seq<T>, draws: nat -> nat, n: nat)
    requires 0 < n <= |s|
    ensures ShuffledBy(s, draws, n) == if n == 1 then s else ShuffledBy(Swap(s, n - 1, ChoiceAt(n - 1, draws(n - 1))), draws, n - 1)
  {
  }

  lemma ShuffledByNothing<T>(s: seq<T>, draws: nat -> nat)
    requires s == []
    ensures ShuffledBy(s, draws, 0) == []
  {
  }

  /** `shuffle`: copies the items and permutes the copy in place; the items stay as they are. */
  method Shuffle<T(0)>(items: array<T>, draws: nat -> nat) returns (result: array<T>)
    ensures fresh(result)
    ensures items[..] == old(items[..])
    ensures result[..] == ShuffledBy(items[..], draws, items.Length)
  {
    hide ShuffledBy, ChoiceAt;
    var n := items.Length;
    result := new T[n](k requires 0 <= k < n reads items => items[k]);
    assert result[..] == items[..];
    if n == 0 {
      ShuffledByNothing(items[..], draws);
      return;
    }
    ghost var now, goal := result[..], ShuffledBy(items[..], draws, n);
    var i: int := n - 1;
    while i > 0
      invariant 0 <= i < n
      invariant now == result[..] && ShuffledBy(now, draws, i + 1) == goal
    {
      ShuffledByStep(now, draws, i + 1);
      var j := ChoiceAt(i, draws(i));
      result[i], result[j] := result[j], result[i];
      now := Swap(now, i, j);
      i := i - 1;
    }
    ShuffledByStep(now, draws, 1);
  }

  // ---------------------------------------------------------------- the password generator

  function Lowercase(): (s: string)
    ensures s != ""
  {
    "abcdefghijklmnopqrstuvwxyz"
  }

  function Uppercase(): (s: string)
    ensures s != ""
  {
    "ABCDEFGHIJKLMNOPQRSTUVWXYZ"
  }

  function Numbers(): (s: string)
    ensures s != ""
  {
    "0123456789"
  }

  function Symbols(): (s: string)
    ensures s != ""
  {
    "!@#$%^&*()_+-="
  }

  /** The classes, by code point. */
  lemma ClassesExact(c: char)
    ensures c in Lowercase() <==> 97 <= c as int <= 122
    ensures c in Uppercase() <==> 65 <= c as int <= 90
    ensures c in Numbers() <==> 48 <= c as int <= 57
    ensures c in Symbols() <==> c as int in {33, 35, 36, 37, 38, 40, 41, 42, 43, 45, 61, 64, 94, 95}
  {
  }

  function RandomChar(charset: string, r: nat): (c: char)
    requires charset != ""
    ensures c in charset
  {
    charset[r % |charset|]
  }

  /** Numbers pick the characters of a set one after the other, over and over: each one can come
      out, and none is left out. */
  lemma RandomCharExact(charset: string, r: nat)
    requires charset != ""
    ensures r < |charset| ==> RandomChar(charset, r) == charset[r]
    ensures RandomChar(charset, r + |charset|) == RandomChar(charset, r)
  {
    ModuloPeriodic(r, |charset|);
  }

  lemma ModuloPeriodic(r: nat, n: nat)
    requires n > 0
    ensures (r + n) % n == r % n && (r < n ==> r % n == r)
  {
    Remainder(r + n, r / n + 1, r % n, n);
    if r < n { Remainder(r, 0, r, n); }
  }

  lemma Remainder(x: nat, q: nat, m: nat, n: nat)
    requires m < n && x == q * n + m
    ensures x % n == m
  {
    var d := x / n - q;
    assert d * n == m - x % n;
    assert d >= 1 ==> d * n >= n;
    assert d <= -1 ==> d * n + n <= 0;
  }

  ghost predicate Represented(charset: string, s: seq<char>) {
    exists c :: c in charset && c in s
  }

  lemma InPermutation(charset: string, s: seq<char>, t: seq<char>)
    requires multiset(s) == multiset(t) && Represented(charset, s)
    ensures Represented(charset, t)
  {
    var c :| c in charset && c in s;
    assert c in multiset(t);
  }

  lemma ElementsInPermutation(charset: string, s: seq<char>, t: seq<char>)
    requires multiset(s) == multiset(t) && forall k :: 0 <= k < |s| ==> s[k] in charset
    ensures forall k :: 0 <= k < |t| ==> t[k] in charset
  {
    forall k | 0 <= k < |t| ensures t[k] in charset { assert t[k] in multiset(s); }
  }

  /** `shuffle([...required, ...remaining]).join('')`. */
  method Arrange(all: string, draws: nat -> nat) returns (password: string)
    ensures multiset(password) == multiset(all) && |password| == |all|
    ensures password == ShuffledBy(all, draws, |all|)
  {
    var items := new char[|all|](k requires 0 <= k < |all| => all[k]);
    assert items[..] == all;
    var result := Shuffle(items, draws);
    password := result[..];
    ShuffledIsPermutation(all, Choices(draws, |all|), |all|);
  }

  /** The characters a password may use. */
  function Charset(uppercase: bool, numbers: bool, symbols: bool): string {
    var letters := if uppercase then Lowercase() + Uppercase() else Lowercase();
    var withNumbers := if numbers then letters + Numbers() else letters;
    if symbols then withNumbers + Symbols() else withNumbers
  }

  function ClassCount(uppercase: bool, numbers: bool, symbols: bool): nat {
    1 + (if uppercase then 1 else 0) + (if numbers then 1 else 0) + (if symbols then 1 else 0)
  }

  /** Every enabled class has a character in `s`. */
  ghost predicate HasEachClass(s: string, uppercase: bool, numbers: bool, symbols: bool) {
    && Represented(Lowercase(), s)
    && (uppercase ==> Represented(Uppercase(), s))
    && (numbers ==> Represented(Numbers(), s))
    && (symbols ==> Represented(Symbols(), s))
  }

  lemma EachClassInPermutation(s: string, t: string, uppercase: bool, numbers: bool, symbols: bool)
    requires HasEachClass(s, uppercase, numbers, symbols) && multiset(s) == multiset(t)
    ensures HasEachClass(t, uppercase, numbers, symbols)
  {
    InPermutation(Lowercase(), s, t);
    if uppercase { InPermutation(Uppercase(), s, t); }
    if numbers { InPermutation(Numbers(), s, t); }
    if symbols { InPermutation(Symbols(), s, t); }
  }

  lemma MoreCharacters(required: string, more: string, uppercase: bool, numbers: bool, symbols: bool)
    requires HasEachClass(required, uppercase, numbers, symbols)
    ensures HasEachClass(required + more, uppercase, numbers, symbols)
  {
    forall c | c in required ensures c in required + more { }
  }

  /** One character of each enabled class, as the first four numbers pick them. */
  function Required(uppercase: bool, numbers: bool, symbols: bool, pick: nat -> nat): string {
    var small := [RandomChar(Lowercase(), pick(0))];
    var letters := if uppercase then small + [RandomChar(Uppercase(), pick(1))] else small;
    var withNumbers := if numbers then letters + [RandomChar(Numbers(), pick(2))] else letters;
    if symbols then withNumbers + [RandomChar(Symbols(), pick(3))] else withNumbers
  }

  /** And `n` more of the whole set, as the numbers from the fifth on pick them. */
  function Remaining(n: nat, charset: string, pick: nat -> nat): (remaining: string)
    requires charset != ""
    ensures |remaining| == n && forall k :: 0 <= k < n ==> remaining[k] == RandomChar(charset, pick(4 + k))
  {
    if n == 0 then "" else Remaining(n - 1, charset, pick) + [RandomChar(charset, pick(4 + (n - 1)))]
  }

  /** The two lists after the enabled classes given have been added. */
  ghost predicate Prepared(required: string, charset: string, uppercase: bool, numbers: bool, symbols: bool) {
    && charset == Charset(uppercase, numbers, symbols)
    && |required| == ClassCount(uppercase, numbers, symbols)
    && (forall k :: 0 <= k < |required| ==> required[k] in charset)
    && HasEachClass(required, uppercase, numbers, symbols)
  }

  lemma FirstRequired(c: char)
    requires c in Lowercase()
    ensures Prepared([c], Lowercase(), false, false, false)
  {
    hide Lowercase;
    assert c in [c];
  }

  lemma AddUppercase(required: string, charset: string, c: char)
    requires Prepared(required, charset, false, false, false) && c in Uppercase()
    ensures Prepared(required + [c], charset + Uppercase(), true, false, false)
  {
    hide Lowercase, Uppercase;
    MoreCharacters(required, [c], false, false, false);
    assert c in required + [c];
  }

  lemma AddNumbers(required: string, charset: string, uppercase: bool, c: char)
    requires Prepared(required, charset, uppercase, false, false) && c in Numbers()
    ensures Prepared(required + [c], charset + Numbers(), uppercase, true, false)
  {
    hide Lowercase, Uppercase, Numbers;
    MoreCharacters(required, [c], uppercase, false, false);
    assert c in required + [c];
  }

  lemma AddSymbols(required: string, charset: string, uppercase: bool, numbers: bool, c: char)
    requires Prepared(required, charset, uppercase, numbers, false) && c in Symbols()
    ensures Prepared(required + [c], charset + Symbols(), uppercase, numbers, true)
  {
    hide Lowercase, Uppercase, Numbers, Symbols;
    MoreCharacters(required, [c], uppercase, numbers, false);
    assert c in required + [c];
  }

  /** The picked characters are of the set, one for each class. */
  lemma RequiredIsPrepared(uppercase: bool, numbers: bool, symbols: bool, pick: nat -> nat)
    ensures Prepared(
              Required(uppercase, numbers, symbols, pick), Charset(uppercase, numbers, symbols), uppercase, numbers, symbols)
  {
    hide Lowercase, Uppercase, Numbers, Symbols, Prepared, RandomChar;
    FirstRequired(RandomChar(Lowercase(), pick(0)));
    var small := Required(false, false, false, pick);
    if uppercase { AddUppercase(small, Charset(false, false, false), RandomChar(Uppercase(), pick(1))); }
    var letters := Required(uppercase, false, false, pick);
    if numbers { AddNumbers(letters, Charset(uppercase, false, false), uppercase, RandomChar(Numbers(), pick(2))); }
    var withNumbers := Required(uppercase, numbers, false, pick);
    if symbols { AddSymbols(withNumbers, Charset(uppercase, numbers, false), uppercase, numbers, RandomChar(Symbols(), pick(3))); }
  }

  lemma AllInCharset(required: string, remaining: string, charset: string)
    requires forall k :: 0 <= k < |required| ==> required[k] in charset
    requires forall k :: 0 <= k < |remaining| ==> remaining[k] in charset
    ensures forall k :: 0 <= k < |required + remaining| ==> (required + remaining)[k] in charset
  {
  }

  /** A set holds exactly the characters of the enabled classes. */
  lemma CharsetExact(uppercase: bool, numbers: bool, symbols: bool, c: char)
    ensures c in Charset(uppercase, numbers, symbols) <==>
              || 'a' <= c <= 'z' || (uppercase && 'A' <= c <= 'Z') || (numbers && '0' <= c <= '9')
              || (symbols && c in "!@#$%^&*()_+-=")
  {
    ClassesExact(c);
    hide Lowercase, Uppercase, Numbers;
  }

  /** `Array.from({ length: Math.max(missing, 0) }, () => randomChar(charset))`. */
  method Fill(missing: int, charset: string, pick: nat -> nat) returns (remaining: string)
    requires charset != ""
    ensures remaining == Remaining(if missing < 0 then 0 else missing, charset, pick)
  {
    remaining := "";
    for k := 0 to if missing < 0 then 0 else missing
      invariant remaining == Remaining(k, charset, pick)
    {
      remaining := remaining + [RandomChar(charset, pick(4 + k))];
    }
  }

  lemma PreparedIsNotEmpty(required: string, charset: string, uppercase: bool, numbers: bool, symbols: bool)
    requires Prepared(required, charset, uppercase, numbers, symbols)
    ensures charset != "" && charset == Charset(uppercase, numbers, symbols)
    ensures |required| == ClassCount(uppercase, numbers, symbols)
  {
    assert required[0] in charset;
  }

  /** A mix of the required characters with others of the set is of the set, and has each class. */
  lemma PasswordIsMixed(
    required: string, remaining: string, password: string, charset: string, uppercase: bool, numbers: bool, symbols: bool)
    requires Prepared(required, charset, uppercase, numbers, symbols)
    requires forall k :: 0 <= k < |remaining| ==> remaining[k] in charset
    requires multiset(password) == multiset(required + remaining)
    ensures forall k :: 0 <= k < |password| ==> password[k] in charset
    ensures HasEachClass(password, uppercase, numbers, symbols)
  {
    hide HasEachClass, Charset;
    AllInCharset(required, remaining, charset);
    ElementsInPermutation(charset, required + remaining, password);
    MoreCharacters(required, remaining, uppercase, numbers, symbols);
    EachClassInPermutation(required + remaining, password, uppercase, numbers, symbols);
  }

  /** The first half of `generatePassword`: the set, and a character of each enabled class. */
  method PickRequired(uppercase: bool, numbers: bool, symbols: bool, pick: nat -> nat) returns (required: string, charset: string)
    ensures required == Required(uppercase, numbers, symbols, pick) && charset == Charset(uppercase, numbers, symbols)
  {
    hide Lowercase, Uppercase, Numbers, Symbols, RandomChar;
    charset := Lowercase();
    required := [RandomChar(Lowercase(), pick(0))];
    if uppercase {
      charset := charset + Uppercase();
      required := required + [RandomChar(Uppercase(), pick(1))];
    }
    if numbers {
      charset := charset + Numbers();
      required := required + [RandomChar(Numbers(), pick(2))];
    }
    if symbols {
      charset := charset + Symbols();
      required := required + [RandomChar(Symbols(), pick(3))];
    }
  }

  /** `generatePassword`: the password is a shuffle of the required characters and the remaining
      ones; it has the wanted length unless there are more enabled classes than that, uses only
      enabled classes, and has a character of each of them. */
  method GeneratePassword(length: int, uppercase: bool, numbers: bool, symbols: bool, pick: nat -> nat, draws: nat -> nat)
    returns (password: string)
    ensures var classes := ClassCount(uppercase, numbers, symbols);
            |password| == if length < classes then classes else length
    ensures forall k :: 0 <= k < |password| ==> password[k] in Charset(uppercase, numbers, symbols)
    ensures HasEachClass(password, uppercase, numbers, symbols)
    ensures Charset(uppercase, numbers, symbols) != ""
    ensures var required := Required(uppercase, numbers, symbols, pick);
            var missing := if length < |required| then 0 else length - |required|;
            password == ShuffledBy(
              required + Remaining(missing, Charset(uppercase, numbers, symbols), pick), draws, |required| + missing)
  {
    hide HasEachClass, ShuffledBy, Charset, Required, Prepared, ClassCount;
    RequiredIsPrepared(uppercase, numbers, symbols, pick);
    var required, charset := PickRequired(uppercase, numbers, symbols, pick);
    PreparedIsNotEmpty(required, charset, uppercase, numbers, symbols);
    var remaining := Fill(length - |required|, charset, pick);
    password := Arrange(required + remaining, draws);
    PasswordIsMixed(required, remaining, password, charset, uppercase, numbers, symbols);
  }
}
