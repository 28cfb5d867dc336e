/** The table of Vietnamese letters and the loop that folds them to ASCII one key at a time. */
module VietnameseLetters {

  // ---------------------------------------------------------------- folding Vietnamese letters

  /** A stretch of `VI_MAP` with one value, its keys in insertion order. */
  datatype Group = Group(keys: string, value: char)

  /** The lower-case half of the table, and the upper-case half. */
  function LowerGroup(k: nat): Group
    requires k < 7
  {
    match k
    case 0 => Group("àáảãạăắằẳẵặâấầẩẫậ", 'a')
    case 1 => Group("đ", 'd')
    case 2 => Group("èéẻẽẹêếềểễệ", 'e')
    case 3 => Group("ìíỉĩị", 'i')
    case 4 => Group("òóỏõọôốồổỗộơớờởỡợ", 'o')
    case 5 => Group("ùúủũụưứừửữự", 'u')
    case _ => Group("ỳýỷỹỵ", 'y')
  }

  function UpperGroup(k: nat): Group
    requires k < 7
  {
    match k
    case 0 => Group("ÀÁẢÃẠĂẮẰẲẴẶÂẤẦẨẪẬ", 'A')
    case 1 => Group("Đ", 'D')
    case 2 => Group("ÈÉẺẼẸÊẾỀỂỄỆ", 'E')
    case 3 => Group("ÌÍỈĨỊ", 'I')
    case 4 => Group("ÒÓỎÕỌÔỐỒỔỖỘƠỚỜỞỠỢ", 'O')
    case 5 => Group("ÙÚỦŨỤƯỨỪỬỮỰ", 'U')
    case _ => Group("ỲÝỶỸỴ", 'Y')
  }

  function GroupAt(k: nat): Group
    requires k < 14
  {
    if k < 7 then LowerGroup(k) else UpperGroup(k - 7)
  }

  datatype Entry = Entry(key: char, value: char)

  function GroupEntries(g: Group): (entries: seq<Entry>)
    ensures |entries| == |g.keys| && forall i :: 0 <= i < |g.keys| ==> entries[i] == Entry(g.keys[i], g.value)
  {
    seq(|g.keys|, i requires 0 <= i < |g.keys| => Entry(g.keys[i], g.value))
  }

  /** The entries of groups `k` and above. */
  function EntriesFrom(k: nat): seq<Entry>
    requires k <= 14
    decreases 14 - k
  {
    if k == 14 then []
    else GroupEntries(GroupAt(k)) + EntriesFrom(k + 1)
  }

  /** `Object.entries(VI_MAP)`. */
  function ViMap(): seq<Entry> {
    EntriesFrom(0)
  }

  // ---------------------------------------------------------------- the table against Unicode

  const LOWER_BASE := "adeiouy"
  const UPPER_BASE := "ADEIOUY"

  /** The code points of the small Vietnamese letters built on `LOWER_BASE[k]`. */
  function LowerCodes(k: nat): set<int>
    requires k < 7
  {
    match k
    case 0 => {224, 225, 226, 227, 259, 7841, 7843, 7845, 7847, 7849, 7851, 7853, 7855, 7857, 7859, 7861, 7863}
    case 1 => {273}
    case 2 => {232, 233, 234, 7865, 7867, 7869, 7871, 7873, 7875, 7877, 7879}
    case 3 => {236, 237, 297, 7881, 7883}
    case 4 => {242, 243, 244, 245, 417, 7885, 7887, 7889, 7891, 7893, 7895, 7897, 7899, 7901, 7903, 7905, 7907}
    case 5 => {249, 250, 361, 432, 7909, 7911, 7913, 7915, 7917, 7919, 7921}
    case _ => {253, 7923, 7925, 7927, 7929}
  }

  /** And those of the capitals built on `UPPER_BASE[k]`. */
  function UpperCodes(k: nat): set<int>
    requires k < 7
  {
    match k
    case 0 => {192, 193, 194, 195, 258, 7840, 7842, 7844, 7846, 7848, 7850, 7852, 7854, 7856, 7858, 7860, 7862}
    case 1 => {272}
    case 2 => {200, 201, 202, 7864, 7866, 7868, 7870, 7872, 7874, 7876, 7878}
    case 3 => {204, 205, 296, 7880, 7882}
    case 4 => {210, 211, 212, 213, 416, 7884, 7886, 7888, 7890, 7892, 7894, 7896, 7898, 7900, 7902, 7904, 7906}
    case 5 => {217, 218, 360, 431, 7908, 7910, 7912, 7914, 7916, 7918, 7920}
    case _ => {221, 7922, 7924, 7926, 7928}
  }

  lemma LowerKeysOfA(k: nat, c: char)
    requires k == 0
    ensures c in LowerGroup(k).keys <==> c as int in LowerCodes(k)
  {
  }

  lemma LowerKeysOfO(k: nat, c: char)
    requires k == 4
    ensures c in LowerGroup(k).keys <==> c as int in LowerCodes(k)
  {
  }

  lemma LowerKeysOfEU(k: nat, c: char)
    requires k == 2 || k == 5
    ensures c in LowerGroup(k).keys <==> c as int in LowerCodes(k)
  {
  }

  lemma LowerKeysOfDIY(k: nat, c: char)
    requires k == 1 || k == 3 || k == 6
    ensures c in LowerGroup(k).keys <==> c as int in LowerCodes(k)
  {
  }

  lemma LowerKeysAre(k: nat, c: char)
    requires k < 7
    ensures c in LowerGroup(k).keys <==> c as int in LowerCodes(k)
    ensures LowerGroup(k).value == LOWER_BASE[k]
  {
    if k == 0 {
      LowerKeysOfA(k, c);
    } else if k == 4 {
      LowerKeysOfO(k, c);
    } else if k == 2 || k == 5 {
      LowerKeysOfEU(k, c);
    } else {
      LowerKeysOfDIY(k, c);
    }
    hide LowerCodes;
  }

  lemma UpperKeysOfA(k: nat, c: char)
    requires k == 0
    ensures c in UpperGroup(k).keys <==> c as int in UpperCodes(k)
  {
  }

  lemma UpperKeysOfO(k: nat, c: char)
    requires k == 4
    ensures c in UpperGroup(k).keys <==> c as int in UpperCodes(k)
  {
  }

  lemma UpperKeysOfEU(k: nat, c: char)
    requires k == 2 || k == 5
    ensures c in UpperGroup(k).keys <==> c as int in UpperCodes(k)
  {
  }

  lemma UpperKeysOfDIY(k: nat, c: char)
    requires k == 1 || k == 3 || k == 6
    ensures c in UpperGroup(k).keys <==> c as int in UpperCodes(k)
  {
  }

  lemma UpperKeysAre(k: nat, c: char)
    requires k < 7
    ensures c in UpperGroup(k).keys <==> c as int in UpperCodes(k)
    ensures UpperGroup(k).value == UPPER_BASE[k]
  {
    if k == 0 {
      UpperKeysOfA(k, c);
    } else if k == 4 {
      UpperKeysOfO(k, c);
    } else if k == 2 || k == 5 {
      UpperKeysOfEU(k, c);
    } else {
      UpperKeysOfDIY(k, c);
    }
    hide UpperCodes;
  }

  predicate IsLetterOf(e: Entry, k: nat)
    requires k < 7
  {
    || (e.key as int in LowerCodes(k) && e.value == LOWER_BASE[k])
    || (e.key as int in UpperCodes(k) && e.value == UPPER_BASE[k])
  }

  /** Entry `e` folds a Vietnamese letter to the letter it is built on. */
  ghost predicate IsVietnamese(e: Entry) {
    exists k :: 0 <= k < 7 && IsLetterOf(e, k)
  }

  ghost predicate HasCode(c: char) {
    exists k :: 0 <= k < 7 && (c as int in LowerCodes(k) || c as int in UpperCodes(k))
  }

  lemma GroupIsVietnamese(k: nat, i: nat)
    requires k < 14 && i < |GroupAt(k).keys|
    ensures IsVietnamese(GroupEntries(GroupAt(k))[i])
  {
    hide LowerGroup, UpperGroup, LowerCodes, UpperCodes;
    if k < 7 {
      LowerKeysAre(k, LowerGroup(k).keys[i]);
      assert IsLetterOf(GroupEntries(LowerGroup(k))[i], k);
    } else {
      UpperKeysAre(k - 7, UpperGroup(k - 7).keys[i]);
      assert IsLetterOf(GroupEntries(UpperGroup(k - 7))[i], k - 7);
    }
  }

  lemma {:induction false} EntriesAreVietnamese(k: nat)
    requires k <= 14
    ensures forall i :: 0 <= i < |EntriesFrom(k)| ==> IsVietnamese(EntriesFrom(k)[i])
    decreases 14 - k
  {
    hide GroupAt, IsVietnamese;
    if k == 14 {
    } else {
      EntriesAreVietnamese(k + 1);
      var g := GroupEntries(GroupAt(k));
      forall i | 0 <= i < |g| ensures IsVietnamese(g[i]) { GroupIsVietnamese(k, i); }
      assert EntriesFrom(k) == g + EntriesFrom(k + 1);
      hide EntriesFrom;
    }
  }

  // ---------------------------------------------------------------- one key at a time

  /** No value is a key, so replacing one key never creates another. */
  predicate Independent(table: seq<Entry>) {
    forall i, j :: 0 <= i < |table| && 0 <= j < |table| ==> table[i].value != table[j].key
  }

  lemma CodesOfKeys(k: nat, n: int)
    requires k < 7 && (n in LowerCodes(k) || n in UpperCodes(k))
    ensures n >= 192
  {
    if k <= 1 {
      CodesOfAD(k, n);
    } else if k <= 3 {
      CodesOfEI(k, n);
    } else if k == 4 {
      CodesOfO(n);
    } else {
      CodesOfUY(k, n);
    }
    hide LowerCodes, UpperCodes;
  }

  lemma CodesOfAD(k: nat, n: int)
    requires k <= 1 && (n in LowerCodes(k) || n in UpperCodes(k))
    ensures n >= 192
  {
  }

  lemma CodesOfEI(k: nat, n: int)
    requires 2 <= k <= 3 && (n in LowerCodes(k) || n in UpperCodes(k))
    ensures n >= 192
  {
  }

  lemma CodesOfO(n: int)
    requires n in LowerCodes(4) || n in UpperCodes(4)
    ensures n >= 192
  {
  }

  lemma CodesOfUY(k: nat, n: int)
    requires 5 <= k < 7 && (n in LowerCodes(k) || n in UpperCodes(k))
    ensures n >= 192
  {
  }

  lemma BasesAreLow(k: nat)
    requires k < 7
    ensures LOWER_BASE[k] as int <= 122 && UPPER_BASE[k] as int <= 122
  {
  }

  lemma KeysAreAccented(e: Entry)
    requires IsVietnamese(e)
    ensures e.key as int >= 192 && e.value as int <= 122
  {
    var k :| 0 <= k < 7 && IsLetterOf(e, k);
    hide LowerCodes, UpperCodes;
    CodesOfKeys(k, e.key as int);
    BasesAreLow(k);
  }

  lemma ViMapIsIndependent()
    ensures Independent(ViMap())
  {
    EntriesAreVietnamese(0);
    hide EntriesFrom, IsVietnamese, LowerGroup, UpperGroup;
    forall i | 0 <= i < |ViMap()| ensures ViMap()[i].key as int >= 192 && ViMap()[i].value as int <= 122 {
      assert ViMap()[i] == EntriesFrom(0)[i];
      KeysAreAccented(ViMap()[i]);
    }
  }

  /** `str.replace(new RegExp(key, 'g'), value)` for a key of one character. */
  function ReplaceAll(s: string, e: Entry): (r: string)
    ensures |r| == |s| && forall i :: 0 <= i < |s| ==> r[i] == if s[i] == e.key then e.value else s[i]
  {
    if s == "" then "" else [if s[0] == e.key then e.value else s[0]] + ReplaceAll(s[1..], e)
  }

  /** What the whole table makes of one character: the value of its first entry, if any. */
  function FoldChar(c: char, table: seq<Entry>): char {
    if table == [] then c else if table[0].key == c then table[0].value else FoldChar(c, table[1..])
  }

  /** One simultaneous replacement of all keys. */
  function Fold(s: string, table: seq<Entry>): (r: string)
    ensures |r| == |s| && forall i :: 0 <= i < |s| ==> r[i] == FoldChar(s[i], table)
  {
    if s == "" then "" else [FoldChar(s[0], table)] + Fold(s[1..], table)
  }

  lemma {:induction false} FoldCharShape(c: char, table: seq<Entry>)
    ensures if exists i :: 0 <= i < |table| && table[i].key == c
            then exists i :: 0 <= i < |table| && table[i].key == c && FoldChar(c, table) == table[i].value
            else FoldChar(c, table) == c
  {
    if table == [] {
    } else {
      FoldCharShape(c, table[1..]);
      if table[0].key == c {
      } else {
        assert forall i :: 0 < i < |table| ==> table[i] == table[1..][i - 1];
        if i :| 0 <= i < |table[1..]| && table[1..][i].key == c && FoldChar(c, table[1..]) == table[1..][i].value {
          assert table[i + 1].key == c && FoldChar(c, table) == table[i + 1].value;
        }
      }
    }
  }

  lemma {:induction false} FoldCharAppend(c: char, table: seq<Entry>, e: Entry)
    ensures FoldChar(c, table + [e]) ==
            if exists i :: 0 <= i < |table| && table[i].key == c then FoldChar(c, table)
            else if c == e.key then e.value else c
  {
    if table == [] {
      assert table + [e] == [e];
    } else {
      assert (table + [e])[1..] == table[1..] + [e];
      FoldCharAppend(c, table[1..], e);
      assert forall i :: 0 < i < |table| ==> table[i] == table[1..][i - 1];
      if table[0].key != c && (exists i :: 0 <= i < |table| && table[i].key == c) {
        var i :| 0 <= i < |table| && table[i].key == c;
        assert table[1..][i - 1].key == c;
      }
      if i :| 0 <= i < |table[1..]| && table[1..][i].key == c {
        assert table[i + 1].key == c;
      }
    }
  }

  /** Replacing the next key after the others is folding with a table one entry longer. */
  lemma ReplaceAfterFold(s: string, table: seq<Entry>, e: Entry)
    requires forall i :: 0 <= i < |table| ==> table[i].value != e.key
    ensures ReplaceAll(Fold(s, table), e) == Fold(s, table + [e])
  {
    forall i | 0 <= i < |s| ensures ReplaceAll(Fold(s, table), e)[i] == Fold(s, table + [e])[i] {
      FoldCharAppend(s[i], table, e);
      FoldCharShape(s[i], table);
    }
  }

  /** `viToAscii`: the loop that replaces one key at a time is one simultaneous replacement. */
  method ViToAscii(str: string) returns (r: string)
    ensures r == Fold(str, ViMap())
  {
    ViMapIsIndependent();
    var table := ViMap();
    hide ViMap;
    r := str;
    FoldNothing(str);
    for i := 0 to |table|
      invariant r == Fold(str, table[..i])
    {
      ReplaceAfterFold(str, table[..i], table[i]);
      assert table[..i + 1] == table[..i] + [table[i]];
      r := ReplaceAll(r, table[i]);
    }
    assert table[..|table|] == table;
  }

  lemma FoldNothing(s: string)
    ensures Fold(s, []) == s
  {
    assert forall i :: 0 <= i < |s| ==> Fold(s, [])[i] == s[i];
  }

  // ---------------------------------------------------------------- the table folds what it should

  ghost predicate HasKey(table: seq<Entry>, c: char) {
    exists i :: 0 <= i < |table| && table[i].key == c
  }

  lemma HasKeyAppend(a: seq<Entry>, b: seq<Entry>, c: char)
    requires HasKey(a, c) || HasKey(b, c)
    ensures HasKey(a + b, c)
  {
    if HasKey(a, c) {
      var i :| 0 <= i < |a| && a[i].key == c;
      assert (a + b)[i].key == c;
    } else {
      var i :| 0 <= i < |b| && b[i].key == c;
      assert (a + b)[|a| + i].key == c;
    }
  }

  /** Every key of group `j` or a later one is in the table from `k` on. */
  lemma {:induction false} KeysAreInTable(k: nat, j: nat, c: char)
    requires k <= j < 14 && c in GroupAt(j).keys
    ensures HasKey(EntriesFrom(k), c)
    decreases j - k
  {
    var g := GroupEntries(GroupAt(k));
    assert EntriesFrom(k) == g + EntriesFrom(k + 1);
    hide GroupAt, EntriesFrom;
    if j == k {
      var i :| 0 <= i < |GroupAt(j).keys| && GroupAt(j).keys[i] == c;
      assert g[i].key == c;
    } else {
      KeysAreInTable(k + 1, j, c);
    }
    hide HasKey;
    HasKeyAppend(g, EntriesFrom(k + 1), c);
  }

  /** The keys of the table are exactly the Vietnamese letters. */
  lemma KeysAreLetters(c: char)
    ensures HasKey(ViMap(), c) <==> HasCode(c)
  {
    hide EntriesFrom, LowerGroup, UpperGroup, LowerCodes, UpperCodes;
    EntriesAreVietnamese(0);
    if HasCode(c) {
      var k :| 0 <= k < 7 && (c as int in LowerCodes(k) || c as int in UpperCodes(k));
      LowerKeysAre(k, c);
      UpperKeysAre(k, c);
      if c as int in LowerCodes(k) {
        KeysAreInTable(0, k, c);
      } else {
        KeysAreInTable(0, k + 7, c);
      }
    }
    if HasKey(ViMap(), c) {
      var i :| 0 <= i < |ViMap()| && ViMap()[i].key == c;
      assert IsVietnamese(EntriesFrom(0)[i]);
    }
  }

  /** The table folds exactly the accented Vietnamese letters, each to the letter it is built on. */
  lemma ViMapExact(c: char)
    ensures if HasCode(c) then IsVietnamese(Entry(c, FoldChar(c, ViMap()))) else FoldChar(c, ViMap()) == c
  {
    KeysAreLetters(c);
    EntriesAreVietnamese(0);
    FoldCharShape(c, ViMap());
    hide FoldChar, EntriesFrom, HasCode, IsVietnamese;
    if HasCode(c) {
      var i :| 0 <= i < |ViMap()| && ViMap()[i].key == c && FoldChar(c, ViMap()) == ViMap()[i].value;
      assert IsVietnamese(EntriesFrom(0)[i]) && ViMap()[i] == Entry(c, FoldChar(c, ViMap()));
    }
  }
  lemma UnaccentedIsKept(c: char)
    requires c as int < 192
    ensures FoldChar(c, ViMap()) == c
  {
    ViMapExact(c);
    hide ViMap, FoldChar, IsVietnamese;
    if HasCode(c) {
      KeysAreAccented(Entry(c, FoldChar(c, ViMap())));
    }
  }
}
