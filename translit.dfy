/**
 * The transliteration helpers `rusToEng` and `engToRus` of the bundled translit module.
 *
 * Both walk the parallel tables `arr_ru` / `arr_en` in index order and, for each index, replace
 * every occurrence of one table's entry by the other table's entry (`String.replace` with a global
 * regular expression: left to right, non-overlapping). The whole text is rewritten once per table
 * index, so the rewriting is pattern-major: a later index sees the output of every earlier one.
 */
module Translit {

  // ---------------------------------------------------------------------------------------------
  // The tables: two parallel array literals, here one lookup per index (the last arm is index 65).

  /** `arr_ru.length` (and `arr_en.length`). */
  const N: nat := 66

  predicate IsAscii(c: char) { c < 128 as char }

  /** `arr_ru[j]`: one Cyrillic letter. */
  function RuEntry(j: nat): (r: string)
    requires j < N
    ensures |r| == 1 && !IsAscii(r[0])
  {
    match j
    case 0 => "Я" case 1 => "я" case 2 => "Ю" case 3 => "ю" case 4 => "Ч" case 5 => "ч"
    case 6 => "Ш" case 7 => "ш" case 8 => "Щ" case 9 => "щ" case 10 => "Ж" case 11 => "ж"
    case 12 => "А" case 13 => "а" case 14 => "Б" case 15 => "б" case 16 => "В" case 17 => "в"
    case 18 => "Г" case 19 => "г" case 20 => "Д" case 21 => "д" case 22 => "Е" case 23 => "е"
    case 24 => "Ё" case 25 => "ё" case 26 => "З" case 27 => "з" case 28 => "И" case 29 => "и"
    case 30 => "Й" case 31 => "й" case 32 => "К" case 33 => "к" case 34 => "Л" case 35 => "л"
    case 36 => "М" case 37 => "м" case 38 => "Н" case 39 => "н" case 40 => "О" case 41 => "о"
    case 42 => "П" case 43 => "п" case 44 => "Р" case 45 => "р" case 46 => "С" case 47 => "с"
    case 48 => "Т" case 49 => "т" case 50 => "У" case 51 => "у" case 52 => "Ф" case 53 => "ф"
    case 54 => "Х" case 55 => "х" case 56 => "Ц" case 57 => "ц" case 58 => "Ы" case 59 => "ы"
    case 60 => "Ь" case 61 => "ь" case 62 => "Ъ" case 63 => "ъ" case 64 => "Э" case _ => "э"
  }

  /** `arr_en[j]`: the Latin spelling of `arr_ru[j]`, one or two ASCII characters. */
  function EnEntry(j: nat): (r: string)
    requires j < N
    ensures 1 <= |r| <= 2
    ensures forall k :: 0 <= k < |r| ==> IsAscii(r[k])
  {
    match j
    case 0 => "Ya" case 1 => "ya" case 2 => "Yu" case 3 => "yu" case 4 => "Ch" case 5 => "ch"
    case 6 => "Sh" case 7 => "sh" case 8 => "Sh" case 9 => "sh" case 10 => "Zh" case 11 => "zh"
    case 12 => "A" case 13 => "a" case 14 => "B" case 15 => "b" case 16 => "V" case 17 => "v"
    case 18 => "G" case 19 => "g" case 20 => "D" case 21 => "d" case 22 => "E" case 23 => "e"
    case 24 => "E" case 25 => "e" case 26 => "Z" case 27 => "z" case 28 => "I" case 29 => "i"
    case 30 => "J" case 31 => "j" case 32 => "K" case 33 => "k" case 34 => "L" case 35 => "l"
    case 36 => "M" case 37 => "m" case 38 => "N" case 39 => "n" case 40 => "O" case 41 => "o"
    case 42 => "P" case 43 => "p" case 44 => "R" case 45 => "r" case 46 => "S" case 47 => "s"
    case 48 => "T" case 49 => "t" case 50 => "U" case 51 => "u" case 52 => "F" case 53 => "f"
    case 54 => "H" case 55 => "h" case 56 => "C" case 57 => "c" case 58 => "Y" case 59 => "y"
    case 60 => "`" case 61 => "`" case 62 => "'" case 63 => "'" case 64 => "E" case _ => "e"
  }

  // ---------------------------------------------------------------------------------------------
  // `text.replace(new RegExp(p, "g"), r)` for a pattern without metacharacters.

  /** Every occurrence of p in s, scanned left to right without overlap, replaced by r. */
  function ReplaceAll(s: string, p: string, r: string): string
    requires |p| > 0
    decreases |s|
  {
    if |s| < |p| then s
    else if s[..|p|] == p then r + ReplaceAll(s[|p|..], p, r)
    else [s[0]] + ReplaceAll(s[1..], p, r)
  }

  /** The text has no character c. */
  predicate Lacks(t: string, c: char) { forall i :: 0 <= i < |t| ==> t[i] != c }

  /** The text has no c immediately followed by d. */
  predicate LacksPair(t: string, c: char, d: char) {
    forall i :: 0 <= i < |t| - 1 ==> !(t[i] == c && t[i + 1] == d)
  }

  /** A text that lacks the first character of p is left alone. */
  lemma {:induction false} ReplaceAllLacksHead(s: string, p: string, r: string)
    requires |p| > 0 && Lacks(s, p[0])
    ensures ReplaceAll(s, p, r) == s
    decreases |s|
  {
    if |s| >= |p| {
      assert s[..|p|][0] == s[0];
      ReplaceAllLacksHead(s[1..], p, r);
      assert [s[0]] + s[1..] == s;
    }
  }

  /** A pattern replaced in a text that is exactly the pattern gives the replacement. */
  lemma ReplaceAllWhole(s: string, r: string)
    requires |s| > 0
    ensures ReplaceAll(s, s, r) == r
  {
    assert s[..|s|] == s && s[|s|..] == [];
    assert ReplaceAll([], s, r) == [];
  }

  /** A character that is neither in the text nor in the replacement is not in the result. */
  lemma {:induction false} ReplaceAllKeepsLacks(s: string, p: string, r: string, c: char)
    requires |p| > 0 && Lacks(s, c) && Lacks(r, c)
    ensures Lacks(ReplaceAll(s, p, r), c)
    decreases |s|
  {
    if |s| < |p| {
    } else if s[..|p|] == p {
      ReplaceAllKeepsLacks(s[|p|..], p, r, c);
    } else {
      ReplaceAllKeepsLacks(s[1..], p, r, c);
    }
  }

  /** Replacing a single character by a text without it removes the character altogether. */
  lemma {:induction false} ReplaceAllRemovesChar(s: string, c: char, r: string)
    requires Lacks(r, c)
    ensures Lacks(ReplaceAll(s, [c], r), c)
    decreases |s|
  {
    if |s| >= 1 {
      ReplaceAllRemovesChar(s[1..], c, r);
      if s[..1] != [c] {
        assert s[0] != c;
      }
    }
  }

  /** Replacing a single character commutes with concatenation. */
  lemma {:induction false} ReplaceAllCharConcat(a: string, b: string, c: char, r: string)
    ensures ReplaceAll(a + b, [c], r) == ReplaceAll(a, [c], r) + ReplaceAll(b, [c], r)
    decreases |a|
  {
    if |a| == 0 {
      assert a + b == b;
    } else {
      assert (a + b)[..1] == a[..1];
      assert (a + b)[1..] == a[1..] + b;
      ReplaceAllCharConcat(a[1..], b, c, r);
    }
  }

  /** The result starts with the text's first character or with the replacement's. */
  lemma ReplaceAllHead(s: string, p: string, r: string)
    requires |p| > 0 && |r| > 0 && |ReplaceAll(s, p, r)| > 0
    ensures |s| > 0
    ensures ReplaceAll(s, p, r)[0] == s[0] || ReplaceAll(s, p, r)[0] == r[0]
  {
  }

  lemma LacksPairConcat(x: string, y: string, c: char, d: char)
    requires LacksPair(x, c, d) && LacksPair(y, c, d)
    requires !(|x| > 0 && |y| > 0 && x[|x| - 1] == c && y[0] == d)
    ensures LacksPair(x + y, c, d)
  {
    forall i | 0 <= i < |x + y| - 1
      ensures !((x + y)[i] == c && (x + y)[i + 1] == d)
    {
      if i < |x| - 1 {
        assert (x + y)[i] == x[i] && (x + y)[i + 1] == x[i + 1];
      } else if i >= |x| {
        assert (x + y)[i] == y[i - |x|] && (x + y)[i + 1] == y[i - |x| + 1];
      }
    }
  }

  lemma LacksPairSuffix(s: string, k: nat, c: char, d: char)
    requires k <= |s| && LacksPair(s, c, d)
    ensures LacksPair(s[k..], c, d)
  {
    var rest := s[k..];
    forall i | 0 <= i < |rest| - 1 ensures !(rest[i] == c && rest[i + 1] == d) {
      assert rest[i] == s[i + k] && rest[i + 1] == s[i + 1 + k];
    }
  }

  /** A non-empty replacement free of c and d cannot create the pair cd. */
  lemma {:induction false} ReplaceAllKeepsLacksPair(s: string, p: string, r: string, c: char, d: char)
    requires |p| > 0 && |r| > 0 && Lacks(r, c) && Lacks(r, d) && LacksPair(s, c, d)
    ensures LacksPair(ReplaceAll(s, p, r), c, d)
    decreases |s|
  {
    if |s| < |p| {
    } else if s[..|p|] == p {
      LacksPairSuffix(s, |p|, c, d);
      ReplaceAllKeepsLacksPair(s[|p|..], p, r, c, d);
      LacksPairConcat(r, ReplaceAll(s[|p|..], p, r), c, d);
    } else {
      LacksPairSuffix(s, 1, c, d);
      ReplaceAllKeepsLacksPair(s[1..], p, r, c, d);
      var tail := ReplaceAll(s[1..], p, r);
      if |tail| > 0 {
        ReplaceAllHead(s[1..], p, r);
      }
      LacksPairConcat([s[0]], tail, c, d);
    }
  }

  /** Replacing the pair cd by a non-empty text free of c and d leaves no pair cd behind. */
  lemma {:induction false} ReplaceAllRemovesPair(s: string, c: char, d: char, r: string)
    requires |r| > 0 && Lacks(r, c) && Lacks(r, d)
    ensures LacksPair(ReplaceAll(s, [c, d], r), c, d)
    decreases |s|
  {
    if |s| < 2 {
    } else if s[..2] == [c, d] {
      ReplaceAllRemovesPair(s[2..], c, d, r);
      LacksPairConcat(r, ReplaceAll(s[2..], [c, d], r), c, d);
    } else {
      ReplaceAllRemovesPair(s[1..], c, d, r);
      var tail := ReplaceAll(s[1..], [c, d], r);
      if |tail| > 0 {
        ReplaceAllHead(s[1..], [c, d], r);
        assert s[..2] == [s[0], s[1]];
      }
      LacksPairConcat([s[0]], tail, c, d);
    }
  }

  /** A text without the pair cd is left alone by replacing cd. */
  lemma {:induction false} ReplaceAllLacksPair(s: string, c: char, d: char, r: string)
    requires LacksPair(s, c, d)
    ensures ReplaceAll(s, [c, d], r) == s
    decreases |s|
  {
    if |s| >= 2 {
      assert s[..2] != [c, d] by {
        assert !(s[0] == c && s[1] == d);
      }
      LacksPairSuffix(s, 1, c, d);
      ReplaceAllLacksPair(s[1..], c, d, r);
      assert [s[0]] + s[1..] == s;
    }
  }

  // ---------------------------------------------------------------------------------------------
  // The table walk, in either direction.

  /** `rusToEng` rewrites `arr_ru[j]` to `arr_en[j]`; `engToRus` rewrites `arr_en[j]` to `arr_ru[j]`. */
  datatype Way = ToLatinWay | ToCyrillicWay

  /** The pattern of step j. */
  function Pat(w: Way, j: nat): (p: string)
    requires j < N
    ensures |p| > 0
  {
    if w == ToLatinWay then RuEntry(j) else EnEntry(j)
  }

  /** The replacement of step j. */
  function Rep(w: Way, j: nat): (r: string)
    requires j < N
    ensures |r| > 0
  {
    if w == ToLatinWay then EnEntry(j) else RuEntry(j)
  }

  /** The text after steps lo, lo + 1, ..., hi - 1 of the walk, in that order. */
  function Run(w: Way, s: string, lo: nat, hi: nat): string
    requires lo <= hi <= N
    decreases hi - lo
  {
    if hi == lo then s else ReplaceAll(Run(w, s, lo, hi - 1), Pat(w, hi - 1), Rep(w, hi - 1))
  }

  /** Walking steps lo..mid and then mid..hi is walking lo..hi. */
  lemma {:induction false} RunSplit(w: Way, s: string, lo: nat, mid: nat, hi: nat)
    requires lo <= mid <= hi <= N
    ensures Run(w, s, lo, hi) == Run(w, Run(w, s, lo, mid), mid, hi)
    decreases hi - mid
  {
    if hi > mid {
      RunSplit(w, s, lo, mid, hi - 1);
    }
  }

  /** A text in which no pattern's first character occurs is left alone. */
  lemma {:induction false} RunLacksHeads(w: Way, t: string, lo: nat, hi: nat)
    requires lo <= hi <= N
    requires forall j :: lo <= j < hi ==> Lacks(t, Pat(w, j)[0])
    ensures Run(w, t, lo, hi) == t
    decreases hi - lo
  {
    if hi > lo {
      RunLacksHeads(w, t, lo, hi - 1);
      ReplaceAllLacksHead(t, Pat(w, hi - 1), Rep(w, hi - 1));
    }
  }

  /** A character absent from the text and from every replacement stays absent. */
  lemma {:induction false} RunKeepsLacks(w: Way, s: string, c: char, lo: nat, hi: nat)
    requires lo <= hi <= N && Lacks(s, c)
    requires forall k :: lo <= k < hi ==> Lacks(Rep(w, k), c)
    ensures Lacks(Run(w, s, lo, hi), c)
    decreases hi - lo
  {
    if hi > lo {
      RunKeepsLacks(w, s, c, lo, hi - 1);
      ReplaceAllKeepsLacks(Run(w, s, lo, hi - 1), Pat(w, hi - 1), Rep(w, hi - 1), c);
    }
  }

  /** A pair cd absent from the text, that no replacement can create, stays absent. */
  lemma {:induction false} RunKeepsLacksPair(w: Way, s: string, c: char, d: char, lo: nat, hi: nat)
    requires lo <= hi <= N && LacksPair(s, c, d)
    requires forall k :: lo <= k < hi ==> Lacks(Rep(w, k), c) && Lacks(Rep(w, k), d)
    ensures LacksPair(Run(w, s, lo, hi), c, d)
    decreases hi - lo
  {
    if hi > lo {
      RunKeepsLacksPair(w, s, c, d, lo, hi - 1);
      ReplaceAllKeepsLacksPair(Run(w, s, lo, hi - 1), Pat(w, hi - 1), Rep(w, hi - 1), c, d);
    }
  }

  // ---------------------------------------------------------------------------------------------
  // rusToEng

  /** The result of `rusToEng(s)`. */
  function ToLatin(s: string): string {
    Run(ToLatinWay, s, 0, N)
  }

  /** `rusToEng(input)`: rewrites the text once per table index, Cyrillic entry to Latin entry. */
  method RusToEng(input: string) returns (text: string)
    ensures text == ToLatin(input)
  {
    text := input;
    for i := 0 to N
      invariant text == Run(ToLatinWay, input, 0, i)
    {
      text := ReplaceAll(text, RuEntry(i), EnEntry(i));
    }
  }

  /** With single-letter patterns, every step of `rusToEng` commutes with concatenation. */
  lemma {:induction false} RunLatinConcat(a: string, b: string, hi: nat)
    requires hi <= N
    ensures Run(ToLatinWay, a + b, 0, hi) == Run(ToLatinWay, a, 0, hi) + Run(ToLatinWay, b, 0, hi)
  {
    if hi > 0 {
      RunLatinConcat(a, b, hi - 1);
      var p := RuEntry(hi - 1);
      assert p == [p[0]];
      ReplaceAllCharConcat(Run(ToLatinWay, a, 0, hi - 1), Run(ToLatinWay, b, 0, hi - 1), p[0], EnEntry(hi - 1));
    }
  }

  /** Transliteration works letter by letter: it commutes with concatenation. */
  lemma ToLatinConcat(a: string, b: string)
    ensures ToLatin(a + b) == ToLatin(a) + ToLatin(b)
  {
    RunLatinConcat(a, b, N);
  }

  /** A text with no `arr_ru` letter in it (Latin text, digits, spaces...) is returned unchanged. */
  lemma ToLatinUnchanged(s: string)
    requires forall j :: 0 <= j < N ==> Lacks(s, RuEntry(j)[0])
    ensures ToLatin(s) == s
  {
    RunLacksHeads(ToLatinWay, s, 0, N);
  }

  /** ASCII text is returned unchanged. */
  lemma ToLatinAscii(s: string)
    requires forall i :: 0 <= i < |s| ==> IsAscii(s[i])
    ensures ToLatin(s) == s
  {
    RunLacksHeads(ToLatinWay, s, 0, N);
  }

  /** The first `arr_ru` index holding a letter decides its spelling: `arr_en` at that index. */
  lemma ToLatinLetter(i: nat)
    requires i < N
    requires forall j :: 0 <= j < i ==> RuEntry(j) != RuEntry(i)
    ensures ToLatin(RuEntry(i)) == EnEntry(i)
  {
    var s := RuEntry(i);
    forall j | 0 <= j < i ensures Lacks(s, Pat(ToLatinWay, j)[0]) {
      assert RuEntry(j) == [RuEntry(j)[0]] && s == [s[0]];
    }
    RunLacksHeads(ToLatinWay, s, 0, i);
    ReplaceAllWhole(s, EnEntry(i));
    RunSplit(ToLatinWay, s, 0, i + 1, N);
    RunLacksHeads(ToLatinWay, EnEntry(i), i + 1, N);
  }

  /** No `arr_ru` letter survives `rusToEng`. */
  lemma ToLatinLeavesNoCyrillic(s: string, j: nat)
    requires j < N
    ensures Lacks(ToLatin(s), RuEntry(j)[0])
  {
    var c := RuEntry(j)[0];
    assert RuEntry(j) == [c];
    ReplaceAllRemovesChar(Run(ToLatinWay, s, 0, j), c, EnEntry(j));
    RunSplit(ToLatinWay, s, 0, j + 1, N);
    RunKeepsLacks(ToLatinWay, Run(ToLatinWay, s, 0, j + 1), c, j + 1, N);
  }

  // ---------------------------------------------------------------------------------------------
  // engToRus

  /** The result of `engToRus(s)`. */
  function ToCyrillic(s: string): string {
    Run(ToCyrillicWay, s, 0, N)
  }

  /** `engToRus(input)`: rewrites the text once per table index, Latin entry to Cyrillic entry. */
  method EngToRus(input: string) returns (text: string)
    ensures text == ToCyrillic(input)
  {
    text := input;
    for i := 0 to N
      invariant text == Run(ToCyrillicWay, input, 0, i)
    {
      text := ReplaceAll(text, EnEntry(i), RuEntry(i));
    }
  }

  /** Text with no ASCII character in it (Cyrillic text, for one) is returned unchanged. */
  lemma ToCyrillicUnchanged(s: string)
    requires forall i :: 0 <= i < |s| ==> !IsAscii(s[i])
    ensures ToCyrillic(s) == s
  {
    RunLacksHeads(ToCyrillicWay, s, 0, N);
  }

  /**
   * The `arr_en` indices whose Latin spelling already occurs at an earlier index. By the time the
   * walk reaches one of them, the earlier index has rewritten every occurrence of that spelling.
   */
  predicate Shadowed(i: int) { i in {8, 9, 24, 25, 61, 63, 64, 65} }

  /** The earlier index with the same spelling as a shadowed one. */
  function ShadowedBy(i: int): (e: nat)
    requires Shadowed(i)
    ensures e < i && EnEntry(e) == EnEntry(i)
  {
    if i == 8 then 6 else if i == 9 then 7
    else if i == 24 || i == 64 then 22 else if i == 25 || i == 65 then 23
    else if i == 61 then 60 else 62
  }

  /** The spelling p does not occur in the text. */
  predicate Gone(t: string, p: string) {
    if |p| == 1 then Lacks(t, p[0]) else |p| == 2 && LacksPair(t, p[0], p[1])
  }

  /** Right after step e of `engToRus`, the spelling `arr_en[e]` no longer occurs in the text. */
  lemma GoneAfterStep(t: string, e: nat)
    requires e < N
    ensures Gone(ReplaceAll(t, EnEntry(e), RuEntry(e)), EnEntry(e))
  {
    var p := EnEntry(e);
    var r := RuEntry(e);
    assert r == [r[0]];
    if |p| == 1 {
      assert p == [p[0]];
      ReplaceAllRemovesChar(t, p[0], r);
    } else {
      assert p == [p[0], p[1]];
      ReplaceAllRemovesPair(t, p[0], p[1], r);
    }
  }

  /** A Latin spelling that is gone stays gone: every `engToRus` replacement is one Cyrillic letter. */
  lemma GoneStaysGone(t: string, p: string, lo: nat, hi: nat)
    requires lo <= hi <= N && 1 <= |p| <= 2 && IsAscii(p[0]) && IsAscii(p[|p| - 1])
    requires Gone(t, p)
    ensures Gone(Run(ToCyrillicWay, t, lo, hi), p)
  {
    forall k | lo <= k < hi ensures Lacks(Rep(ToCyrillicWay, k), p[0]) && Lacks(Rep(ToCyrillicWay, k), p[|p| - 1]) {
      assert RuEntry(k) == [RuEntry(k)[0]];
    }
    if |p| == 1 {
      RunKeepsLacks(ToCyrillicWay, t, p[0], lo, hi);
    } else {
      RunKeepsLacksPair(ToCyrillicWay, t, p[0], p[1], lo, hi);
    }
  }

  lemma GoneIsFixed(t: string, p: string, r: string)
    requires 1 <= |p| <= 2 && Gone(t, p)
    ensures ReplaceAll(t, p, r) == t
  {
    if |p| == 1 {
      ReplaceAllLacksHead(t, p, r);
    } else {
      assert p == [p[0], p[1]];
      ReplaceAllLacksPair(t, p[0], p[1], r);
    }
  }

  /** Once steps 0..lo of `engToRus` have removed a Latin spelling, the later steps keep it out. */
  lemma GoneFromStep(s: string, p: string, lo: nat, hi: nat)
    requires lo <= hi <= N && 1 <= |p| <= 2 && IsAscii(p[0]) && IsAscii(p[|p| - 1])
    requires Gone(Run(ToCyrillicWay, s, 0, lo), p)
    ensures Gone(Run(ToCyrillicWay, s, 0, hi), p)
  {
    GoneStaysGone(Run(ToCyrillicWay, s, 0, lo), p, lo, hi);
    RunSplit(ToCyrillicWay, s, 0, lo, hi);
  }

  /** A step whose spelling an earlier step e already rewrote never changes the text. */
  lemma RepeatedStepIsIdentity(s: string, e: nat, i: nat)
    requires e < i < N && EnEntry(e) == EnEntry(i)
    ensures Run(ToCyrillicWay, s, 0, i + 1) == Run(ToCyrillicWay, s, 0, i)
  {
    var p := EnEntry(i);
    var before := Run(ToCyrillicWay, s, 0, e);
    assert Run(ToCyrillicWay, s, 0, e + 1) == ReplaceAll(before, EnEntry(e), RuEntry(e));
    GoneAfterStep(before, e);
    GoneFromStep(s, p, e + 1, i);
    var t := Run(ToCyrillicWay, s, 0, i);
    GoneIsFixed(t, p, RuEntry(i));
    assert Run(ToCyrillicWay, s, 0, i + 1) == ReplaceAll(t, p, RuEntry(i));
  }

  /** A shadowed `engToRus` step never changes the text: its entry can never fire. */
  lemma ShadowedStepIsIdentity(s: string, i: nat)
    requires Shadowed(i)
    ensures Run(ToCyrillicWay, s, 0, i + 1) == Run(ToCyrillicWay, s, 0, i)
  {
    RepeatedStepIsIdentity(s, ShadowedBy(i), i);
  }

  /** The letters only shadowed entries produce: Щ щ Ё ё ь ъ Э э. */
  predicate Unreachable(c: char) { c in {'Щ', 'щ', 'Ё', 'ё', 'ь', 'ъ', 'Э', 'э'} }

  lemma UnreachableOnlyFromShadowed(k: nat)
    requires k < N && !Shadowed(k)
    ensures !Unreachable(RuEntry(k)[0])
  {
  }

  /** Steps 0..n of `engToRus` never produce Щ щ Ё ё ь ъ Э э. */
  lemma {:induction false} CyrillicNeverProduces(s: string, c: char, n: nat)
    requires Unreachable(c) && Lacks(s, c) && n <= N
    ensures Lacks(Run(ToCyrillicWay, s, 0, n), c)
  {
    if n > 0 {
      var k := n - 1;
      CyrillicNeverProduces(s, c, k);
      if Shadowed(k) {
        ShadowedStepIsIdentity(s, k);
      } else {
        UnreachableOnlyFromShadowed(k);
        assert RuEntry(k) == [RuEntry(k)[0]];
        ReplaceAllKeepsLacks(Run(ToCyrillicWay, s, 0, k), EnEntry(k), RuEntry(k), c);
      }
    }
  }

  /** `engToRus` never produces Щ щ Ё ё ь ъ Э э that were not already in its input. */
  lemma ToCyrillicOmits(s: string, c: char)
    requires Unreachable(c) && Lacks(s, c)
    ensures Lacks(ToCyrillic(s), c)
  {
    CyrillicNeverProduces(s, c, N);
  }

  /** No Latin letter that is a whole `arr_en` entry by itself survives `engToRus`. */
  lemma ToCyrillicLeavesNoSingleLatin(s: string, j: nat)
    requires j < N && |EnEntry(j)| == 1
    ensures Lacks(ToCyrillic(s), EnEntry(j)[0])
  {
    GoneAfterStep(Run(ToCyrillicWay, s, 0, j), j);
    GoneFromStep(s, EnEntry(j), j + 1, N);
  }

  /** The spelling at index i, if no earlier pattern starts with one of its letters, becomes `arr_ru[i]`. */
  lemma CyrillicOfSpelling(i: nat)
    requires i < N
    requires forall j :: 0 <= j < i ==> Lacks(EnEntry(i), EnEntry(j)[0])
    ensures ToCyrillic(EnEntry(i)) == RuEntry(i)
  {
    var s := EnEntry(i);
    RunLacksHeads(ToCyrillicWay, s, 0, i);
    ReplaceAllWhole(s, RuEntry(i));
    RunSplit(ToCyrillicWay, s, 0, i + 1, N);
    var t := RuEntry(i);
    forall j | i + 1 <= j < N ensures Lacks(t, Pat(ToCyrillicWay, j)[0]) {
      assert t == [t[0]];
    }
    RunLacksHeads(ToCyrillicWay, t, i + 1, N);
  }

  /** `engToRus` reads the digraphs "Sh" and "sh" as Ш and ш (indices 6 and 7). */
  lemma ToCyrillicDigraphs()
    ensures ToCyrillic("Sh") == "Ш" && ToCyrillic("sh") == "ш"
  {
    CyrillicOfSpelling(6);
    CyrillicOfSpelling(7);
  }

  /** `rusToEng` spells с (index 47) as "s". */
  lemma LatinOfEs()
    ensures ToLatin(RuEntry(47)) == "s"
  {
    ToLatinLetter(47);
  }

  /** `rusToEng` spells х (index 55) as "h". */
  lemma LatinOfHa()
    ensures ToLatin(RuEntry(55)) == "h"
  {
    ToLatinLetter(55);
  }

  lemma LatinOfEsHa()
    ensures ToLatin(RuEntry(47) + RuEntry(55)) == "sh"
  {
    ToLatinConcat(RuEntry(47), RuEntry(55));
    LatinOfEs();
    LatinOfHa();
  }

  /**
   * The two helpers are not inverse to each other: `rusToEng` spells the two letters "сх" as
   * "sh", which `engToRus` reads back as the single letter "ш".
   */
  lemma NotARoundTrip(w: string)
    requires w == "сх"
    ensures ToLatin(w) == "sh"
    ensures ToCyrillic(ToLatin(w)) == "ш" != w
  {
    assert w == RuEntry(47) + RuEntry(55);
    LatinOfEsHa();
    ToCyrillicDigraphs();
  }
}
