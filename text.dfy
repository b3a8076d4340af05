/**
 * The two string built-ins the matcher relies on: `toLowerCase()` and `indexOf(q) > -1`.
 * Lower-casing is abstracted to a per-character function over ASCII and the basic Cyrillic block.
 */
module Text {

  /** Lower case of one character: ASCII A-Z, Cyrillic А-Я (U+0410..U+042F) and Ѐ-Џ (U+0400..U+040F). */
  function LowerChar(c: char): char {
    if 'A' <= c <= 'Z' then (c as int + 32) as char
    else if 'А' <= c <= 'Я' then (c as int + 32) as char
    else if 'Ѐ' <= c <= 'Џ' then (c as int + 80) as char
    else c
  }

  /** `s.toLowerCase()` */
  function Lower(s: string): string {
    seq(|s|, i requires 0 <= i < |s| => LowerChar(s[i]))
  }

  /** Lower-casing keeps the length and leaves every character outside A-Z and U+0400-U+042F as it is. */
  lemma LowerKeeps(s: string)
    ensures |Lower(s)| == |s|
    ensures forall i :: 0 <= i < |s| && !('A' <= s[i] <= 'Z') && !('Ѐ' <= s[i] <= 'Я') ==> Lower(s)[i] == s[i]
    ensures forall i :: 0 <= i < |s| && 'A' <= s[i] <= 'Z' ==> Lower(s)[i] as int == s[i] as int + 32
  {
  }

  predicate StartsWith(s: string, p: string) {
    |p| <= |s| && s[..|p|] == p
  }

  /** `text.indexOf(q) > -1`: q occurs in text (the empty string occurs everywhere). */
  predicate Contains(text: string, q: string)
    decreases |text|
  {
    StartsWith(text, q) || (|text| > 0 && Contains(text[1..], q))
  }

  /** q occurs in text at offset i. */
  predicate OccursAt(text: string, q: string, i: int) {
    0 <= i <= |text| - |q| && text[i..i + |q|] == q
  }

  /** Contains agrees with the declarative reading: some offset of text starts an occurrence of q. */
  lemma {:induction false} ContainsAt(text: string, q: string)
    ensures Contains(text, q) <==> exists i :: OccursAt(text, q, i)
    decreases |text|
  {
    if StartsWith(text, q) {
      assert OccursAt(text, q, 0);
    } else if |text| > 0 {
      ContainsAt(text[1..], q);
      if exists i :: OccursAt(text, q, i) {
        var i :| OccursAt(text, q, i);
        assert i > 0;
        assert text[1..][i - 1..i - 1 + |q|] == text[i..i + |q|];
        assert OccursAt(text[1..], q, i - 1);
      }
      if Contains(text[1..], q) {
        var i :| OccursAt(text[1..], q, i);
        assert text[i + 1..i + 1 + |q|] == text[1..][i..i + |q|];
        assert OccursAt(text, q, i + 1);
      }
    }
  }

  /** `s.replace(" ", "")`: a string pattern, so only the first space is removed. */
  function RemoveFirstSpace(s: string): string
    decreases |s|
  {
    if |s| == 0 then s
    else if s[0] == ' ' then s[1..]
    else [s[0]] + RemoveFirstSpace(s[1..])
  }

  /** With a space at index i and none before it, exactly that space is cut out. */
  lemma {:induction false} RemoveFirstSpaceAt(s: string, i: nat)
    requires i < |s| && s[i] == ' ' && forall j :: 0 <= j < i ==> s[j] != ' '
    ensures RemoveFirstSpace(s) == s[..i] + s[i + 1..]
    decreases i
  {
    if i > 0 {
      RemoveFirstSpaceAt(s[1..], i - 1);
      assert [s[0]] + (s[1..][..i - 1] + s[1..][i..]) == s[..i] + s[i + 1..];
    }
  }

  /** A string without spaces is returned unchanged. */
  lemma {:induction false} RemoveFirstSpaceNone(s: string)
    requires forall j :: 0 <= j < |s| ==> s[j] != ' '
    ensures RemoveFirstSpace(s) == s
    decreases |s|
  {
    if |s| > 0 {
      RemoveFirstSpaceNone(s[1..]);
      assert [s[0]] + s[1..] == s;
    }
  }
}
