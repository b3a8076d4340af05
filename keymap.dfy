/**
 * The QWERTY <-> ЙЦУКЕН keyboard-layout tables and the per-character layout switch that both
 * search implementations (`_switchKeymap`) run over a query.
 *
 * Each table is one object literal in the source (its unshifted half followed by its shifted half);
 * here each is a lookup function with one arm per entry, in the literal's order, and `None` for a
 * character that is not a key of the table.
 */
module Keymap {
  import opened Util

  /** `engToRus[c]`: the ЙЦУКЕН glyph on the same physical key as the QWERTY glyph c. */
  function EngToRus(c: char): Option<char> {
    match c
    case 'q' => Some('й') case 'w' => Some('ц') case 'e' => Some('у') case 'r' => Some('к')
    case 't' => Some('е') case 'y' => Some('н') case 'u' => Some('г') case 'i' => Some('ш')
    case 'o' => Some('щ') case 'p' => Some('з') case '[' => Some('х') case ']' => Some('ъ')
    case 'a' => Some('ф') case 's' => Some('ы') case 'd' => Some('в') case 'f' => Some('а')
    case 'g' => Some('п') case 'h' => Some('р') case 'j' => Some('о') case 'k' => Some('л')
    case 'l' => Some('д') case ';' => Some('ж') case '\'' => Some('э') case 'z' => Some('я')
    case 'x' => Some('ч') case 'c' => Some('с') case 'v' => Some('м') case 'b' => Some('и')
    case 'n' => Some('т') case 'm' => Some('ь') case ',' => Some('б') case '.' => Some('ю')
    case 'Q' => Some('Й') case 'W' => Some('Ц') case 'E' => Some('У') case 'R' => Some('К')
    case 'T' => Some('Е') case 'Y' => Some('Н') case 'U' => Some('Г') case 'I' => Some('Ш')
    case 'O' => Some('Щ') case 'P' => Some('З') case '{' => Some('Х') case '}' => Some('Ъ')
    case 'A' => Some('Ф') case 'S' => Some('Ы') case 'D' => Some('В') case 'F' => Some('А')
    case 'G' => Some('П') case 'H' => Some('Р') case 'J' => Some('О') case 'K' => Some('Л')
    case 'L' => Some('Д') case ':' => Some('Ж') case '"' => Some('Э') case 'Z' => Some('Я')
    case 'X' => Some('Ч') case 'C' => Some('С') case 'V' => Some('М') case 'B' => Some('И')
    case 'N' => Some('Т') case 'M' => Some('Ь') case '<' => Some('Б') case '>' => Some('Ю')
    case _ => None
  }

  /** `rusToEng[c]`: the QWERTY glyph on the same physical key as the ЙЦУКЕН glyph c. */
  function RusToEng(c: char): Option<char> {
    match c
    case 'й' => Some('q') case 'ц' => Some('w') case 'у' => Some('e') case 'к' => Some('r')
    case 'е' => Some('t') case 'н' => Some('y') case 'г' => Some('u') case 'ш' => Some('i')
    case 'щ' => Some('o') case 'з' => Some('p') case 'х' => Some('[') case 'ъ' => Some(']')
    case 'ф' => Some('a') case 'ы' => Some('s') case 'в' => Some('d') case 'а' => Some('f')
    case 'п' => Some('g') case 'р' => Some('h') case 'о' => Some('j') case 'л' => Some('k')
    case 'д' => Some('l') case 'ж' => Some(';') case 'э' => Some('\'') case 'я' => Some('z')
    case 'ч' => Some('x') case 'с' => Some('c') case 'м' => Some('v') case 'и' => Some('b')
    case 'т' => Some('n') case 'ь' => Some('m') case 'б' => Some(',') case 'ю' => Some('.')
    case 'Й' => Some('Q') case 'Ц' => Some('W') case 'У' => Some('E') case 'К' => Some('R')
    case 'Е' => Some('T') case 'Н' => Some('Y') case 'Г' => Some('U') case 'Ш' => Some('I')
    case 'Щ' => Some('O') case 'З' => Some('P') case 'Х' => Some('{') case 'Ъ' => Some('}')
    case 'Ф' => Some('A') case 'Ы' => Some('S') case 'В' => Some('D') case 'А' => Some('F')
    case 'П' => Some('G') case 'Р' => Some('H') case 'О' => Some('J') case 'Л' => Some('K')
    case 'Д' => Some('L') case 'Ж' => Some(':') case 'Э' => Some('"') case 'Я' => Some('Z')
    case 'Ч' => Some('X') case 'С' => Some('C') case 'М' => Some('V') case 'И' => Some('B')
    case 'Т' => Some('N') case 'Ь' => Some('M') case 'Б' => Some('<') case 'Ю' => Some('>')
    case _ => None
  }

  /** One step of `_switchKeymap`: `engToRus[c] || rusToEng[c] || c` (no table value is empty). */
  function SwitchChar(c: char): char {
    match EngToRus(c)
    case Some(d) => d
    case None =>
      match RusToEng(c)
      case Some(d) => d
      case None => c
  }

  /** The layout-switched text, character by character. */
  function Switched(s: string): string {
    seq(|s|, i requires 0 <= i < |s| => SwitchChar(s[i]))
  }

  /** `_switchKeymap(query, keymaps)`: pushes one switched character per input character and joins them. */
  method SwitchKeymap(query: string) returns (q: string)
    ensures q == Switched(query)
    ensures |q| == |query|
    ensures forall i :: 0 <= i < |query| && EngToRus(query[i]).None? && RusToEng(query[i]).None? ==> q[i] == query[i]
  {
    q := [];
    for i := 0 to |query|
      invariant q == Switched(query[..i])
    {
      q := q + [SwitchChar(query[i])];
    }
    assert query[..|query|] == query;
  }

  /** Every key of `engToRus` is an ASCII character. */
  lemma EngToRusKeysAscii(c: char)
    ensures EngToRus(c).Some? ==> c < 128 as char
  {
  }

  /** Every key of `rusToEng` is a Cyrillic letter (at or above U+0400). */
  lemma RusToEngKeysCyrillic(c: char)
    ensures RusToEng(c).Some? ==> c >= 'Ѐ'
  {
  }

  /** Looking a QWERTY glyph up in `engToRus` and the answer in `rusToEng` gives the glyph back. */
  lemma EngToRusThenRusToEng(c: char)
    ensures EngToRus(c).Some? ==> RusToEng(EngToRus(c).value) == Some(c)
  {
  }

  /** Looking a ЙЦУКЕН glyph up in `rusToEng` and the answer in `engToRus` gives the glyph back. */
  lemma RusToEngThenEngToRus(c: char)
    ensures RusToEng(c).Some? ==> EngToRus(RusToEng(c).value) == Some(c)
  {
  }

  /** The two tables are mutual inverses, and no character is a key of both. */
  lemma KeymapsInverse(c: char)
    ensures EngToRus(c).Some? ==> RusToEng(c).None?
    ensures EngToRus(c).Some? ==> RusToEng(EngToRus(c).value) == Some(c)
    ensures RusToEng(c).Some? ==> EngToRus(RusToEng(c).value) == Some(c)
  {
    EngToRusKeysAscii(c);
    RusToEngKeysCyrillic(c);
    EngToRusThenRusToEng(c);
    RusToEngThenEngToRus(c);
  }

  /** Switching one character twice gives it back. */
  lemma SwitchCharTwice(c: char)
    ensures SwitchChar(SwitchChar(c)) == c
  {
    KeymapsInverse(c);
    KeymapsInverse(SwitchChar(c));
  }

  /** Switching a whole text twice gives it back: the layout switch is an involution. */
  lemma SwitchedTwice(s: string)
    ensures Switched(Switched(s)) == s
  {
    forall i | 0 <= i < |s|
      ensures Switched(Switched(s))[i] == s[i]
    {
      SwitchCharTwice(s[i]);
    }
  }
}
