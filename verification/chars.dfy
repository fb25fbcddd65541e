/**
 * A concrete character model for the text normalisers.
 *
 * Python's and JavaScript's string functions consult the full Unicode tables. This
 * module fixes a small, explicit table instead. It is exact for ASCII and the Latin-1
 * Supplement (U+0000..U+00FF), which is where the Portuguese text the system handles
 * lives. Above U+00FF the model treats characters as caseless and without
 * decomposition. Only the combining diacritics U+0300..U+036F count as marks, and
 * only the General Punctuation, Currency Symbols and CJK Symbols blocks count as
 * non-word characters.
 */
module Chars {

  /** Python's str.isspace. The same class is used by `\s`, str.split() and str.strip(). */
  predicate IsSpace(c: char) {
    || ('\t' <= c <= '\r')
    || ('\U{1C}' <= c <= '\U{1F}')
    || c == ' ' || c == '\U{85}' || c == '\U{A0}' || c == '\U{1680}'
    || ('\U{2000}' <= c <= '\U{200A}')
    || c == '\U{2028}' || c == '\U{2029}' || c == '\U{202F}' || c == '\U{205F}'
    || c == '\U{3000}'
  }

  /** Unicode general category Mn, restricted to the Combining Diacritical Marks block. */
  predicate IsMark(c: char) {
    '\U{300}' <= c <= '\U{36F}'
  }

  predicate IsAsciiLetter(c: char) {
    ('a' <= c <= 'z') || ('A' <= c <= 'Z')
  }

  predicate IsAsciiDigit(c: char) {
    '0' <= c <= '9'
  }

  /** Python's `\w` for str patterns: alphanumeric characters and the underscore. */
  predicate IsWord(c: char) {
    if c < '\U{80}' then
      IsAsciiLetter(c) || IsAsciiDigit(c) || c == '_'
    else if c < '\U{100}' then
      // ª ² ³ µ ¹ º ¼ ½ ¾ and the Latin-1 letters except × and ÷
      || c == '\U{AA}' || c == '\U{B2}' || c == '\U{B3}' || c == '\U{B5}'
      || c == '\U{B9}' || c == '\U{BA}' || ('\U{BC}' <= c <= '\U{BE}')
      || ('\U{C0}' <= c <= '\U{FF}' && c != '\U{D7}' && c != '\U{F7}')
    else
      && !IsMark(c) && !IsSpace(c)
      && !('\U{2000}' <= c <= '\U{206F}')
      && !('\U{20A0}' <= c <= '\U{20CF}')
      && !('\U{3000}' <= c <= '\U{303F}')
  }

  /** Python's str.isdigit on one character: ASCII digits and the superscripts ² ³ ¹. */
  predicate IsPyDigit(c: char) {
    IsAsciiDigit(c) || c == '\U{B2}' || c == '\U{B3}' || c == '\U{B9}'
  }

  /** The upper-case row of Latin-1 letters, U+00C0..U+00DD. */
  predicate InUpperRow(c: char) {
    '\U{C0}' <= c <= '\U{DD}'
  }

  /**
   * The base letter of a precomposed Latin-1 letter (the first character of its NFD
   * form), for the upper-case row U+00C0..U+00DD. Letters without a canonical
   * decomposition (Æ Ð × Ø Þ) give themselves.
   */
  function UpperRowBase(c: char): char
    requires InUpperRow(c)
  {
    if c <= '\U{C5}' then 'A'
    else if c == '\U{C7}' then 'C'
    else if '\U{C8}' <= c <= '\U{CB}' then 'E'
    else if '\U{CC}' <= c <= '\U{CF}' then 'I'
    else if c == '\U{D1}' then 'N'
    else if '\U{D2}' <= c <= '\U{D6}' then 'O'
    else if '\U{D9}' <= c <= '\U{DC}' then 'U'
    else if c == '\U{DD}' then 'Y'
    else c
  }

  /** The combining mark of the NFD form of an upper-case-row letter. */
  function UpperRowMark(c: char): char
    requires InUpperRow(c)
    requires UpperRowBase(c) != c
  {
    if c == '\U{C7}' then '\U{327}'
    else if c == '\U{C0}' || c == '\U{C8}' || c == '\U{CC}' || c == '\U{D2}' || c == '\U{D9}' then '\U{300}'
    else if c == '\U{C1}' || c == '\U{C9}' || c == '\U{CD}' || c == '\U{D3}' || c == '\U{DA}' || c == '\U{DD}' then '\U{301}'
    else if c == '\U{C2}' || c == '\U{CA}' || c == '\U{CE}' || c == '\U{D4}' || c == '\U{DB}' then '\U{302}'
    else if c == '\U{C3}' || c == '\U{D1}' || c == '\U{D5}' then '\U{303}'
    else if c == '\U{C5}' then '\U{30A}'
    else '\U{308}'
  }

  /** The canonical decomposition (NFD) of one character. */
  function Decompose(c: char): (r: seq<char>)
    ensures 1 <= |r| <= 2
    ensures |r| == 2 ==> IsAsciiLetter(r[0]) && IsMark(r[1])
  {
    if '\U{C0}' <= c <= '\U{DD}' && UpperRowBase(c) != c then
      [UpperRowBase(c), UpperRowMark(c)]
    else if '\U{E0}' <= c <= '\U{FD}' && UpperRowBase((c as int - 0x20) as char) != (c as int - 0x20) as char then
      var u := (c as int - 0x20) as char;
      [(UpperRowBase(u) as int + 0x20) as char, UpperRowMark(u)]
    else if c == '\U{FF}' then
      ['y', '\U{308}']
    else
      [c]
  }

  /** NFD followed by dropping the category-Mn characters, for one input character. */
  function Deaccent(c: char): seq<char> {
    var d := Decompose(c);
    if |d| == 2 then [d[0]] else if IsMark(c) then [] else [c]
  }

  /** A character that accent stripping leaves alone. */
  predicate IsPlain(c: char) {
    Deaccent(c) == [c]
  }

  /** Python's (and JavaScript's) full upper-casing of one character. */
  function Upper(c: char): seq<char> {
    if 'a' <= c <= 'z' then [(c as int - 32) as char]
    else if c == '\U{B5}' then ['\U{39C}']
    else if c == '\U{DF}' then ['S', 'S']
    else if ('\U{E0}' <= c <= '\U{FE}') && c != '\U{F7}' then [(c as int - 32) as char]
    else if c == '\U{FF}' then ['\U{178}']
    else [c]
  }

  /** Python's (and JavaScript's) lower-casing of one character. */
  function Lower(c: char): char {
    if 'A' <= c <= 'Z' then (c as int + 32) as char
    else if ('\U{C0}' <= c <= '\U{DE}') && c != '\U{D7}' then (c as int + 32) as char
    else c
  }

  /** The characters a match key is made of, besides the single space. */
  predicate IsKeyChar(c: char) {
    IsWord(c) && !IsSpace(c) && IsPlain(c) && Upper(c) == [c]
  }

  lemma {:induction false} DeaccentIsPlain(c: char)
    ensures forall i :: 0 <= i < |Deaccent(c)| ==> IsPlain(Deaccent(c)[i])
  {
    var d := Decompose(c);
    if |d| == 2 {
      assert Deaccent(d[0]) == [d[0]];
    }
  }

  lemma NonWordPlainIsCaseless(c: char)
    requires IsPlain(c) && !IsWord(c)
    ensures Upper(c) == [c]
  {
  }

  lemma UpperOfPlainWord(c: char)
    requires IsPlain(c) && IsWord(c)
    ensures forall i :: 0 <= i < |Upper(c)| ==> IsKeyChar(Upper(c)[i])
  {
  }

  lemma SpaceIsPlainAndCaseless(c: char)
    requires IsSpace(c)
    ensures IsPlain(c) && Upper(c) == [c] && !IsWord(c)
  {
  }

  lemma KeyCharFacts(c: char)
    requires IsKeyChar(c)
    ensures IsPlain(c) && Upper(c) == [c] && IsWord(c) && !IsSpace(c)
    ensures c != '-' && c != ':' && c != '(' && c != ')'
  {
  }
}
