/** Character-level Unicode behaviour that the normalisers of the system rely
    on: Python's `str.lower`, `str.casefold`, NFKD decomposition (Unicode
    Standard Annex #15) and the regular-expression classes `\s`, `\w` and `\d`.

    Every mapping here is exact on U+0000..U+00FF (ASCII and Latin-1, which
    covers the Spanish vocabulary of the catalog). Above U+00FF the case
    mappings and the decomposition are the identity and the word class is an
    approximation: combining marks, the General Punctuation block and
    whitespace are not word characters, everything else is. */
module Unicode {

  const Grave := '\U{300}'
  const Acute := '\U{301}'
  const Circumflex := '\U{302}'
  const Tilde := '\U{303}'
  const Macron := '\U{304}'
  const Diaeresis := '\U{308}'
  const RingAbove := '\U{30A}'
  const Cedilla := '\U{327}'
  const FractionSlash := '\U{2044}'
  const GreekMu := '\U{3BC}'

  /** Python's `str.isspace()`; the regex class `\s` on `str` patterns matches
      the same characters. */
  predicate IsSpace(c: char) {
    || ('\t' <= c <= '\r')
    || ('\U{1C}' <= c <= '\U{1F}')
    || c == ' ' || c == '\U{85}' || c == '\U{A0}' || c == '\U{1680}'
    || ('\U{2000}' <= c <= '\U{200A}')
    || c == '\U{2028}' || c == '\U{2029}' || c == '\U{202F}' || c == '\U{205F}' || c == '\U{3000}'
  }

  /** The regex class `\d`: decimal digits. */
  predicate IsDigit(c: char) {
    '0' <= c <= '9'
  }

  /** Characters that survive `.encode('ascii', 'ignore')`. */
  predicate IsAscii(c: char) {
    c < '\U{80}'
  }

  /** The regex class `\w` on `str` patterns: `str.isalnum()` or underscore. */
  predicate IsWordChar(c: char) {
    if c <= '\U{FF}' then
      || IsDigit(c) || ('A' <= c <= 'Z') || ('a' <= c <= 'z') || c == '_'
      || c == 'ª' || c == '²' || c == '³' || c == 'µ' || c == '¹' || c == 'º'
      || ('¼' <= c <= '¾')
      || ('À' <= c <= 'ÿ' && c != '×' && c != '÷')
    else
      !IsSpace(c) && !('\U{300}' <= c <= '\U{36F}') && !('\U{2000}' <= c <= '\U{206F}')
  }

  /** ASCII capital letters. */
  predicate IsAsciiUpper(c: char) {
    'A' <= c <= 'Z'
  }

  /** Python's `str.lower()` on one character. */
  function Lower(c: char): (r: char)
    ensures IsSpace(r) <==> IsSpace(c)
    ensures !IsAsciiUpper(r)
    ensures IsAscii(r) <==> IsAscii(c)
  {
    if 'A' <= c <= 'Z' || ('À' <= c <= 'Þ' && c != '×') then (c as int + 32) as char else c
  }

  /** Python's `str.casefold()` on one character: lower-casing, except that
      sharp s folds to "ss" and the micro sign to Greek mu. */
  function CaseFold(c: char): (r: string)
    ensures |r| >= 1
  {
    if c == 'ß' then "ss"
    else if c == 'µ' then [GreekMu]
    else [Lower(c)]
  }

  /** NFKD of one character: the full compatibility decomposition of every
      character of U+0000..U+00FF. */
  function Decompose(c: char): (r: string)
    ensures |r| >= 1
  {
    if c < '\U{A0}' || c > '\U{FF}' then [c]
    else if c < 'À' then CompatDecompose(c)
    else if HasAccent(c) then [BaseLetter(c), Accent(c)]
    else [c]
  }

  /** Combining diacritical marks, U+0300..U+036F. */
  predicate IsCombining(c: char) {
    '\U{300}' <= c <= '\U{36F}'
  }

  /** NFKD of U+00A0..U+00BF. */
  function CompatDecompose(c: char): (r: string)
    ensures 1 <= |r| <= 3
  {
    match c
    case '\U{A0}' => " "
    case '¨' => [' ', Diaeresis]
    case 'ª' => "a"
    case '¯' => [' ', Macron]
    case '²' => "2"
    case '³' => "3"
    case '´' => [' ', Acute]
    case 'µ' => [GreekMu]
    case '¸' => [' ', Cedilla]
    case '¹' => "1"
    case 'º' => "o"
    case '¼' => ['1', FractionSlash, '4']
    case '½' => ['1', FractionSlash, '2']
    case '¾' => ['3', FractionSlash, '4']
    case _ => [c]
  }

  /** The Latin-1 letters that decompose into a base letter and an
      accent: all of U+00C0..U+00FF except Æ, Ð, ×, Ø, Þ, ß, æ, ð, ÷, ø
      and þ. */
  predicate HasAccent(c: char) {
    && 'À' <= c <= 'ÿ'
    && c != 'Æ' && c != 'Ð' && c != '×' && c != 'Ø' && c != 'Þ' && c != 'ß'
    && c != 'æ' && c != 'ð' && c != '÷' && c != 'ø' && c != 'þ'
  }

  /** The base letter of an accented Latin-1 letter; it has the letter's
      case. */
  function BaseLetter(c: char): (r: char)
    ensures 'A' <= r <= 'Z' || 'a' <= r <= 'z'
    ensures c >= 'ß' ==> 'a' <= r <= 'z'
  {
    if 'À' <= c <= 'Å' then 'A'
    else if c == 'Ç' then 'C'
    else if 'È' <= c <= 'Ë' then 'E'
    else if 'Ì' <= c <= 'Ï' then 'I'
    else if c == 'Ñ' then 'N'
    else if 'Ò' <= c <= 'Ö' then 'O'
    else if 'Ù' <= c <= 'Ü' then 'U'
    else if c == 'Ý' then 'Y'
    else if 'à' <= c <= 'å' then 'a'
    else if c == 'ç' then 'c'
    else if 'è' <= c <= 'ë' then 'e'
    else if 'ì' <= c <= 'ï' then 'i'
    else if c == 'ñ' then 'n'
    else if 'ò' <= c <= 'ö' then 'o'
    else if 'ù' <= c <= 'ü' then 'u'
    else 'y'
  }

  /** The combining accent of an accented Latin-1 letter. */
  function Accent(c: char): (r: char)
    ensures IsCombining(r)
  {
    var l := Lower(c);
    if l == 'à' || l == 'è' || l == 'ì' || l == 'ò' || l == 'ù' then Grave
    else if l == 'á' || l == 'é' || l == 'í' || l == 'ó' || l == 'ú' || l == 'ý' then Acute
    else if l == 'â' || l == 'ê' || l == 'î' || l == 'ô' || l == 'û' then Circumflex
    else if l == 'ã' || l == 'ñ' || l == 'õ' then Tilde
    else if l == 'å' then RingAbove
    else if l == 'ç' then Cedilla
    else Diaeresis
  }

  /** Lower-casing a character that is already lower case changes nothing. */
  lemma LowerIdempotent(c: char)
    ensures Lower(Lower(c)) == Lower(c)
  {
  }

  /** The decomposition of a lower-case character holds no ASCII capital:
      the base letter of a lower-case accented letter is lower case. */
  lemma DecomposeLowered(c: char)
    requires Lower(c) == c
    ensures forall i :: 0 <= i < |Decompose(c)| ==> !IsAsciiUpper(Decompose(c)[i])
  {
  }

  /** A character that decomposition and case folding both leave alone. */
  predicate IsSettled(c: char) {
    Decompose(c) == [c] && CaseFold(c) == [c]
  }

  /** NFKD is idempotent: every character of a decomposition is its own
      decomposition. */
  lemma DecomposeIsFull(c: char)
    ensures forall i :: 0 <= i < |Decompose(c)| ==> Decompose(Decompose(c)[i]) == [Decompose(c)[i]]
  {
    var r := Decompose(c);
    if '\U{A0}' <= c < 'À' {
      assert forall i :: 0 <= i < |r| ==> r[i] < '\U{A0}' || IsCombining(r[i]) || r[i] == FractionSlash || r[i] == GreekMu || r == [c];
    }
  }

  /** Case folding a fully decomposed character gives settled characters
      only. */
  lemma CaseFoldOfDecomposedSettles(d: char)
    requires Decompose(d) == [d]
    ensures forall j :: 0 <= j < |CaseFold(d)| ==> IsSettled(CaseFold(d)[j])
  {
  }
}
