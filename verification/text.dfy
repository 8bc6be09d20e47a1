/** String operations of Python's `str` type and of the two regular
    expression substitutions the catalog normalisers use, built on the
    character-level behaviour of module Unicode.

    The functions carry only shape facts (lengths, first and last
    characters); what they do to each character is stated by a companion
    lemma, which callers invoke where they need it. */
module Text {
  import opened Unicode

  // ---------------------------------------------------------------------
  // Character-wise mappings
  // ---------------------------------------------------------------------

  /** `s.lower()`. */
  function LowerStr(s: string): (r: string)
    ensures |r| == |s|
  {
    if s == [] then [] else [Lower(s[0])] + LowerStr(s[1..])
  }

  /** Lower-casing works character by character and a second pass changes
      nothing. */
  lemma {:induction false} LowerStrFacts(s: string)
    ensures forall i :: 0 <= i < |s| ==> LowerStr(s)[i] == Lower(s[i])
    ensures LowerStr(LowerStr(s)) == LowerStr(s)
    decreases |s|
  {
    if s != [] {
      LowerStrFacts(s[1..]);
      LowerIdempotent(s[0]);
      assert LowerStr(s)[1..] == LowerStr(s[1..]);
    }
  }

  /** Applies a character-to-text mapping to every character and
      concatenates the results. */
  function FlatMap(s: string, f: char -> string): string {
    if s == [] then [] else f(s[0]) + FlatMap(s[1..], f)
  }

  /** The mapping works character by character. */
  lemma {:induction false} FlatMapConcat(a: string, b: string, f: char -> string)
    ensures FlatMap(a + b, f) == FlatMap(a, f) + FlatMap(b, f)
    decreases |a|
  {
    if a != [] {
      FlatMapConcat(a[1..], b, f);
      assert (a + b)[0] == a[0] && (a + b)[1..] == a[1..] + b;
    } else {
      assert a + b == b;
    }
  }

  /** A mapping that never deletes a character never shortens the text. */
  lemma {:induction false} FlatMapLength(s: string, f: char -> string)
    requires forall i :: 0 <= i < |s| ==> |f(s[i])| >= 1
    ensures |FlatMap(s, f)| >= |s|
    decreases |s|
  {
    if s != [] {
      FlatMapLength(s[1..], f);
    }
  }

  /** A property of every character the mapping produces for the
      characters of `s` holds of every character of the result. */
  lemma {:induction false} FlatMapKeeps(s: string, f: char -> string, p: char -> bool)
    requires forall i, j :: 0 <= i < |s| && 0 <= j < |f(s[i])| ==> p(f(s[i])[j])
    ensures forall k :: 0 <= k < |FlatMap(s, f)| ==> p(FlatMap(s, f)[k])
    decreases |s|
  {
    if s != [] {
      FlatMapKeeps(s[1..], f, p);
      var head, tail := f(s[0]), FlatMap(s[1..], f);
      assert FlatMap(s, f) == head + tail;
      assert forall k :: |head| <= k < |head| + |tail| ==> (head + tail)[k] == tail[k - |head|];
    }
  }

  /** Text whose every character the mapping sends to itself is left
      alone. */
  lemma {:induction false} FlatMapFixed(s: string, f: char -> string)
    requires forall i :: 0 <= i < |s| ==> f(s[i]) == [s[i]]
    ensures FlatMap(s, f) == s
    decreases |s|
  {
    if s != [] {
      FlatMapFixed(s[1..], f);
      assert s == [s[0]] + s[1..];
    }
  }

  /** `s.casefold()`. */
  function CaseFoldStr(s: string): (r: string)
    ensures |r| >= |s|
  {
    FlatMapLength(s, CaseFold);
    FlatMap(s, CaseFold)
  }

  /** `unicodedata.normalize('NFKD', s)`: the decompositions concatenated.
      The canonical reordering of combining marks is not modelled; every
      caller deletes the marks afterwards. */
  function Nfkd(s: string): (r: string)
    ensures |r| >= |s|
  {
    FlatMapLength(s, Decompose);
    FlatMap(s, Decompose)
  }

  /** Decomposing lower-cased text never produces an ASCII capital. */
  lemma NfkdOfLoweredHasNoCapital(s: string)
    requires forall i :: 0 <= i < |s| ==> Lower(s[i]) == s[i]
    ensures forall i :: 0 <= i < |Nfkd(s)| ==> !IsAsciiUpper(Nfkd(s)[i])
  {
    forall i | 0 <= i < |s| {
      DecomposeLowered(s[i]);
    }
    FlatMapKeeps(s, Decompose, (c: char) => !IsAsciiUpper(c));
  }

  /** Every character of the text is settled. */
  predicate AllSettled(s: string) {
    forall i :: 0 <= i < |s| ==> IsSettled(s[i])
  }

  /** NFKD followed by case folding yields settled text. */
  lemma FoldedIsSettled(s: string)
    ensures AllSettled(CaseFoldStr(Nfkd(s)))
  {
    var d := Nfkd(s);
    forall i | 0 <= i < |s| {
      DecomposeIsFull(s[i]);
    }
    FlatMapKeeps(s, Decompose, (c: char) => Decompose(c) == [c]);
    forall i | 0 <= i < |d| {
      CaseFoldOfDecomposedSettles(d[i]);
    }
    FlatMapKeeps(d, CaseFold, IsSettled);
  }

  /** Settled text is left alone by NFKD and by case folding. */
  lemma SettledIsFixed(s: string)
    requires AllSettled(s)
    ensures Nfkd(s) == s && CaseFoldStr(s) == s
  {
    FlatMapFixed(s, Decompose);
    FlatMapFixed(s, CaseFold);
  }

  /** `s.encode('ascii', 'ignore').decode()`: the ASCII characters of `s`. */
  function AsciiOnly(s: string): (r: string)
    ensures |r| <= |s|
  {
    if s == [] then []
    else if IsAscii(s[0]) then [s[0]] + AsciiOnly(s[1..])
    else AsciiOnly(s[1..])
  }

  /** The ASCII filter keeps only ASCII characters of the input, and keeps
      an all-ASCII input whole. */
  lemma {:induction false} AsciiOnlyFacts(s: string)
    ensures forall i :: 0 <= i < |AsciiOnly(s)| ==> IsAscii(AsciiOnly(s)[i]) && AsciiOnly(s)[i] in s
    ensures (forall i :: 0 <= i < |s| ==> IsAscii(s[i])) ==> AsciiOnly(s) == s
    decreases |s|
  {
    if s != [] {
      AsciiOnlyFacts(s[1..]);
      assert forall c :: c in s[1..] ==> c in s;
    }
  }

  /** The character-wise mappings distribute over concatenation. */
  lemma {:induction false} LowerStrConcat(a: string, b: string)
    ensures LowerStr(a + b) == LowerStr(a) + LowerStr(b)
    decreases |a|
  {
    if a == [] {
      assert a + b == b;
    } else {
      LowerStrConcat(a[1..], b);
      assert (a + b)[1..] == a[1..] + b;
    }
  }

  lemma NfkdConcat(a: string, b: string)
    ensures Nfkd(a + b) == Nfkd(a) + Nfkd(b)
  {
    FlatMapConcat(a, b, Decompose);
  }

  lemma {:induction false} AsciiOnlyConcat(a: string, b: string)
    ensures AsciiOnly(a + b) == AsciiOnly(a) + AsciiOnly(b)
    decreases |a|
  {
    if a == [] {
      assert a + b == b;
    } else {
      AsciiOnlyConcat(a[1..], b);
      assert (a + b)[1..] == a[1..] + b;
    }
  }

  /** Plain ASCII text is its own decomposition. */
  lemma NfkdOfAscii(s: string)
    requires forall i :: 0 <= i < |s| ==> IsAscii(s[i])
    ensures Nfkd(s) == s
  {
    FlatMapFixed(s, Decompose);
  }

  // ---------------------------------------------------------------------
  // Stripping
  // ---------------------------------------------------------------------

  /** The first index at or after `i` that is not whitespace, or `|s|`. */
  function SpanStart(s: string, i: nat): (k: nat)
    requires i <= |s|
    ensures i <= k <= |s|
    ensures k < |s| ==> !IsSpace(s[k])
    decreases |s| - i
  {
    if i < |s| && IsSpace(s[i]) then SpanStart(s, i + 1) else i
  }

  lemma {:induction false} SpanStartSkipsSpace(s: string, i: nat)
    requires i <= |s|
    ensures forall k :: i <= k < SpanStart(s, i) ==> IsSpace(s[k])
    decreases |s| - i
  {
    if i < |s| && IsSpace(s[i]) {
      SpanStartSkipsSpace(s, i + 1);
    }
  }

  /** The end of the longest prefix of `s[..j]` that does not end in
      whitespace. */
  function SpanEnd(s: string, j: nat): (k: nat)
    requires j <= |s|
    ensures k <= j
    ensures k > 0 ==> !IsSpace(s[k - 1])
  {
    if j > 0 && IsSpace(s[j - 1]) then SpanEnd(s, j - 1) else j
  }

  lemma {:induction false} SpanEndSkipsSpace(s: string, j: nat)
    requires j <= |s|
    ensures forall k :: SpanEnd(s, j) <= k < j ==> IsSpace(s[k])
  {
    if j > 0 && IsSpace(s[j - 1]) {
      SpanEndSkipsSpace(s, j - 1);
    }
  }

  /** A non-space character before `j` bounds the trailing cut from below. */
  lemma {:induction false} SpanEndStopsAt(s: string, j: nat, m: nat)
    requires 0 < m <= j <= |s|
    requires !IsSpace(s[m - 1])
    ensures SpanEnd(s, j) >= m
    decreases j
  {
    if j > m && IsSpace(s[j - 1]) {
      SpanEndStopsAt(s, j - 1, m);
    }
  }

  /** `s.lstrip()`: the suffix left after dropping leading whitespace. */
  function TrimStart(s: string): (r: string)
    ensures |r| <= |s| && r == s[|s| - |r|..]
    ensures r != [] ==> !IsSpace(r[0])
  {
    s[SpanStart(s, 0)..]
  }

  lemma TrimStartDropsSpace(s: string)
    ensures forall i :: 0 <= i < |s| - |TrimStart(s)| ==> IsSpace(s[i])
  {
    SpanStartSkipsSpace(s, 0);
  }

  /** Leading whitespace in front of a text that does not start with
      whitespace is exactly what `lstrip` removes. */
  lemma TrimStartAfterSpaces(w: string, t: string)
    requires forall i :: 0 <= i < |w| ==> IsSpace(w[i])
    requires t == [] || !IsSpace(t[0])
    ensures TrimStart(w + t) == t
  {
    var s := w + t;
    var r := TrimStart(s);
    TrimStartDropsSpace(s);
    assert forall i :: 0 <= i < |w| ==> IsSpace(s[i]);
    assert t != [] ==> !IsSpace(s[|w|]);
  }

  /** `s.rstrip()`: the prefix left after dropping trailing whitespace. */
  function TrimEnd(s: string): (r: string)
    ensures |r| <= |s| && r == s[..|r|]
    ensures r != [] ==> !IsSpace(r[|r| - 1])
  {
    s[..SpanEnd(s, |s|)]
  }

  lemma TrimEndDropsSpace(s: string)
    ensures forall i :: |TrimEnd(s)| <= i < |s| ==> IsSpace(s[i])
  {
    SpanEndSkipsSpace(s, |s|);
  }

  /** Neither end of `s` is whitespace. */
  predicate IsStripped(s: string) {
    s == [] || (!IsSpace(s[0]) && !IsSpace(s[|s| - 1]))
  }

  /** `s.strip()`. */
  function Strip(s: string): (r: string)
    ensures IsStripped(r)
    ensures |r| <= |s|
  {
    TrimEnd(TrimStart(s))
  }

  /** Where the stripped text starts inside `s`. */
  function StripOffset(s: string): nat {
    |s| - |TrimStart(s)|
  }

  /** Stripping cuts whitespace, and only whitespace, off both ends: the
      result is the infix of `s` at `StripOffset(s)` and every character
      outside it is whitespace. */
  lemma StripFacts(s: string)
    ensures StripOffset(s) + |Strip(s)| <= |s|
    ensures Strip(s) == s[StripOffset(s)..StripOffset(s) + |Strip(s)|]
    ensures forall i :: 0 <= i < StripOffset(s) ==> IsSpace(s[i])
    ensures forall i :: StripOffset(s) + |Strip(s)| <= i < |s| ==> IsSpace(s[i])
  {
    var t := TrimStart(s);
    TrimStartDropsSpace(s);
    TrimEndDropsSpace(t);
    assert t == s[StripOffset(s)..];
  }

  /** Stripped text is left alone, and exactly the all-whitespace strings
      strip to "". */
  lemma StripIdentity(s: string)
    ensures IsStripped(s) ==> Strip(s) == s
    ensures Strip(s) == [] <==> forall i :: 0 <= i < |s| ==> IsSpace(s[i])
  {
    StripFacts(s);
    var off := StripOffset(s);
    if Strip(s) != [] {
      assert !IsSpace(s[off]);
    }
  }

  /** Text whose first `m` characters form stripped, non-empty text keeps
      them when stripped. */
  lemma StripKeepsStrippedPrefix(s: string, m: nat)
    requires 0 < m <= |s|
    requires IsStripped(s[..m])
    ensures s[..m] <= Strip(s)
  {
    assert s[..m][0] == s[0] && s[..m][m - 1] == s[m - 1];
    assert SpanStart(s, 0) == 0;
    assert TrimStart(s) == s;
    SpanEndStopsAt(s, |s|, m);
    var k := SpanEnd(s, |s|);
    assert Strip(s) == s[..k];
    assert s[..k][..m] == s[..m];
  }

  /** A stripped word at the front survives stripping whatever follows. */
  lemma StripKeepsWord(w: string, rest: string)
    requires w != [] && IsStripped(w)
    ensures w <= Strip(w + rest)
  {
    var s := w + rest;
    assert s[..|w|] == w;
    StripKeepsStrippedPrefix(s, |w|);
  }

  /** Every character of the stripped text occurs in the input. */
  lemma StripKeepsChars(s: string)
    ensures forall i :: 0 <= i < |Strip(s)| ==> Strip(s)[i] in s
  {
    StripFacts(s);
    var off := StripOffset(s);
    forall i | 0 <= i < |Strip(s)| ensures Strip(s)[i] in s {
      assert Strip(s)[i] == s[off + i];
    }
  }

  // ---------------------------------------------------------------------
  // Substrings, joining and splitting
  // ---------------------------------------------------------------------

  /** `needle` occurs in `hay` starting at position `i`. */
  ghost predicate OccursAt(hay: string, needle: string, i: int) {
    0 <= i && i + |needle| <= |hay| && hay[i..i + |needle|] == needle
  }

  /** Python's `needle in hay` on strings. */
  predicate Contains(hay: string, needle: string)
    decreases |hay|
  {
    needle <= hay || (hay != [] && Contains(hay[1..], needle))
  }

  /** `Contains` is exactly the existence of an occurrence. */
  lemma {:induction false} ContainsIffOccurs(hay: string, needle: string)
    ensures Contains(hay, needle) <==> exists i :: OccursAt(hay, needle, i)
    decreases |hay|
  {
    if hay != [] {
      ContainsIffOccurs(hay[1..], needle);
    }
    if Contains(hay, needle) {
      if needle <= hay {
        assert OccursAt(hay, needle, 0);
      } else {
        var i :| OccursAt(hay[1..], needle, i);
        assert hay[1..][i..i + |needle|] == hay[i + 1..i + 1 + |needle|];
        assert OccursAt(hay, needle, i + 1);
      }
    }
    if exists i :: OccursAt(hay, needle, i) {
      var i :| OccursAt(hay, needle, i);
      if i > 0 {
        assert hay[1..][i - 1..i - 1 + |needle|] == hay[i..i + |needle|];
        assert OccursAt(hay[1..], needle, i - 1);
      } else {
        assert needle <= hay;
      }
    }
  }

  /** Every character of a contained string occurs in the text. */
  lemma ContainsNeeds(hay: string, needle: string, k: nat)
    requires Contains(hay, needle) && k < |needle|
    ensures needle[k] in hay
  {
    ContainsIffOccurs(hay, needle);
    var i :| OccursAt(hay, needle, i);
    assert hay[i + k] == needle[k];
  }

  /** `sep.join(xs)`. */
  function Join(xs: seq<string>, sep: string): string {
    if |xs| == 0 then ""
    else if |xs| == 1 then xs[0]
    else xs[0] + sep + Join(xs[1..], sep)
  }

  /** Every part of a join occurs in it. */
  lemma {:induction false} JoinHasEach(xs: seq<string>, sep: string, i: nat)
    requires i < |xs|
    ensures exists k :: OccursAt(Join(xs, sep), xs[i], k)
    decreases i
  {
    var j := Join(xs, sep);
    if |xs| == 1 {
      assert OccursAt(j, xs[i], 0);
    } else {
      var rest := Join(xs[1..], sep);
      assert j == xs[0] + sep + rest;
      if i == 0 {
        assert j[..|xs[0]|] == xs[0];
        assert OccursAt(j, xs[i], 0);
      } else {
        JoinHasEach(xs[1..], sep, i - 1);
        var k :| OccursAt(rest, xs[1..][i - 1], k);
        var off := |xs[0]| + |sep|;
        assert j[off + k..off + k + |xs[i]|] == rest[k..k + |xs[i]|];
        assert OccursAt(j, xs[i], off + k);
      }
    }
  }

  /** The line boundaries recognised by `str.splitlines()`. */
  predicate IsLineBreak(c: char) {
    || ('\n' <= c <= '\r')
    || ('\U{1C}' <= c <= '\U{1E}')
    || c == '\U{85}' || c == '\U{2028}' || c == '\U{2029}'
  }

  /** Index of the first line boundary of `s`, or `|s|`. */
  function LineEnd(s: string): (k: nat)
    ensures k <= |s|
    ensures k < |s| ==> IsLineBreak(s[k])
  {
    if s == [] || IsLineBreak(s[0]) then 0 else 1 + LineEnd(s[1..])
  }

  /** `s.splitlines()`: "\r\n" is one boundary and a final boundary does
      not start an empty last line. */
  function SplitLines(s: string): (lines: seq<string>)
    decreases |s|
  {
    if s == [] then []
    else
      var k := LineEnd(s);
      if k == |s| then [s]
      else
        var next := if s[k] == '\r' && k + 1 < |s| && s[k + 1] == '\n' then k + 2 else k + 1;
        [s[..k]] + SplitLines(s[next..])
  }

  /** Text without a line boundary is one line. */
  lemma OneLine(s: string)
    requires s != [] && forall i :: 0 <= i < |s| ==> !IsLineBreak(s[i])
    ensures SplitLines(s) == [s]
  {
    LineEndPastPlainText(s);
  }

  lemma {:induction false} LineEndPastPlainText(s: string)
    requires forall i :: 0 <= i < |s| ==> !IsLineBreak(s[i])
    ensures LineEnd(s) == |s|
    decreases |s|
  {
    if s != [] {
      LineEndPastPlainText(s[1..]);
    }
  }

  /** Index of the first whitespace character of `s`, or `|s|`. */
  function WordEnd(s: string): (k: nat)
    ensures k <= |s|
    ensures s != [] && !IsSpace(s[0]) ==> k >= 1
  {
    if s == [] || IsSpace(s[0]) then 0 else 1 + WordEnd(s[1..])
  }

  /** `s.split()`: the maximal runs of non-whitespace characters. */
  function Split(s: string): (words: seq<string>)
    decreases |s|
  {
    var t := TrimStart(s);
    if t == [] then []
    else
      var k := WordEnd(t);
      [t[..k]] + Split(t[k..])
  }

  // ---------------------------------------------------------------------
  // The two regular-expression substitutions
  // ---------------------------------------------------------------------

  /** Characters of the regex class `[\s\-_/]`. */
  predicate IsSeparator(c: char) {
    IsSpace(c) || c == '-' || c == '_' || c == '/'
  }

  /** The characters of `s` that are not separators, in order. */
  function NonSeparators(s: string): string {
    if s == [] then []
    else if IsSeparator(s[0]) then NonSeparators(s[1..])
    else [s[0]] + NonSeparators(s[1..])
  }

  /** The suffix of `s` after its leading run of separators. */
  function DropSeparators(s: string): (r: string)
    ensures |r| <= |s| && r == s[|s| - |r|..]
    ensures s != [] && IsSeparator(s[0]) ==> |r| < |s|
    ensures r != [] ==> !IsSeparator(r[0])
  {
    if s != [] && IsSeparator(s[0]) then DropSeparators(s[1..]) else s
  }

  /** Dropping a run of separators loses no other character. */
  lemma {:induction false} DropSeparatorsKeepsRest(s: string)
    ensures NonSeparators(DropSeparators(s)) == NonSeparators(s)
    decreases |s|
  {
    if s != [] && IsSeparator(s[0]) {
      DropSeparatorsKeepsRest(s[1..]);
    }
  }

  /** `re.sub(r"[\s\-_/]+", " ", s)`: every maximal run of separators
      becomes one space. */
  function CollapseSeparators(s: string): (r: string)
    ensures |r| <= |s|
    ensures s != [] ==> r != [] && (if IsSeparator(s[0]) then r[0] == ' ' else r[0] == s[0])
    decreases |s|
  {
    if s == [] then []
    else if IsSeparator(s[0]) then " " + CollapseSeparators(DropSeparators(s))
    else [s[0]] + CollapseSeparators(s[1..])
  }

  /** After the substitution the only separator left is the space, no two
      spaces are adjacent, and the other characters are those of the
      input, in the same order. */
  lemma {:induction false} CollapseFacts(s: string)
    ensures forall i :: 0 <= i < |CollapseSeparators(s)| ==>
      CollapseSeparators(s)[i] == ' ' || !IsSeparator(CollapseSeparators(s)[i])
    ensures forall i :: 0 <= i < |CollapseSeparators(s)| - 1 ==>
      !(CollapseSeparators(s)[i] == ' ' && CollapseSeparators(s)[i + 1] == ' ')
    ensures NonSeparators(CollapseSeparators(s)) == NonSeparators(s)
    decreases |s|
  {
    if s != [] {
      var r := CollapseSeparators(s);
      if IsSeparator(s[0]) {
        var rest := DropSeparators(s);
        CollapseFacts(rest);
        DropSeparatorsKeepsRest(s);
        assert r == " " + CollapseSeparators(rest);
        assert forall i :: 1 <= i < |r| ==> r[i] == CollapseSeparators(rest)[i - 1];
      } else {
        CollapseFacts(s[1..]);
        assert r == [s[0]] + CollapseSeparators(s[1..]);
        assert forall i :: 1 <= i < |r| ==> r[i] == CollapseSeparators(s[1..])[i - 1];
      }
    }
  }

  /** Every character of the substituted text is the space or a
      character of the input. */
  lemma {:induction false} CollapseKeepsChars(s: string)
    ensures forall i :: 0 <= i < |CollapseSeparators(s)| ==>
      CollapseSeparators(s)[i] == ' ' || CollapseSeparators(s)[i] in s
    decreases |s|
  {
    if s != [] {
      var rest := if IsSeparator(s[0]) then DropSeparators(s) else s[1..];
      var h := if IsSeparator(s[0]) then ' ' else s[0];
      CollapseKeepsChars(rest);
      assert CollapseSeparators(s) == [h] + CollapseSeparators(rest);
      SuffixChars(s, |s| - |rest|);
      ConsKeepsChars(h, CollapseSeparators(rest), rest, s);
    }
  }

  /** The characters of a suffix are characters of the whole. */
  lemma SuffixChars(s: string, k: nat)
    requires k <= |s|
    ensures forall c :: c in s[k..] ==> c in s
  {
    forall c | c in s[k..] ensures c in s {
      var j :| 0 <= j < |s[k..]| && s[k..][j] == c;
      assert s[k + j] == c;
    }
  }

  /** One step of `CollapseKeepsChars`: a space or a character of `s`
      before text made of spaces and characters of a part of `s`. */
  lemma ConsKeepsChars(h: char, tail: string, rest: string, s: string)
    requires h == ' ' || h in s
    requires forall i :: 0 <= i < |tail| ==> tail[i] == ' ' || tail[i] in rest
    requires forall c :: c in rest ==> c in s
    ensures forall i :: 0 <= i < |[h] + tail| ==> ([h] + tail)[i] == ' ' || ([h] + tail)[i] in s
  {
    forall i | 0 <= i < |[h] + tail|
      ensures ([h] + tail)[i] == ' ' || ([h] + tail)[i] in s
    {
      if i > 0 {
        assert ([h] + tail)[i] == tail[i - 1];
      }
    }
  }

  /** Text whose only separators are single spaces is left alone by the
      substitution. */
  lemma {:induction false} CollapseOfSingleSpaced(s: string)
    requires forall i :: 0 <= i < |s| ==> s[i] == ' ' || !IsSeparator(s[i])
    requires forall i :: 0 <= i < |s| - 1 ==> !(s[i] == ' ' && s[i + 1] == ' ')
    ensures CollapseSeparators(s) == s
    decreases |s|
  {
    if s != [] {
      CollapseOfSingleSpaced(s[1..]);
      if IsSeparator(s[0]) {
        assert DropSeparators(s) == DropSeparators(s[1..]);
        assert DropSeparators(s[1..]) == s[1..];
      }
      assert s == [s[0]] + s[1..];
    }
  }

  /** Characters the substitution `re.sub(r"[^\w\s]", "", s)` keeps. */
  predicate IsWordOrSpace(c: char) {
    IsWordChar(c) || IsSpace(c)
  }

  /** `re.sub(r"[^\w\s]", "", s)`: the word and whitespace characters of
      `s`, in order. */
  function DropPunctuation(s: string): (r: string)
    ensures |r| <= |s|
  {
    if s == [] then []
    else if IsWordOrSpace(s[0]) then [s[0]] + DropPunctuation(s[1..])
    else DropPunctuation(s[1..])
  }

  /** The deletion keeps only word and whitespace characters of the input,
      and keeps an input made only of them whole. */
  lemma {:induction false} DropPunctuationFacts(s: string)
    ensures forall i :: 0 <= i < |DropPunctuation(s)| ==>
      IsWordOrSpace(DropPunctuation(s)[i]) && DropPunctuation(s)[i] in s
    ensures (forall i :: 0 <= i < |s| ==> IsWordOrSpace(s[i])) ==> DropPunctuation(s) == s
    decreases |s|
  {
    if s != [] {
      DropPunctuationFacts(s[1..]);
      assert forall c :: c in s[1..] ==> c in s;
    }
  }

  /** The text pipeline shared by the offline normalisers: NFKD, case
      folding, separator runs to one space, punctuation deleted, stripped. */
  function FoldAndClean(s: string): (r: string)
    ensures IsStripped(r)
  {
    Strip(DropPunctuation(CollapseSeparators(CaseFoldStr(Nfkd(s)))))
  }

  /** The pipeline's output holds only word characters and spaces, and its
      only separator is the plain space: no '-', '_', '/' or other
      whitespace survives. */
  lemma FoldAndCleanFacts(s: string)
    ensures forall i :: 0 <= i < |FoldAndClean(s)| ==>
      IsWordOrSpace(FoldAndClean(s)[i]) && (FoldAndClean(s)[i] == ' ' || !IsSeparator(FoldAndClean(s)[i]))
  {
    var collapsed := CollapseSeparators(CaseFoldStr(Nfkd(s)));
    var kept := DropPunctuation(collapsed);
    CollapseFacts(CaseFoldStr(Nfkd(s)));
    DropPunctuationFacts(collapsed);
    StripKeepsChars(kept);
    assert forall c :: c in collapsed ==> c == ' ' || !IsSeparator(c);
  }
}
