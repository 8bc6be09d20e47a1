/** Reading the genre taxonomy, a Markdown file: the line-level helpers
    the two taxonomy-driven genre scripts share. A line is skipped when it
    mentions a section title; a list item (a run of bullet characters, then
    whitespace) contributes its text; another line of at most four words
    contributes itself. */
module Taxonomy {
  import opened Wrappers
  import opened Unicode
  import opened Text

  /** The section titles of the taxonomy. */
  const SkipHeaders: seq<string> := ["Ficción", "No Ficción", "Poesía", "Teatro", "Cómic", "Géneros Especiales o Cruzados"]

  /** `any(h.lower() in line.lower() for h in skip_headers)`. */
  predicate MentionsHeader(line: string) {
    exists i :: 0 <= i < |SkipHeaders| && Contains(LowerStr(line), LowerStr(SkipHeaders[i]))
  }

  /** The lower-cased initials of the section titles. */
  const HeaderInitials: set<char> := {'f', 'n', 'p', 't', 'c', 'g'}

  /** Each section title starts with a letter whose lower case is among
      the initials. */
  lemma HeaderInitialsOfTitles()
    ensures forall k :: 0 <= k < |SkipHeaders| ==> SkipHeaders[k] != [] && Lower(SkipHeaders[k][0]) in HeaderInitials
  {
  }

  /** A line mentions a section title only if its lower-cased text holds
      one of the titles' initials. */
  lemma MentionsHeaderNeedsInitial(line: string)
    ensures MentionsHeader(line) ==> exists i :: 0 <= i < |line| && Lower(line[i]) in HeaderInitials
  {
    if MentionsHeader(line) {
      HeaderMentionHasInitial(line);
    }
  }

  lemma HeaderMentionHasInitial(line: string)
    requires MentionsHeader(line)
    ensures exists i :: 0 <= i < |line| && Lower(line[i]) in HeaderInitials
  {
    var h :| 0 <= h < |SkipHeaders| && Contains(LowerStr(line), LowerStr(SkipHeaders[h]));
    var title := SkipHeaders[h];
    HeaderInitialsOfTitles();
    assert LowerStr(title)[0] == Lower(title[0]);
    ContainsNeeds(LowerStr(line), LowerStr(title), 0);
    LowerStrFacts(line);
    var i :| 0 <= i < |line| && LowerStr(line)[i] == LowerStr(title)[0];
  }

  /** The longest words-only line that is still read as a genre. */
  const MaxGenreWords := 4

  // ---------------------------------------------------------------------
  // List items
  // ---------------------------------------------------------------------

  /** Length of the leading run of characters satisfying `bullet`. */
  function BulletRun(s: string, bullet: char -> bool): (k: nat)
    ensures k <= |s|
    ensures forall i :: 0 <= i < k ==> bullet(s[i])
    ensures k < |s| ==> !bullet(s[k])
  {
    if s != [] && bullet(s[0]) then 1 + BulletRun(s[1..], bullet) else 0
  }

  /** `re.match(r"^[<bullet>]+\s+(.*)$", line)` and its group 1, on a line
      without line breaks: the text after a non-empty run of bullet
      characters and a non-empty run of whitespace. Since no bullet
      character is whitespace, the greedy run is the only candidate. */
  function BulletText(line: string, bullet: char -> bool): (r: Option<string>)
  {
    var k := BulletRun(line, bullet);
    if k == 0 || k == |line| || !IsSpace(line[k]) then None else Some(TrimStart(line[k..]))
  }

  /** What a match splits the line into: bullets, whitespace, then the
      text, which does not start with whitespace. */
  lemma BulletTextShape(line: string, bullet: char -> bool)
    requires BulletText(line, bullet).Some?
    ensures var t, k := BulletText(line, bullet).value, BulletRun(line, bullet);
      && 0 < k < |line| - |t| && line[|line| - |t|..] == t
      && (forall i :: 0 <= i < k ==> bullet(line[i]))
      && (forall i :: k <= i < |line| - |t| ==> IsSpace(line[i]))
      && (t == [] || !IsSpace(t[0]))
  {
    var k := BulletRun(line, bullet);
    var t := BulletText(line, bullet).value;
    TrimStartDropsSpace(line[k..]);
    var m := |line| - |t|;
    assert line[m..] == t;
    assert forall i :: k <= i < m ==> IsSpace(line[i]) by {
      assert forall i :: k <= i < m ==> line[i] == line[k..][i - k];
    }
  }

  /** A list item is read back: bullets, whitespace and a text that does
      not start with whitespace give that text. */
  lemma BulletTextOf(p: string, w: string, t: string, bullet: char -> bool)
    requires forall c :: bullet(c) ==> !IsSpace(c)
    requires p != [] && forall i :: 0 <= i < |p| ==> bullet(p[i])
    requires w != [] && forall i :: 0 <= i < |w| ==> IsSpace(w[i])
    requires t == [] || !IsSpace(t[0])
    ensures BulletText(p + w + t, bullet) == Some(t)
  {
    var line := p + (w + t);
    assert !bullet(w[0]);
    BulletRunOf(p, w + t, bullet);
    assert line[|p|..] == w + t;
    assert IsSpace(line[|p|]);
    TrimStartAfterSpaces(w, t);
    assert p + w + t == line;
  }

  /** A list item whose text is stripped is itself stripped, and its
      match gives the text back. */
  lemma ListLineRead(p: string, w: string, t: string, bullet: char -> bool)
    requires forall c :: bullet(c) ==> !IsSpace(c)
    requires p != [] && forall i :: 0 <= i < |p| ==> bullet(p[i])
    requires w != [] && forall i :: 0 <= i < |w| ==> IsSpace(w[i])
    requires t != [] && IsStripped(t)
    ensures Strip(p + w + t) == p + w + t
    ensures BulletText(p + w + t, bullet) == Some(t)
  {
    var line := p + w + t;
    assert line[0] == p[0] && line[|line| - 1] == t[|t| - 1];
    assert IsStripped(line);
    StripIdentity(line);
    BulletTextOf(p, w, t, bullet);
  }

  /** The bullet run of `p + rest` is `p` when `rest` does not start with a
      bullet character. */
  lemma {:induction false} BulletRunOf(p: string, rest: string, bullet: char -> bool)
    requires forall i :: 0 <= i < |p| ==> bullet(p[i])
    requires rest == [] || !bullet(rest[0])
    ensures BulletRun(p + rest, bullet) == |p|
    decreases |p|
  {
    if p != [] {
      assert (p + rest)[1..] == p[1..] + rest;
      BulletRunOf(p[1..], rest, bullet);
    } else {
      assert p + rest == rest;
    }
  }

  // ---------------------------------------------------------------------
  // Parenthesised notes
  // ---------------------------------------------------------------------

  /** Index of the first `c` in `s`, or `|s|`. */
  function IndexOf(s: string, c: char): (k: nat)
    ensures k <= |s|
    ensures k < |s| ==> s[k] == c
    ensures forall i :: 0 <= i < k ==> s[i] != c
  {
    if s == [] || s[0] == c then 0 else 1 + IndexOf(s[1..], c)
  }

  /** `re.sub(r"\(.*?\)", "", s)` on a text without line breaks: each '('
      up to the first ')' after it is deleted; a '(' that no ')' follows
      is kept with the rest of the text. */
  function DropParenGroups(s: string): (r: string)
    ensures |r| <= |s|
    decreases |s|
  {
    if s == [] then []
    else if s[0] == '(' then
      var j := IndexOf(s[1..], ')');
      if j < |s| - 1 then DropParenGroups(s[j + 2..]) else s
    else [s[0]] + DropParenGroups(s[1..])
  }

  /** No parenthesised group survives, a text without '(' is kept whole,
      and no character is introduced. */
  lemma {:induction false} DropParenGroupsFacts(s: string)
    ensures forall i, j :: 0 <= i < j < |DropParenGroups(s)| ==>
      !(DropParenGroups(s)[i] == '(' && DropParenGroups(s)[j] == ')')
    ensures (forall i :: 0 <= i < |s| ==> s[i] != '(') ==> DropParenGroups(s) == s
    ensures forall i :: 0 <= i < |DropParenGroups(s)| ==> DropParenGroups(s)[i] in s
    decreases |s|
  {
    if s != [] {
      var r := DropParenGroups(s);
      if s[0] == '(' {
        var j := IndexOf(s[1..], ')');
        if j < |s| - 1 {
          DropParenGroupsFacts(s[j + 2..]);
          assert forall c :: c in s[j + 2..] ==> c in s;
        } else {
          assert forall i :: 0 <= i < |s| ==> s[i] != ')' by {
            assert forall i :: 1 <= i < |s| ==> s[i] == s[1..][i - 1];
          }
        }
      } else {
        DropParenGroupsFacts(s[1..]);
        assert r == [s[0]] + DropParenGroups(s[1..]);
        assert forall i :: 1 <= i < |r| ==> r[i] == DropParenGroups(s[1..])[i - 1];
        assert forall c :: c in s[1..] ==> c in s;
      }
    }
  }
}
