/** `normalize_and_clean_genres.py`: the genre taxonomy is read into a set
    of normalised genre names, and every book's genres are replaced by
    those of their normalised forms that the set holds.

    The script's normaliser leaves a double space where punctuation stood
    between two spaces, and normalising that output again closes it up; a
    second run of the cleaning over the first run's output therefore drops
    genres the first run kept. The script reads the enriched catalog and
    writes a separate cleaned file, so such a second run happens only when
    that output is fed back in as input.
    The module models the script as written and, next to it, the
    normaliser that collapses whitespace once more after deleting
    punctuation, for which the cleaning settles after one run. */
module NormalizedGenres {
  import opened Wrappers
  import opened Unicode
  import opened Text
  import opened Seqs
  import opened Catalog
  import opened GenreCleaning
  import opened Taxonomy

  /** The bullet class `[\-\*\+\d•]`. */
  predicate IsListBullet(c: char) {
    c == '-' || c == '*' || c == '+' || IsDigit(c) || c == '\U{2022}'
  }

  /** `if norm:`: only a non-empty normal form is added. */
  function NonEmpty(s: string): (r: Option<string>)
    ensures r.Some? <==> s != []
    ensures r.Some? ==> r.value == s
  {
    if s == [] then None else Some(s)
  }

  /** What one line of the taxonomy adds to the set of valid genres, with
      `fold` as the text normaliser: nothing for a blank line, a line
      starting with '#' or '>', or a line mentioning a section title; the
      normalised text of a list item; the normalised line when it has at
      most four words. */
  function LineGenreWith(raw: string, fold: string -> string): (r: Option<string>)
    ensures r.Some? ==> r.value != []
    ensures r.Some? ==> Strip(raw) != [] && Strip(raw)[0] != '#' && Strip(raw)[0] != '>' && !MentionsHeader(Strip(raw))
  {
    StrippedLineGenreWith(Strip(raw), fold)
  }

  /** `LineGenreWith` once the line is stripped. */
  function StrippedLineGenreWith(line: string, fold: string -> string): (r: Option<string>)
    ensures r.Some? ==> r.value != []
    ensures r.Some? ==> line != [] && line[0] != '#' && line[0] != '>' && !MentionsHeader(line)
  {
    if line == [] || line[0] == '#' || line[0] == '>' || MentionsHeader(line) then None
    else if BulletText(line, IsListBullet).Some? then NonEmpty(fold(Strip(BulletText(line, IsListBullet).value)))
    else if |Split(line)| <= MaxGenreWords then NonEmpty(fold(line))
    else None
  }

  /** `extract_valid_genres` with `fold` as the normaliser. */
  function ExtractWith(md: string, fold: string -> string): set<string> {
    set l | l in SplitLines(md) && LineGenreWith(l, fold).Some? :: LineGenreWith(l, fold).value
  }

  /** A list item is read back: bullets, whitespace and a genre name give
      the genre's normal form, whatever the normaliser. */
  lemma ListItemRead(p: string, w: string, t: string, fold: string -> string)
    requires p != [] && forall i :: 0 <= i < |p| ==> IsListBullet(p[i])
    requires w != [] && forall i :: 0 <= i < |w| ==> IsSpace(w[i])
    requires t != [] && IsStripped(t)
    requires !MentionsHeader(p + w + t)
    ensures LineGenreWith(p + w + t, fold) == NonEmpty(fold(t))
  {
    var line := p + w + t;
    ListLineRead(p, w, t, IsListBullet);
    assert line[0] == p[0];
    ItemLineGenreWith(line, t, fold);
    StrippedFold(t, fold);
  }

  lemma ItemLineGenreWith(line: string, t: string, fold: string -> string)
    requires line != [] && line[0] != '#' && line[0] != '>'
    requires !MentionsHeader(line)
    requires BulletText(line, IsListBullet) == Some(t)
    ensures StrippedLineGenreWith(line, fold) == NonEmpty(fold(Strip(t)))
  {
  }

  /** Stripping a stripped text before folding changes nothing. */
  lemma StrippedFold(t: string, fold: string -> string)
    requires IsStripped(t)
    ensures fold(Strip(t)) == fold(t)
  {
    StripIdentity(t);
  }

  /** A list item of a taxonomy line yields a valid genre. */
  lemma ListItemIsValid(md: string, p: string, w: string, t: string, fold: string -> string)
    requires p + w + t in SplitLines(md)
    requires p != [] && forall i :: 0 <= i < |p| ==> IsListBullet(p[i])
    requires w != [] && forall i :: 0 <= i < |w| ==> IsSpace(w[i])
    requires t != [] && IsStripped(t)
    requires !MentionsHeader(p + w + t)
    requires fold(t) != []
    ensures fold(t) in ExtractWith(md, fold)
  {
    ListItemRead(p, w, t, fold);
  }

  // ---------------------------------------------------------------------
  // The script as written
  // ---------------------------------------------------------------------

  /** `normalize`: `None` for a non-string, otherwise NFKD, case folding,
      separator runs to one space, punctuation deleted and stripped. The
      result may be "". */
  function Normalize(v: Value): (r: Option<string>)
    ensures r.Some? <==> v.VStr?
    ensures r.Some? ==> IsStripped(r.value)
    ensures r.Some? ==> forall i :: 0 <= i < |r.value| ==>
      IsWordOrSpace(r.value[i]) && (r.value[i] == ' ' || !IsSeparator(r.value[i]))
  {
    if v.VStr? then FoldAndCleanFacts(v.s); Some(FoldAndClean(v.s)) else None
  }

  /** `extract_valid_genres`. */
  function ExtractValidGenres(md: string): set<string> {
    ExtractWith(md, FoldAndClean)
  }

  /** Every valid genre is a non-empty normal form: stripped, made of word
      characters and spaces. */
  lemma ValidGenresAreNormal(md: string)
    ensures forall g :: g in ExtractValidGenres(md) ==>
      g != [] && IsStripped(g) && forall i :: 0 <= i < |g| ==> IsWordOrSpace(g[i])
  {
    forall g | g in ExtractValidGenres(md)
      ensures g != [] && IsStripped(g) && forall i :: 0 <= i < |g| ==> IsWordOrSpace(g[i])
    {
      var l :| l in SplitLines(md) && LineGenreWith(l, FoldAndClean).Some? && LineGenreWith(l, FoldAndClean).value == g;
      var line := Strip(l);
      if BulletText(line, IsListBullet).Some? {
        FoldAndCleanFacts(Strip(BulletText(line, IsListBullet).value));
      } else {
        FoldAndCleanFacts(line);
      }
    }
  }

  /** `clean_dataset` over the loaded catalog and taxonomy text. */
  function CleanDataset(books: seq<Value>, md: string): (r: Outcome)
    requires AllCleanable(books)
    ensures |r.books| == |books|
  {
    CleanAll(books, Normalize, ExtractValidGenres(md))
  }

  /** After a run every book carries only valid genres, as strings, and
      nothing but its genres has changed. */
  lemma CleanDatasetKeepsValid(books: seq<Value>, md: string, i: nat)
    requires AllCleanable(books) && i < |books|
    ensures var b := CleanDataset(books, md).books[i];
      && IsCleanable(b)
      && (forall j :: 0 <= j < |GenreEntries(b)| ==>
            GenreEntries(b)[j].VStr? && GenreEntries(b)[j].s in ExtractValidGenres(md))
      && (forall k :: k != "genres" ==> (k in b.fields <==> k in books[i].fields))
      && (forall k :: k != "genres" && k in books[i].fields ==> b.fields[k] == books[i].fields[k])
  {
    CleanAllInPlace(books, Normalize, ExtractValidGenres(md));
    CleanBookAccepted(books[i], Normalize, ExtractValidGenres(md));
  }

  // ---------------------------------------------------------------------
  // A second run
  // ---------------------------------------------------------------------

  /** Text the normaliser leaves alone character by character: ASCII
      lower-case letters, spaces and punctuation that is not a
      separator. */
  predicate PlainLower(c: char) {
    IsAscii(c) && Lower(c) == c
  }

  /** Plain lower-case text survives NFKD and case folding unchanged. */
  lemma PlainLowerIsSettled(s: string)
    requires forall i :: 0 <= i < |s| ==> PlainLower(s[i])
    ensures CaseFoldStr(Nfkd(s)) == s
  {
    NfkdOfAscii(s);
    FlatMapFixed(s, CaseFold);
  }

  /** Deleting a punctuation mark between two spaces leaves both
      spaces. */
  lemma PunctuationLeavesTwoSpaces(x: char, p: char, y: char)
    requires IsWordChar(x) && IsWordChar(y) && !IsWordOrSpace(p)
    ensures DropPunctuation([x, ' ', p, ' ', y]) == [x, ' ', ' ', y]
  {
    var s := [x, ' ', p, ' ', y];
    var t3, t2, t1, t0 := [' ', p, ' ', y], [p, ' ', y], [' ', y], [y];
    assert t0[1..] == [] && t1[1..] == t0 && t2[1..] == t1 && t3[1..] == t2 && s[1..] == t3;
    assert DropPunctuation(t0) == t0;
    assert DropPunctuation(t1) == t1;
    assert DropPunctuation(t2) == t1;
    assert DropPunctuation(t3) == [' '] + t1;
  }

  /** Collapsing separators closes up a double space. */
  lemma CollapseClosesDoubleSpace(x: char, y: char)
    requires !IsSeparator(x) && !IsSeparator(y)
    ensures CollapseSeparators([x, ' ', ' ', y]) == [x, ' ', y]
  {
    var s := [x, ' ', ' ', y];
    var t2, t1, t0 := [' ', ' ', y], [' ', y], [y];
    assert t0[1..] == [] && t1[1..] == t0 && t2[1..] == t1 && s[1..] == t2;
    assert DropSeparators(t0) == t0;
    assert DropSeparators(t1) == t0;
    assert DropSeparators(t2) == t0;
    assert CollapseSeparators(t0) == t0;
    assert CollapseSeparators(t2) == [' '] + t0;
  }

  /** The normaliser on plain lower-case text, given the outcome of its
      two substitutions. */
  lemma FoldAndCleanOfPlain(s: string, c: string, t: string)
    requires forall i :: 0 <= i < |s| ==> PlainLower(s[i])
    requires CollapseSeparators(s) == c && DropPunctuation(c) == t && IsStripped(t)
    ensures FoldAndClean(s) == t
  {
    PlainLowerIsSettled(s);
    StripIdentity(t);
  }

  /** A punctuation mark standing alone between two lower-case words is
      normalised to a double space. */
  lemma PunctuationNormalisedToDoubleSpace(x: char, p: char, y: char)
    requires 'a' <= x <= 'z' && 'a' <= y <= 'z'
    requires PlainLower(p) && !IsWordOrSpace(p) && !IsSeparator(p)
    ensures FoldAndClean([x, ' ', p, ' ', y]) == [x, ' ', ' ', y]
  {
    var s := [x, ' ', p, ' ', y];
    assert PlainLower(x) && PlainLower(' ') && PlainLower(y);
    assert forall i :: 0 <= i < |s| ==> PlainLower(s[i]) && (s[i] == ' ' || !IsSeparator(s[i]));
    CollapseOfSingleSpaced(s);
    PunctuationLeavesTwoSpaces(x, p, y);
    FoldAndCleanOfPlain(s, s, [x, ' ', ' ', y]);
  }

  /** Normalising a double space between two lower-case words closes it
      up. */
  lemma DoubleSpaceNormalisedToSingle(x: char, y: char)
    requires 'a' <= x <= 'z' && 'a' <= y <= 'z'
    ensures FoldAndClean([x, ' ', ' ', y]) == [x, ' ', y]
  {
    var s, t := [x, ' ', ' ', y], [x, ' ', y];
    assert PlainLower(x) && PlainLower(' ') && PlainLower(y);
    assert forall i :: 0 <= i < |s| ==> PlainLower(s[i]);
    CollapseClosesDoubleSpace(x, y);
    assert forall i :: 0 <= i < |t| ==> IsWordOrSpace(t[i]);
    DropPunctuationFacts(t);
    FoldAndCleanOfPlain(s, t, t);
  }

  /** The normaliser is not idempotent: "a & b" becomes "a  b", which
      becomes "a b". */
  lemma NormalizeNotIdempotent()
    ensures Normalize(VStr("a & b")) == Some("a  b")
    ensures Normalize(VStr("a  b")) == Some("a b")
  {
    PunctuationNormalisedToDoubleSpace('a', '&', 'b');
    DoubleSpaceNormalisedToSingle('a', 'b');
  }

  /** A taxonomy made of one list item, with no line break and no letter
      that could start a section title, holds exactly that item's genre. */
  lemma SingleItemTaxonomy(p: string, w: string, t: string, fold: string -> string)
    requires p != [] && forall i :: 0 <= i < |p| ==> IsListBullet(p[i])
    requires w != [] && forall i :: 0 <= i < |w| ==> IsSpace(w[i])
    requires t != [] && IsStripped(t)
    requires forall i :: 0 <= i < |p + w + t| ==> !IsLineBreak((p + w + t)[i]) && Lower((p + w + t)[i]) !in HeaderInitials
    requires fold(t) != []
    ensures ExtractWith(p + w + t, fold) == {fold(t)}
  {
    OneLine(p + w + t);
    MentionsHeaderNeedsInitial(p + w + t);
    ListItemRead(p, w, t, fold);
  }

  /** The list item "<b> <x> <q> <y>", with a punctuation mark `q` between
      two lower-case letters, is read as the genre "<x>  <y>". */
  lemma PunctuatedItemTaxonomy(b: char, x: char, q: char, y: char)
    requires IsListBullet(b) && !IsLineBreak(b) && Lower(b) !in HeaderInitials
    requires 'a' <= x <= 'z' && 'a' <= y <= 'z' && Lower(x) !in HeaderInitials && Lower(y) !in HeaderInitials
    requires PlainLower(q) && !IsWordOrSpace(q) && !IsSeparator(q) && !IsLineBreak(q) && Lower(q) !in HeaderInitials
    ensures ExtractValidGenres([b, ' ', x, ' ', q, ' ', y]) == {[x, ' ', ' ', y]}
  {
    var p, w, t := [b], [' '], [x, ' ', q, ' ', y];
    var md := [b, ' ', x, ' ', q, ' ', y];
    assert p + w + t == md;
    assert !IsLineBreak(' ') && Lower(' ') !in HeaderInitials;
    forall i | 0 <= i < |md|
      ensures !IsLineBreak(md[i]) && Lower(md[i]) !in HeaderInitials
    {
      if i == 0 {
        assert md[i] == b;
      } else if i == 2 {
        assert md[i] == x;
      } else if i == 4 {
        assert md[i] == q;
      } else if i == 6 {
        assert md[i] == y;
      } else {
        assert md[i] == ' ';
      }
    }
    assert t[0] == x && t[|t| - 1] == y;
    PunctuationNormalisedToDoubleSpace(x, q, y);
    SingleItemTaxonomy(p, w, t, FoldAndClean);
  }

  /** The taxonomy made of the single list item "- a & b" holds the one
      genre "a  b". */
  lemma OneItemTaxonomy()
    ensures ExtractValidGenres("- a & b") == {"a  b"}
  {
    PunctuatedItemTaxonomy('-', 'a', '&', 'b');
    assert "- a & b" == ['-', ' ', 'a', ' ', '&', ' ', 'b'];
    assert "a  b" == ['a', ' ', ' ', 'b'];
  }

  /** A book carrying the given genre list and nothing else. */
  function WithGenres(genres: seq<Value>): Value {
    VDict(map["genres" := VList(genres)])
  }

  /** When the normaliser takes `g1` to the only valid genre `g2` and `g2`
      to something else, a run rewrites a book's `g1` to `g2` and a second
      run deletes it, each counting the book as modified. */
  lemma SecondRunDropsGenreWith(g1: string, g2: string, g3: string, norm: Value -> Option<string>, valid: set<string>)
    requires norm(VStr(g1)) == Some(g2) && norm(VStr(g2)) == Some(g3)
    requires valid == {g2} && g1 != g2 && g3 != g2
    ensures CleanAll([WithGenres([VStr(g1)])], norm, valid) == Outcome([WithGenres([VStr(g2)])], 1)
    ensures CleanAll([WithGenres([VStr(g2)])], norm, valid) == Outcome([WithGenres([])], 1)
  {
    var e1, e2 := [VStr(g1)], [VStr(g2)];
    assert e1[..0] == [] && e2[..0] == [];
    assert Cleaned(e1, norm, valid) == [g2];
    assert Cleaned(e2, norm, valid) == [];
    assert Strings([g2]) == e2;
    var b1, b2 := WithGenres(e1), WithGenres(e2);
    assert CleanBook(b1, norm, valid) == b2;
    assert CleanBook(b2, norm, valid) == WithGenres([]);
    assert [b1][..0] == [] && [b2][..0] == [];
  }

  /** Against that taxonomy, a first run rewrites the genre "a & b" to
      "a  b"; a second run on the output deletes it and counts the book as
      modified again. */
  lemma SecondRunDropsGenre()
    ensures CleanDataset([WithGenres([VStr("a & b")])], "- a & b") == Outcome([WithGenres([VStr("a  b")])], 1)
    ensures CleanDataset([WithGenres([VStr("a  b")])], "- a & b") == Outcome([WithGenres([])], 1)
  {
    OneItemTaxonomy();
    NormalizeNotIdempotent();
    SecondRunDropsGenreWith("a & b", "a  b", "a b", Normalize, ExtractValidGenres("- a & b"));
  }

  // ---------------------------------------------------------------------
  // The normaliser that settles
  // ---------------------------------------------------------------------

  /** The script's pipeline with the separator substitution applied once
      more after punctuation is deleted, so that the spaces a deleted mark
      leaves behind close up. */
  function CanonicalForm(s: string): (r: string)
    ensures IsStripped(r)
  {
    Strip(CollapseSeparators(DropPunctuation(CollapseSeparators(CaseFoldStr(Nfkd(s))))))
  }

  /** Characters a canonical name may hold: settled, a word character or
      the plain space. */
  predicate CanonicalChars(s: string) {
    forall i :: 0 <= i < |s| ==> IsSettled(s[i]) && IsWordOrSpace(s[i]) && (s[i] == ' ' || !IsSeparator(s[i]))
  }

  /** No two spaces are adjacent. */
  predicate SingleSpaced(s: string) {
    forall i :: 0 <= i < |s| - 1 ==> !(s[i] == ' ' && s[i + 1] == ' ')
  }

  /** A canonical genre name: stripped, made of settled word characters
      and single plain spaces. */
  predicate IsCanonical(t: string) {
    IsStripped(t) && CanonicalChars(t) && SingleSpaced(t)
  }

  /** The separator substitution on settled text leaves settled text whose
      only separator is the space. */
  lemma CollapseOfSettled(a: string)
    requires AllSettled(a)
    ensures AllSettled(CollapseSeparators(a))
    ensures forall i :: 0 <= i < |CollapseSeparators(a)| ==>
      CollapseSeparators(a)[i] == ' ' || !IsSeparator(CollapseSeparators(a)[i])
  {
    assert IsSettled(' ');
    CollapseKeepsChars(a);
    CollapseFacts(a);
  }

  /** Deleting punctuation from that text leaves canonical characters. */
  lemma DropPunctuationOfSettled(b: string)
    requires AllSettled(b)
    requires forall i :: 0 <= i < |b| ==> b[i] == ' ' || !IsSeparator(b[i])
    ensures CanonicalChars(DropPunctuation(b))
  {
    DropPunctuationFacts(b);
  }

  /** The second substitution keeps canonical characters and leaves single
      spaces. */
  lemma CollapseOfCanonicalChars(c: string)
    requires CanonicalChars(c)
    ensures CanonicalChars(CollapseSeparators(c)) && SingleSpaced(CollapseSeparators(c))
  {
    assert IsSettled(' ') && IsWordOrSpace(' ');
    CollapseKeepsChars(c);
    CollapseFacts(c);
    var d := CollapseSeparators(c);
    forall i | 0 <= i < |d| ensures IsSettled(d[i]) && IsWordOrSpace(d[i]) {
      if d[i] != ' ' {
        var j :| 0 <= j < |c| && c[j] == d[i];
      }
    }
  }

  /** Stripping keeps both properties. */
  lemma StripOfCanonicalChars(d: string)
    requires CanonicalChars(d) && SingleSpaced(d)
    ensures IsCanonical(Strip(d))
  {
    StripFacts(d);
    var off, e := StripOffset(d), Strip(d);
    assert forall i :: 0 <= i < |e| ==> e[i] == d[off + i];
  }

  /** Every output of the corrected pipeline is canonical. */
  lemma CanonicalFormIsCanonical(s: string)
    ensures IsCanonical(CanonicalForm(s))
  {
    var a := CaseFoldStr(Nfkd(s));
    FoldedIsSettled(s);
    CollapseOfSettled(a);
    DropPunctuationOfSettled(CollapseSeparators(a));
    CollapseOfCanonicalChars(DropPunctuation(CollapseSeparators(a)));
    StripOfCanonicalChars(CollapseSeparators(DropPunctuation(CollapseSeparators(a))));
  }

  /** A canonical name is its own canonical form. */
  lemma CanonicalFixed(t: string)
    requires IsCanonical(t)
    ensures CanonicalForm(t) == t
  {
    assert AllSettled(t);
    SettledIsFixed(t);
    CollapseOfSingleSpaced(t);
    DropPunctuationFacts(t);
    StripIdentity(t);
  }

  /** The corrected pipeline is idempotent. */
  lemma CanonicalFormIdempotent(s: string)
    ensures CanonicalForm(CanonicalForm(s)) == CanonicalForm(s)
  {
    CanonicalFormIsCanonical(s);
    CanonicalFixed(CanonicalForm(s));
  }

  /** `normalize` with the corrected pipeline. */
  function NormalizeCanonical(v: Value): (r: Option<string>)
    ensures r.Some? <==> v.VStr?
    ensures r.Some? ==> IsCanonical(r.value)
  {
    if v.VStr? then CanonicalFormIsCanonical(v.s); Some(CanonicalForm(v.s)) else None
  }

  /** Every genre the taxonomy yields under the corrected pipeline is
      canonical. */
  lemma CanonicalGenresAreCanonical(md: string)
    ensures forall g :: g in ExtractWith(md, CanonicalForm) ==> g != [] && IsCanonical(g)
  {
    forall g | g in ExtractWith(md, CanonicalForm) ensures g != [] && IsCanonical(g) {
      var l :| l in SplitLines(md) && LineGenreWith(l, CanonicalForm).Some? && LineGenreWith(l, CanonicalForm).value == g;
      var line := Strip(l);
      if BulletText(line, IsListBullet).Some? {
        CanonicalFormIsCanonical(Strip(BulletText(line, IsListBullet).value));
      } else {
        CanonicalFormIsCanonical(line);
      }
    }
  }

  /** `clean_dataset` with the corrected pipeline, on both the taxonomy
      and the books. */
  function CleanDatasetCanonical(books: seq<Value>, md: string): (r: Outcome)
    requires AllCleanable(books)
    ensures |r.books| == |books|
  {
    CleanAll(books, NormalizeCanonical, ExtractWith(md, CanonicalForm))
  }

  /** With the corrected pipeline the cleaning settles: a second run on
      the written catalog changes nothing and reports no modified book. */
  lemma CanonicalCleaningSettles(books: seq<Value>, md: string)
    requires AllCleanable(books)
    ensures AllCleanable(CleanDatasetCanonical(books, md).books)
    ensures CleanDatasetCanonical(CleanDatasetCanonical(books, md).books, md) == Outcome(CleanDatasetCanonical(books, md).books, 0)
  {
    var valid := ExtractWith(md, CanonicalForm);
    CanonicalGenresAreCanonical(md);
    forall x | x in valid ensures NormalizeCanonical(VStr(x)) == Some(x) {
      CanonicalFixed(x);
    }
    CleanAllSettles(books, NormalizeCanonical, valid);
  }
}
