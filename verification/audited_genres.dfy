/** `audit_and_clean_genres.py`: the taxonomy is read into a set of
    lower-cased genre names, with parenthesised notes removed from list
    items, and every book's genres are replaced by those of their
    stripped, lower-cased forms that the set holds. Unlike the normalising
    script, this one applies no Unicode folding and no punctuation
    removal, and it skips every line that starts with '*'. */
module AuditedGenres {
  import opened Wrappers
  import opened Unicode
  import opened Text
  import opened Seqs
  import opened Catalog
  import opened GenreCleaning
  import opened Taxonomy

  /** The bullet class `[\-\*\+●\d]`. */
  predicate IsAuditBullet(c: char) {
    c == '-' || c == '*' || c == '+' || c == '\U{25CF}' || IsDigit(c)
  }

  /** A stripped line skipped before matching: blank, or starting with
      '#', '*' or '>'. */
  predicate IsSkipped(line: string) {
    line == [] || line[0] == '#' || line[0] == '*' || line[0] == '>'
  }

  /** The genre a list item's text names: the text without parenthesised
      notes, stripped and lower-cased. */
  function ItemGenre(t: string): string {
    LowerStr(Strip(DropParenGroups(t)))
  }

  /** What one taxonomy line adds to the set of valid genres: nothing for a
      skipped line or one mentioning a section title; for a list item, its
      text without parenthesised notes, stripped and lower-cased (possibly
      ""); for another line of at most four words, the line lower-cased. */
  function LineGenre(raw: string): (r: Option<string>)
    ensures r.Some? ==> !IsSkipped(Strip(raw)) && !MentionsHeader(Strip(raw))
    ensures Strip(raw) != [] && Strip(raw)[0] == '*' ==> r.None?
  {
    StrippedLineGenre(Strip(raw))
  }

  /** `LineGenre` once the line is stripped. */
  function StrippedLineGenre(line: string): (r: Option<string>)
    ensures r.Some? ==> !IsSkipped(line) && !MentionsHeader(line)
    ensures line != [] && line[0] == '*' ==> r.None?
  {
    if IsSkipped(line) || MentionsHeader(line) then None
    else if BulletText(line, IsAuditBullet).Some? then Some(ItemGenre(Strip(BulletText(line, IsAuditBullet).value)))
    else if |Split(line)| <= MaxGenreWords then Some(LowerStr(line))
    else None
  }

  /** `extract_genres_from_md`. */
  function ExtractGenres(md: string): set<string> {
    set l | l in SplitLines(md) && LineGenre(l).Some? :: LineGenre(l).value
  }

  /** Lower-casing keeps a stripped text stripped. */
  lemma LowerKeepsStripped(s: string)
    requires IsStripped(s)
    ensures IsStripped(LowerStr(s))
  {
    LowerStrFacts(s);
  }

  /** `clean_genre` leaves the lower-cased form of a stripped text alone. */
  lemma CleanOfLowered(s: string)
    requires IsStripped(s)
    ensures Clean(LowerStr(s)) == LowerStr(s)
  {
    LowerKeepsStripped(s);
    StripIdentity(LowerStr(s));
    LowerStrFacts(s);
  }

  /** Every valid genre is its own cleaned form: stripped and lower-case. */
  lemma ValidGenresAreClean(md: string)
    ensures forall g :: g in ExtractGenres(md) ==> Clean(g) == g
  {
    forall g | g in ExtractGenres(md) ensures Clean(g) == g {
      var l :| l in SplitLines(md) && LineGenre(l).Some? && LineGenre(l).value == g;
      var line := Strip(l);
      if BulletText(line, IsAuditBullet).Some? {
        CleanOfLowered(Strip(DropParenGroups(Strip(BulletText(line, IsAuditBullet).value))));
      } else {
        CleanOfLowered(line);
      }
    }
  }

  /** A list item is read as its text without parenthesised notes,
      stripped and lower-cased. */
  lemma ListItemRead(p: string, w: string, t: string)
    requires p != [] && p[0] != '*' && forall i :: 0 <= i < |p| ==> IsAuditBullet(p[i])
    requires w != [] && forall i :: 0 <= i < |w| ==> IsSpace(w[i])
    requires t != [] && IsStripped(t)
    requires !MentionsHeader(p + w + t)
    ensures LineGenre(p + w + t) == Some(ItemGenre(t))
  {
    var line := p + w + t;
    ListLineRead(p, w, t, IsAuditBullet);
    assert line[0] == p[0];
    ItemLineGenre(line, t);
    StrippedItemGenre(t);
  }

  /** A stripped, unskipped item line is read as its item's genre. */
  lemma ItemLineGenre(line: string, t: string)
    requires line != [] && line[0] != '#' && line[0] != '*' && line[0] != '>'
    requires !MentionsHeader(line)
    requires BulletText(line, IsAuditBullet) == Some(t)
    ensures StrippedLineGenre(line) == Some(ItemGenre(Strip(t)))
  {
    assert !IsSkipped(line);
  }

  /** Stripping a stripped item text changes nothing. */
  lemma StrippedItemGenre(t: string)
    requires IsStripped(t)
    ensures ItemGenre(Strip(t)) == ItemGenre(t)
  {
    StripIdentity(t);
  }

  /** The text "<name> (<note>)". */
  function WithNote(name: string, note: string): string {
    (name + " ") + ("(" + note + ")")
  }

  /** An item text "<name> (<note>)" whose name holds no '(' and whose
      note holds no ')' names the lower-cased name: the note is dropped. */
  lemma NoteDropped(name: string, note: string)
    requires name != [] && IsStripped(name) && forall i :: 0 <= i < |name| ==> name[i] != '('
    requires forall i :: 0 <= i < |note| ==> note[i] != ')'
    ensures WithNote(name, note) != [] && IsStripped(WithNote(name, note))
    ensures ItemGenre(WithNote(name, note)) == LowerStr(name)
  {
    var t := WithNote(name, note);
    assert t[0] == name[0] && t[|t| - 1] == ')';
    assert !IsSpace(name[0]) && !IsSpace(')');
    var kept := DropParenGroups(t);
    NoteDeleted(name, note);
    assert kept == name + " ";
    StripTrailingSpace(name);
    assert Strip(kept) == name;
    assert ItemGenre(t) == LowerStr(Strip(kept));
  }

  /** Deleting parenthesised groups from "<name> (<note>)" leaves
      "<name> ". */
  lemma NoteDeleted(name: string, note: string)
    requires forall i :: 0 <= i < |name| ==> name[i] != '('
    requires forall i :: 0 <= i < |note| ==> note[i] != ')'
    ensures DropParenGroups(WithNote(name, note)) == name + " "
  {
    var head, group := name + " ", "(" + note + ")";
    assert forall i :: 0 <= i < |head| ==> head[i] != '(';
    DropParenGroupsPrefix(head, group);
    DropParenGroupsOfGroup(note);
    assert head + [] == head;
  }

  /** Stripping removes a single trailing space from stripped text. */
  lemma StripTrailingSpace(s: string)
    requires s != [] && IsStripped(s)
    ensures Strip(s + " ") == s
  {
    var t := s + " ";
    var e, off := Strip(t), StripOffset(t);
    StripFacts(t);
    StripKeepsWord(s, " ");
    assert e[|e| - 1] == t[off + |e| - 1];
    assert IsSpace(t[|s|]);
    assert off + |e| - 1 != |s|;
    assert e == t[..|s|];
    assert t[..|s|] == s;
  }

  /** Deleting parenthesised groups passes a prefix without '(' through. */
  lemma {:induction false} DropParenGroupsPrefix(a: string, b: string)
    requires forall i :: 0 <= i < |a| ==> a[i] != '('
    ensures DropParenGroups(a + b) == a + DropParenGroups(b)
    decreases |a|
  {
    if a != [] {
      DropParenGroupsPrefix(a[1..], b);
      assert (a + b)[1..] == a[1..] + b;
      assert a == [a[0]] + a[1..];
    } else {
      assert a + b == b;
    }
  }

  /** A single group "(note)", with no ')' inside, is deleted whole. */
  lemma DropParenGroupsOfGroup(note: string)
    requires forall i :: 0 <= i < |note| ==> note[i] != ')'
    ensures DropParenGroups("(" + note + ")") == []
  {
    var rest := note + [')'];
    var g := ['('] + rest;
    assert "(" + note + ")" == g;
    assert g[1..] == rest;
    IndexOfAfter(note, ')');
  }

  /** The first `c` of `s + [c]`, when `s` holds none, is the last
      position. */
  lemma {:induction false} IndexOfAfter(s: string, c: char)
    requires forall i :: 0 <= i < |s| ==> s[i] != c
    ensures IndexOf(s + [c], c) == |s|
    decreases |s|
  {
    if s != [] {
      IndexOfAfter(s[1..], c);
      assert (s + [c])[1..] == s[1..] + [c];
    }
  }

  /** `clean_genre` applied to a genre entry, which must be a string. */
  function CleanEntry(v: Value): (r: Option<string>)
    ensures r.Some? <==> v.VStr?
    ensures r.Some? ==> IsStripped(r.value) && LowerStr(r.value) == r.value
  {
    if v.VStr? then
      LowerKeepsStripped(Strip(v.s));
      LowerStrFacts(Strip(v.s));
      Some(Clean(v.s))
    else None
  }

  /** The script calls `strip` on every genre entry: each must be a
      string. */
  predicate EntriesAreText(book: Value)
    requires IsCleanable(book)
  {
    forall j :: 0 <= j < |GenreEntries(book)| ==> GenreEntries(book)[j].VStr?
  }

  /** Every book can be read and holds only string genres. */
  predicate Auditable(books: seq<Value>) {
    AllCleanable(books) && forall i :: 0 <= i < |books| ==> EntriesAreText(books[i])
  }

  /** The audit loop over the catalog and taxonomy text. */
  function Audit(books: seq<Value>, md: string): (r: Outcome)
    requires Auditable(books)
    ensures |r.books| == |books|
  {
    CleanAll(books, CleanEntry, ExtractGenres(md))
  }

  /** After a run every book holds only valid genres, as strings, and
      nothing but its genres has changed. */
  lemma AuditKeepsValid(books: seq<Value>, md: string, i: nat)
    requires Auditable(books) && i < |books|
    ensures var b := Audit(books, md).books[i];
      && IsCleanable(b)
      && (forall j :: 0 <= j < |GenreEntries(b)| ==>
            GenreEntries(b)[j].VStr? && GenreEntries(b)[j].s in ExtractGenres(md))
      && (forall k :: k != "genres" ==> (k in b.fields <==> k in books[i].fields))
      && (forall k :: k != "genres" && k in books[i].fields ==> b.fields[k] == books[i].fields[k])
  {
    CleanAllInPlace(books, CleanEntry, ExtractGenres(md));
    CleanBookAccepted(books[i], CleanEntry, ExtractGenres(md));
  }

  /** The texts of string entries. */
  function TextsOf(entries: seq<Value>): (xs: seq<string>)
    requires forall j :: 0 <= j < |entries| ==> entries[j].VStr?
    ensures |xs| == |entries| && forall j :: 0 <= j < |entries| ==> xs[j] == entries[j].s
  {
    seq(|entries|, j requires 0 <= j < |entries| => entries[j].s)
  }

  /** A book's genres are kept exactly when each of them already is a
      valid genre in its cleaned spelling. */
  lemma AuditKeepsCleanBook(book: Value, md: string)
    requires IsCleanable(book) && EntriesAreText(book)
    ensures !Changes(book, CleanEntry, ExtractGenres(md)) <==>
      forall j :: 0 <= j < |GenreEntries(book)| ==> GenreEntries(book)[j].s in ExtractGenres(md) && Clean(GenreEntries(book)[j].s) == GenreEntries(book)[j].s
  {
    CleanedKeepsIff(GenreEntries(book), ExtractGenres(md));
  }

  /** Cleaning a list of string entries gives it back exactly when each
      entry is a valid genre in its cleaned spelling. */
  lemma CleanedKeepsIff(entries: seq<Value>, valid: set<string>)
    requires forall j :: 0 <= j < |entries| ==> entries[j].VStr?
    ensures Strings(Cleaned(entries, CleanEntry, valid)) == entries <==>
      forall j :: 0 <= j < |entries| ==> entries[j].s in valid && Clean(entries[j].s) == entries[j].s
  {
    var xs := TextsOf(entries);
    assert Strings(xs) == entries by {
      forall j | 0 <= j < |entries| ensures Strings(xs)[j] == entries[j] {
        MapAt(xs, (x: string) => VStr(x), j);
      }
    }
    if forall j :: 0 <= j < |entries| ==> entries[j].s in valid && Clean(entries[j].s) == entries[j].s {
      forall i | 0 <= i < |xs| ensures xs[i] in valid && CleanEntry(VStr(xs[i])) == Some(xs[i]) {
        assert VStr(xs[i]) == entries[i];
      }
      CleanedOfFixed(xs, CleanEntry, valid);
    }
    if Strings(Cleaned(entries, CleanEntry, valid)) == entries {
      CleanedOfEqual(entries, valid);
    }
  }

  /** If cleaning a list of string entries gives the list back, every
      entry was valid and clean. */
  lemma {:induction false} CleanedOfEqual(entries: seq<Value>, valid: set<string>)
    requires forall i :: 0 <= i < |entries| ==> entries[i].VStr?
    requires Strings(Cleaned(entries, CleanEntry, valid)) == entries
    ensures forall i :: 0 <= i < |entries| ==> entries[i].s in valid && Clean(entries[i].s) == entries[i].s
    decreases |entries|
  {
    if entries != [] {
      var init, last := entries[..|entries| - 1], entries[|entries| - 1];
      var c0 := Cleaned(init, CleanEntry, valid);
      var n := CleanEntry(last);
      var cleaned := Cleaned(entries, CleanEntry, valid);
      assert |c0| <= |init| && |cleaned| == |entries|;
      assert n.Some? && n.value in valid;
      assert cleaned == c0 + [n.value];
      assert Strings(cleaned) == Strings(c0) + [VStr(n.value)];
      assert Strings(c0) == init by {
        assert Strings(cleaned)[..|c0|] == Strings(c0);
        assert entries[..|init|] == init;
      }
      CleanedOfEqual(init, valid);
      assert VStr(n.value) == last;
    }
  }

  /** The audit settles: a second run on the written catalog changes
      nothing and reports no modified book. */
  lemma AuditSettles(books: seq<Value>, md: string)
    requires Auditable(books)
    ensures Auditable(Audit(books, md).books)
    ensures Audit(Audit(books, md).books, md) == Outcome(Audit(books, md).books, 0)
  {
    var valid := ExtractGenres(md);
    ValidGenresAreClean(md);
    CleanAllSettles(books, CleanEntry, valid);
    var once := Audit(books, md).books;
    forall i | 0 <= i < |once| ensures EntriesAreText(once[i]) {
      AuditKeepsValid(books, md, i);
    }
  }
}
