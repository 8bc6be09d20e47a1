/** The cleaning loop shared by the two taxonomy-driven genre scripts: each
    book's genres are replaced by their normalised forms that the taxonomy
    accepts, and a book counts as modified when this changes its list. The
    scripts differ only in the normaliser and in how they read the
    taxonomy. */
module GenreCleaning {
  import opened Wrappers
  import opened Seqs
  import opened Catalog

  /** A book the loop can read: a dictionary whose `genres` is missing, a
      string or a list. A null, numeric or boolean `genres` makes the
      iteration raise; a dictionary would be iterated by its keys, whose
      order an unordered `map` cannot give, so it is excluded as well. */
  predicate IsCleanable(v: Value) {
    v.VDict? && ("genres" !in v.fields || v.fields["genres"].VStr? || v.fields["genres"].VList?)
  }

  /** Every book of the catalog can be read. */
  predicate AllCleanable(books: seq<Value>) {
    forall i :: 0 <= i < |books| ==> IsCleanable(books[i])
  }

  /** `book.get("genres", [])`, with a string promoted to a one-entry
      list. */
  function GenreEntries(book: Value): (r: seq<Value>)
    requires IsCleanable(book)
    ensures "genres" !in book.fields ==> r == []
  {
    if "genres" !in book.fields then []
    else if book.fields["genres"].VStr? then [book.fields["genres"]]
    else book.fields["genres"].items
  }

  /** The JSON strings of a list of texts. */
  function Strings(xs: seq<string>): seq<Value> {
    Map(xs, (x: string) => VStr(x))
  }

  /** `[norm(g) for g in entries if norm(g) in valid]`. */
  function Cleaned(entries: seq<Value>, norm: Value -> Option<string>, valid: set<string>): (r: seq<string>)
    ensures |r| <= |entries|
  {
    if entries == [] then []
    else
      var n := norm(entries[|entries| - 1]);
      Cleaned(entries[..|entries| - 1], norm, valid) + (if n.Some? && n.value in valid then [n.value] else [])
  }

  /** The cleaned list holds exactly the accepted normal forms of the
      entries. */
  lemma {:induction false} CleanedMembers(entries: seq<Value>, norm: Value -> Option<string>, valid: set<string>)
    ensures forall x :: x in Cleaned(entries, norm, valid) <==>
      x in valid && exists i :: 0 <= i < |entries| && norm(entries[i]) == Some(x)
    decreases |entries|
  {
    if entries != [] {
      var init := entries[..|entries| - 1];
      CleanedMembers(init, norm, valid);
      forall x ensures x in Cleaned(entries, norm, valid) <==>
        x in valid && exists i :: 0 <= i < |entries| && norm(entries[i]) == Some(x)
      {
        if exists i :: 0 <= i < |entries| && norm(entries[i]) == Some(x) {
          var i :| 0 <= i < |entries| && norm(entries[i]) == Some(x);
          if i < |init| {
            assert init[i] == entries[i];
          }
        }
        if exists i :: 0 <= i < |init| && norm(init[i]) == Some(x) {
          var i :| 0 <= i < |init| && norm(init[i]) == Some(x);
          assert entries[i] == init[i];
        }
      }
    }
  }

  /** The cleaned list follows the order of the entries. */
  lemma {:induction false} CleanedInOrder(entries: seq<Value>, norm: Value -> Option<string>, valid: set<string>)
    ensures IsSubsequence(Map(Cleaned(entries, norm, valid), (x: string) => Some(x)), Map(entries, norm))
    decreases |entries|
  {
    if entries != [] {
      var init := entries[..|entries| - 1];
      CleanedInOrder(init, norm, valid);
      var some := (x: string) => Some(x);
      var r := Map(Cleaned(entries, norm, valid), some);
      var mapped := Map(entries, norm);
      assert mapped[..|mapped| - 1] == Map(init, norm);
      if Cleaned(entries, norm, valid) != Cleaned(init, norm, valid) {
        assert Cleaned(entries, norm, valid)[..|Cleaned(entries, norm, valid)| - 1] == Cleaned(init, norm, valid);
        assert r[..|r| - 1] == Map(Cleaned(init, norm, valid), some);
      }
    }
  }

  /** Every accepted text that the normaliser fixes passes through
      unchanged. */
  lemma {:induction false} CleanedOfFixed(xs: seq<string>, norm: Value -> Option<string>, valid: set<string>)
    requires forall i :: 0 <= i < |xs| ==> xs[i] in valid && norm(VStr(xs[i])) == Some(xs[i])
    ensures Cleaned(Strings(xs), norm, valid) == xs
    decreases |xs|
  {
    if xs != [] {
      var init := xs[..|xs| - 1];
      CleanedOfFixed(init, norm, valid);
      assert Strings(xs)[..|xs| - 1] == Strings(init);
      assert xs == init + [xs[|xs| - 1]];
    }
  }

  /** The loop rewrites the book's genres: the cleaned list differs from
      the list it read. */
  predicate Changes(book: Value, norm: Value -> Option<string>, valid: set<string>)
    requires IsCleanable(book)
  {
    Strings(Cleaned(GenreEntries(book), norm, valid)) != GenreEntries(book)
  }

  /** One book through the loop: its genres are replaced by the cleaned
      list when that differs, and nothing else changes. */
  function CleanBook(book: Value, norm: Value -> Option<string>, valid: set<string>): (r: Value)
    requires IsCleanable(book)
    ensures IsCleanable(r)
    ensures forall k :: k != "genres" ==> (k in r.fields <==> k in book.fields)
    ensures forall k :: k != "genres" && k in book.fields ==> r.fields[k] == book.fields[k]
    ensures Changes(book, norm, valid) ==> "genres" in r.fields && r.fields["genres"] == VList(Strings(Cleaned(GenreEntries(book), norm, valid)))
    ensures !Changes(book, norm, valid) ==> r == book
  {
    var cleaned := Strings(Cleaned(GenreEntries(book), norm, valid));
    if cleaned != GenreEntries(book) then VDict(book.fields["genres" := VList(cleaned)]) else book
  }

  /** Whichever branch the loop takes, the book's genres afterwards read
      as the cleaned list. */
  lemma CleanBookEntries(book: Value, norm: Value -> Option<string>, valid: set<string>)
    requires IsCleanable(book)
    ensures GenreEntries(CleanBook(book, norm, valid)) == Strings(Cleaned(GenreEntries(book), norm, valid))
  {
    var r := CleanBook(book, norm, valid);
    if Changes(book, norm, valid) {
      assert r.fields["genres"].VList?;
    }
  }

  /** Every genre a cleaned book carries is a string the taxonomy
      accepts. */
  lemma CleanBookAccepted(book: Value, norm: Value -> Option<string>, valid: set<string>)
    requires IsCleanable(book)
    ensures forall j :: 0 <= j < |GenreEntries(CleanBook(book, norm, valid))| ==>
      GenreEntries(CleanBook(book, norm, valid))[j].VStr? && GenreEntries(CleanBook(book, norm, valid))[j].s in valid
  {
    var cleaned := Cleaned(GenreEntries(book), norm, valid);
    CleanBookEntries(book, norm, valid);
    CleanedMembers(GenreEntries(book), norm, valid);
    forall j | 0 <= j < |cleaned| ensures Strings(cleaned)[j] == VStr(cleaned[j]) {
      MapAt(cleaned, (x: string) => VStr(x), j);
    }
  }

  /** The result of a run: the catalog written back and the number of
      modified books it reports. */
  datatype Outcome = Outcome(books: seq<Value>, modified: nat)

  /** The loop over the catalog. */
  function CleanAll(books: seq<Value>, norm: Value -> Option<string>, valid: set<string>): (r: Outcome)
    requires AllCleanable(books)
    ensures |r.books| == |books|
  {
    if books == [] then Outcome([], 0)
    else
      var last := books[|books| - 1];
      var r0 := CleanAll(books[..|books| - 1], norm, valid);
      Outcome(r0.books + [CleanBook(last, norm, valid)], r0.modified + if Changes(last, norm, valid) then 1 else 0)
  }

  /** Each book is cleaned in place. */
  lemma {:induction false} CleanAllInPlace(books: seq<Value>, norm: Value -> Option<string>, valid: set<string>)
    requires AllCleanable(books)
    ensures forall i :: 0 <= i < |books| ==> CleanAll(books, norm, valid).books[i] == CleanBook(books[i], norm, valid)
    decreases |books|
  {
    if books != [] {
      var init := books[..|books| - 1];
      CleanAllInPlace(init, norm, valid);
      assert forall i :: 0 <= i < |init| ==> init[i] == books[i];
    }
  }

  /** The count reported is at most the number of books, and zero exactly
      when no book's genres change. */
  lemma {:induction false} CleanAllCount(books: seq<Value>, norm: Value -> Option<string>, valid: set<string>)
    requires AllCleanable(books)
    ensures CleanAll(books, norm, valid).modified <= |books|
    ensures CleanAll(books, norm, valid).modified == 0 <==> forall i :: 0 <= i < |books| ==> !Changes(books[i], norm, valid)
    decreases |books|
  {
    if books != [] {
      var init := books[..|books| - 1];
      CleanAllCount(init, norm, valid);
      assert forall i :: 0 <= i < |init| ==> init[i] == books[i];
    }
  }

  /** When the normaliser fixes every text the taxonomy accepts, a book
      once cleaned is left alone by a second pass. */
  lemma CleanBookSettles(book: Value, norm: Value -> Option<string>, valid: set<string>)
    requires IsCleanable(book)
    requires forall x :: x in valid ==> norm(VStr(x)) == Some(x)
    ensures !Changes(CleanBook(book, norm, valid), norm, valid)
    ensures CleanBook(CleanBook(book, norm, valid), norm, valid) == CleanBook(book, norm, valid)
  {
    var cleaned := Cleaned(GenreEntries(book), norm, valid);
    CleanedMembers(GenreEntries(book), norm, valid);
    CleanedOfFixed(cleaned, norm, valid);
  }

  /** Under the same condition the whole loop settles: running it on its
      own output changes nothing and reports no modification. */
  lemma {:induction false} CleanAllSettles(books: seq<Value>, norm: Value -> Option<string>, valid: set<string>)
    requires AllCleanable(books)
    requires forall x :: x in valid ==> norm(VStr(x)) == Some(x)
    ensures AllCleanable(CleanAll(books, norm, valid).books)
    ensures CleanAll(CleanAll(books, norm, valid).books, norm, valid) == Outcome(CleanAll(books, norm, valid).books, 0)
    decreases |books|
  {
    if books != [] {
      var init, last := books[..|books| - 1], books[|books| - 1];
      CleanAllSettles(init, norm, valid);
      CleanBookSettles(last, norm, valid);
      var once := CleanAll(books, norm, valid).books;
      assert once[..|once| - 1] == CleanAll(init, norm, valid).books;
    }
  }
}
