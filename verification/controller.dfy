/** The recommendation endpoint of the service, once the catalog has been
    fetched: the two-of-three candidate gate, the score filter, the
    selection of the best book and its explanation. */
module Controller {
  import opened Seqs
  import opened Recommender
  import Catalog

  // ---------------------------------------------------------------------
  // Candidate gate
  // ---------------------------------------------------------------------

  /** How many of the three tag facets the gate requires to be shared. */
  const MinimumSharedFacets := 2

  /** 1 for a shared facet, 0 otherwise (Python's `int(bool)`). */
  function Flag(shared: bool): nat {
    if shared then 1 else 0
  }

  /** `has_minimum_match`: at least two of genres, themes and emotion tags
      have a normalised value in common. */
  function HasMinimumMatch(b: Book, p: Profile): (r: bool)
    ensures r <==>
      || (Shares(b.genres, p.preferences.genres) && Shares(b.themes, p.preferences.themes))
      || (Shares(b.genres, p.preferences.genres) && Shares(b.emotionTags, p.preferences.emotionTags))
      || (Shares(b.themes, p.preferences.themes) && Shares(b.emotionTags, p.preferences.emotionTags))
  {
    var prefs := p.preferences;
    Flag(Shares(b.genres, prefs.genres))
    + Flag(Shares(b.themes, prefs.themes))
    + Flag(Shares(b.emotionTags, prefs.emotionTags)) >= MinimumSharedFacets
  }

  /** The gate reads only the three tag facets: tone, style, age range,
      personality tags and the reader's personality never change it. */
  lemma GateIgnoresScalars(b: Book, p: Profile, b2: Book, p2: Profile)
    requires b2.genres == b.genres && b2.themes == b.themes && b2.emotionTags == b.emotionTags
    requires p2.preferences.genres == p.preferences.genres
    requires p2.preferences.themes == p.preferences.themes
    requires p2.preferences.emotionTags == p.preferences.emotionTags
    ensures HasMinimumMatch(b2, p2) == HasMinimumMatch(b, p)
  {
  }

  /** A book through the gate has at least two strictly positive tag
      scores, and therefore a strictly positive score. */
  lemma GatePassImpliesPositive(b: Book, p: Profile)
    requires HasMinimumMatch(b, p)
    ensures var c := ComponentsOf(p, b);
      Flag(c.genre > 0.0) + Flag(c.theme > 0.0) + Flag(c.emotion > 0.0) >= 2
    ensures ComputeScore(p, b) > 0.0
  {
    SharedTagGivesPositiveScore(p, b);
  }

  // ---------------------------------------------------------------------
  // Ranking
  // ---------------------------------------------------------------------

  /** A book retained for ranking, with its score. */
  datatype Scored = Scored(book: Book, score: real)

  /** The loop of `recommend`: books failing the gate are skipped unscored,
      the others are kept with their score when it is positive. */
  function Candidates(books: seq<Book>, p: Profile): (r: seq<Scored>)
    ensures |r| <= |books|
  {
    if books == [] then []
    else
      var last := books[|books| - 1];
      Candidates(books[..|books| - 1], p)
      + (if HasMinimumMatch(last, p) && ScoreBook(last, p) > 0.0 then [Scored(last, ScoreBook(last, p))] else [])
  }

  /** A retained book passed the gate and carries its own, positive
      score. */
  predicate Retained(s: Scored, p: Profile) {
    HasMinimumMatch(s.book, p) && s.score == ScoreBook(s.book, p) && s.score > 0.0
  }

  /** Every retained entry is a catalog book through the gate, with its own
      positive score. */
  lemma {:induction false} CandidatesSound(books: seq<Book>, p: Profile)
    ensures forall i :: 0 <= i < |Candidates(books, p)| ==>
      Candidates(books, p)[i].book in books && Retained(Candidates(books, p)[i], p)
    decreases |books|
  {
    if books != [] {
      var init := books[..|books| - 1];
      CandidatesSound(init, p);
      assert forall b :: b in init ==> b in books;
    }
  }

  /** Every catalog book through the gate is retained: the score filter
      removes none of them. */
  lemma {:induction false} CandidatesComplete(books: seq<Book>, p: Profile)
    ensures forall b :: b in books && HasMinimumMatch(b, p) ==> Scored(b, ScoreBook(b, p)) in Candidates(books, p)
    decreases |books|
  {
    if books != [] {
      var init, last := books[..|books| - 1], books[|books| - 1];
      CandidatesComplete(init, p);
      assert books == init + [last];
      if HasMinimumMatch(last, p) {
        GatePassImpliesPositive(last, p);
      }
    }
  }

  /** The retained entries keep catalog order: they are a sublist of the
      catalog paired with scores. */
  lemma {:induction false} CandidatesInOrder(books: seq<Book>, p: Profile)
    ensures IsSubsequence(Candidates(books, p), Map(books, (b: Book) => Scored(b, ScoreBook(b, p))))
    decreases |books|
  {
    if books != [] {
      var init := books[..|books| - 1];
      CandidatesInOrder(init, p);
      var f := (b: Book) => Scored(b, ScoreBook(b, p));
      var mapped := Map(books, f);
      assert mapped[..|mapped| - 1] == Map(init, f);
      var r := Candidates(books, p);
      if r != Candidates(init, p) {
        assert r[..|r| - 1] == Candidates(init, p);
      }
    }
  }

  /** Index of the first entry with the highest score: the head of the list
      after Python's stable `sort(key=score, reverse=True)`. */
  function BestIndex(xs: seq<Scored>): (k: nat)
    requires xs != []
    ensures k < |xs|
    ensures forall j :: 0 <= j < |xs| ==> xs[j].score <= xs[k].score
    ensures forall j :: 0 <= j < k ==> xs[j].score < xs[k].score
  {
    if |xs| == 1 then 0
    else
      var k := BestIndex(xs[..|xs| - 1]);
      if xs[|xs| - 1].score > xs[k].score then |xs| - 1 else k
  }

  /** What the endpoint answers: a 404 for an empty catalog, a 404 when no
      book is retained, or the best book with its explanation. */
  datatype Recommendation =
    | NoBooksAvailable
    | NoBookMatches
    | Recommended(book: Book, score: real, explanation: string)

  const NoBooksDetail := "No hay libros disponibles para recomendar."
  const NoMatchDetail := "Ningún libro coincide con tu perfil."

  /** `recommend` over an already fetched catalog. */
  function Recommend(books: seq<Book>, p: Profile): (r: Recommendation)
    ensures r.NoBooksAvailable? <==> books == []
    ensures r.Recommended? ==> r.book in books && HasMinimumMatch(r.book, p)
    ensures r.Recommended? ==> r.explanation == GenerateExplanation(r.book, p)
  {
    if books == [] then NoBooksAvailable
    else
      CandidatesSound(books, p);
      Select(Candidates(books, p), p)
  }

  /** The sort-and-take-first step over the retained entries. */
  function Select(scored: seq<Scored>, p: Profile): (r: Recommendation)
    ensures r.NoBooksAvailable? == false
    ensures r.NoBookMatches? <==> scored == []
    ensures r.Recommended? ==>
      && r.book == scored[BestIndex(scored)].book
      && r.score == scored[BestIndex(scored)].score
      && r.explanation == GenerateExplanation(r.book, p)
  {
    if scored == [] then NoBookMatches
    else
      var best := scored[BestIndex(scored)];
      Recommended(best.book, best.score, GenerateExplanation(best.book, p))
  }

  /** A non-empty catalog yields no recommendation exactly when no book
      passes the gate: the score filter never removes a gated book. */
  lemma NoMatchIffNoneGated(books: seq<Book>, p: Profile)
    requires books != []
    ensures Recommend(books, p).NoBookMatches? <==> forall b :: b in books ==> !HasMinimumMatch(b, p)
  {
    CandidatesSound(books, p);
    if exists b :: b in books && HasMinimumMatch(b, p) {
      var b :| b in books && HasMinimumMatch(b, p);
      CandidatesComplete(books, p);
      assert Scored(b, ScoreBook(b, p)) in Candidates(books, p);
    }
  }

  /** The winner's score is its own, positive, and at least that of every
      book through the gate. */
  lemma WinnerIsBest(books: seq<Book>, p: Profile)
    requires Recommend(books, p).Recommended?
    ensures var r := Recommend(books, p);
      && r.score == ScoreBook(r.book, p) && r.score > 0.0
      && (forall b :: b in books && HasMinimumMatch(b, p) ==> ScoreBook(b, p) <= r.score)
  {
    var scored := Candidates(books, p);
    assert Recommend(books, p) == Select(scored, p);
    CandidatesSound(books, p);
    CandidatesComplete(books, p);
    var k := BestIndex(scored);
    assert Retained(scored[k], p);
    forall b | b in books && HasMinimumMatch(b, p) ensures ScoreBook(b, p) <= scored[k].score {
      BestBoundsMembers(scored, Scored(b, ScoreBook(b, p)));
    }
  }

  /** No entry scores above the best one. */
  lemma BestBoundsMembers(xs: seq<Scored>, s: Scored)
    requires s in xs
    ensures s.score <= xs[BestIndex(xs)].score
  {
    var j :| 0 <= j < |xs| && xs[j] == s;
  }

  /** `book` sits at some position of `scored` before which every entry
      scores strictly less than `score`. */
  ghost predicate FirstWithScore(scored: seq<Scored>, book: Book, score: real) {
    exists k :: 0 <= k < |scored| && scored[k].book == book
      && forall j :: 0 <= j < k ==> scored[j].score < score
  }

  /** Ties go to the earliest book: every retained entry before the
      winner's scores strictly less. */
  lemma WinnerIsFirstBest(books: seq<Book>, p: Profile)
    requires Recommend(books, p).Recommended?
    ensures FirstWithScore(Candidates(books, p), Recommend(books, p).book, Recommend(books, p).score)
  {
    var scored := Candidates(books, p);
    var r := Recommend(books, p);
    assert r == Select(scored, p);
    var k := BestIndex(scored);
    assert scored[k].book == r.book;
    assert forall j :: 0 <= j < k ==> scored[j].score < r.score;
    assert FirstWithScore(scored, r.book, r.score);
  }

  // ---------------------------------------------------------------------
  // Book listing
  // ---------------------------------------------------------------------

  /** The placeholders shown for a missing title and a missing author. */
  const UntitledPlaceholder := "Sin título"
  const UnknownAuthorPlaceholder := "Desconocido"

  /** `book.get(name, placeholder)`: a present value is copied whatever its
      type, `None` included. */
  function FieldOr(book: Catalog.Object, name: string, placeholder: string): Catalog.Value {
    if name in book then book[name] else Catalog.VStr(placeholder)
  }

  /** `clean_projection`: a listed book shows its title and author and
      nothing else; a missing one shows its placeholder. */
  function CleanProjection(book: Catalog.Object): (r: Catalog.Object)
    ensures r.Keys == {"title", "author"}
    ensures forall name :: name in r && name in book ==> r[name] == book[name]
    ensures "title" !in book ==> r["title"] == Catalog.VStr(UntitledPlaceholder)
    ensures "author" !in book ==> r["author"] == Catalog.VStr(UnknownAuthorPlaceholder)
  {
    map["title" := FieldOr(book, "title", UntitledPlaceholder),
        "author" := FieldOr(book, "author", UnknownAuthorPlaceholder)]
  }
}
