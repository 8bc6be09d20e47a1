/** `clean_genres_against_master.py`: every book's genres are screened
    against a fixed whitelist. A genre stays, in its original spelling,
    when its stripped lower-cased form is listed; otherwise that form is
    counted in the report of invalid genres. */
module GenreMaster {
  import opened Unicode
  import opened Text
  import opened Seqs
  import opened Catalog
  import opened GenreCleaning

  /** `VALID_GENRES` as the script spells it. */
  const MasterGenres: set<string> := {
    "literaria", "contemporánea", "experimental", "minimalista", "realismo mágico",
    "ficción psicológica", "ficción filosófica", "histórica", "época antigua", "edad media",
    "renacimiento", "siglo xix", "guerras mundiales", "romántica", "paranormal",
    "romántica erótica", "chick lit", "lgtb romántica", "misterio", "suspense", "thriller",
    "policíaco", "detectives", "thriller psicológico", "thriller legal", "thriller judicial",
    "thriller médico", "thriller político", "thriller conspiración", "noir", "novela negra",
    "terror", "horror", "gótico", "sobrenatural", "psicológico", "criaturas", "ciencia ficción",
    "distopía", "utopía", "cyberpunk", "steampunk", "space opera", "viajes en el tiempo",
    "postapocalíptica", "fantasía", "épica", "medieval", "urbana", "oscura", "juvenil",
    "mitológica", "sword & sorcery", "aventura", "supervivencia", "viajes", "exploración",
    "piratas", "oeste", "western", "queer ficción", "drama contemporáneo", "romance queer",
    "coming-of-age", "romance juvenil", "fantasía juvenil", "distopía juvenil", "realismo juvenil",
    "thriller juvenil", "álbum ilustrado", "cuento clásico", "aventura infantil", "fábulas",
    "moraleja", "humor", "sátira", "parodia", "sátira política", "sátira social",
    "comedia romántica", "relatos", "cuentos", "microficción", "biografía", "autobiografía",
    "memorias", "ensayo", "filosofía", "psicología", "sociología", "crítica literaria", "arte",
    "estética", "religión", "espiritualidad", "ciencia", "tecnología", "historia", "autoayuda",
    "desarrollo personal", "inteligencia emocional", "motivación", "productividad", "mindfulness",
    "educación", "pedagogía", "política", "economía", "sociedad", "geopolítica", "feminismo",
    "antropología", "ecología", "divulgación científica", "astronomía", "biología", "salud",
    "inteligencia artificial", "true crime", "crónica periodística", "gastronomía", "cocina",
    "manualidades", "diy", "jardinería", "hogar", "finanzas personales", "inversión", "nutrición",
    "fitness", "poesía clásica", "poesía moderna", "poesía contemporánea", "poesía amorosa",
    "poesía existencial", "slam poetry", "poesía visual", "poesía experimental", "teatro clásico",
    "teatro contemporáneo", "tragedia", "comedia", "teatro del absurdo", "superhéroes",
    "slice of life", "manga shōnen", "manga shōjo", "manga seinen", "humor gráfico",
    "cómic histórico", "cómic político", "literatura feminista", "literatura queer",
    "literatura indígena", "afrofuturista", "ficción real", "autoficción", "narrativa epistolar",
    "literatura de viajes", "literatura existencialista", "literatura testimonial"
  }

  /** `{g.lower().strip() for g in VALID_GENRES}`. */
  function Whitelist(master: set<string>): set<string> {
    set g | g in master :: Strip(LowerStr(g))
  }

  /** The whitelist used by the script. */
  function MasterWhitelist(): set<string> {
    Whitelist(MasterGenres)
  }

  /** Lower-cased text is its own lower-cased form. */
  lemma {:induction false} LowerStrOfLowered(s: string)
    requires forall i :: 0 <= i < |s| ==> Lower(s[i]) == s[i]
    ensures LowerStr(s) == s
    decreases |s|
  {
    if s != [] {
      LowerStrOfLowered(s[1..]);
    }
  }

  /** Stripping lower-cased text leaves lower-cased text. */
  lemma StrippedLowerIsLower(m: string)
    ensures forall i :: 0 <= i < |Strip(LowerStr(m))| ==> Lower(Strip(LowerStr(m))[i]) == Strip(LowerStr(m))[i]
  {
    var l := LowerStr(m);
    var g := Strip(l);
    LowerStrFacts(m);
    StripKeepsChars(l);
    forall i | 0 <= i < |g| ensures Lower(g[i]) == g[i] {
      var j :| 0 <= j < |l| && l[j] == g[i];
      LowerIdempotent(m[j]);
    }
  }

  /** Every whitelist entry is its own cleaned form, so a book genre
      spelled exactly as an entry always passes. */
  lemma WhitelistIsClean(master: set<string>)
    ensures forall g :: g in Whitelist(master) ==> Clean(g) == g
  {
    forall g | g in Whitelist(master) ensures Clean(g) == g {
      var m :| m in master && g == Strip(LowerStr(m));
      StrippedLowerIsLower(m);
      StripIdentity(g);
      LowerStrOfLowered(g);
    }
  }

  // ---------------------------------------------------------------------
  // One book
  // ---------------------------------------------------------------------

  /** A book the loop can process: a dictionary whose `genres` is missing,
      a string, or a list of strings. A null, numeric or boolean `genres`
      makes the loop raise, and a non-string entry makes `strip` raise; a
      dictionary would be iterated by its keys, whose order an unordered
      `map` cannot give, so it is excluded as well. */
  predicate IsScreenable(v: Value) {
    && v.VDict?
    && ("genres" in v.fields ==>
      || v.fields["genres"].VStr?
      || (v.fields["genres"].VList? && forall j :: 0 <= j < |v.fields["genres"].items| ==> v.fields["genres"].items[j].VStr?))
  }

  /** What `for g in book.get("genres", [])` visits: nothing when the field
      is missing, each character of a string as a one-character string,
      each entry of a list. */
  function Visited(book: Value): (gs: seq<string>)
    requires IsScreenable(book)
    ensures "genres" !in book.fields ==> gs == []
    ensures "genres" in book.fields && book.fields["genres"].VStr? ==> |gs| == |book.fields["genres"].s|
    ensures "genres" in book.fields && book.fields["genres"].VList? ==> |gs| == |book.fields["genres"].items|
  {
    if "genres" !in book.fields then []
    else
      var v := book.fields["genres"];
      if v.VStr? then seq(|v.s|, i requires 0 <= i < |v.s| => [v.s[i]])
      else seq(|v.items|, j requires 0 <= j < |v.items| => v.items[j].s)
  }

  /** The genres kept, in their original spelling and order: those whose
      `key` (the script's is `Clean`) is listed. */
  function Kept(gs: seq<string>, key: string -> string, whitelist: set<string>): seq<string> {
    Filter(gs, g => key(g) in whitelist)
  }

  /** The keys of the genres turned away, one count per occurrence. */
  function Rejected(gs: seq<string>, key: string -> string, whitelist: set<string>): multiset<string> {
    if gs == [] then multiset{}
    else
      var k := key(gs[|gs| - 1]);
      Rejected(gs[..|gs| - 1], key, whitelist) + if k in whitelist then multiset{} else multiset{k}
  }

  /** The kept genres are, in order, exactly the listed ones. */
  lemma KeptExactly(gs: seq<string>, key: string -> string, whitelist: set<string>)
    ensures IsSubsequence(Kept(gs, key, whitelist), gs)
    ensures forall g :: g in Kept(gs, key, whitelist) <==> g in gs && key(g) in whitelist
  {
    FilterIsSubsequence(gs, g => key(g) in whitelist);
    FilterMembers(gs, g => key(g) in whitelist);
  }

  /** Every genre is either kept or reported: the report has one count
      per dropped genre. */
  lemma {:induction false} RejectedCount(gs: seq<string>, key: string -> string, whitelist: set<string>)
    ensures |Kept(gs, key, whitelist)| + |Rejected(gs, key, whitelist)| == |gs|
    decreases |gs|
  {
    if gs != [] {
      var init := gs[..|gs| - 1];
      RejectedCount(init, key, whitelist);
    }
  }

  /** The report holds exactly the keys, not listed, of visited genres. */
  lemma {:induction false} RejectedMembers(gs: seq<string>, key: string -> string, whitelist: set<string>)
    ensures forall x :: x in Rejected(gs, key, whitelist) <==>
      x !in whitelist && exists i :: 0 <= i < |gs| && key(gs[i]) == x
    decreases |gs|
  {
    if gs != [] {
      var init := gs[..|gs| - 1];
      RejectedMembers(init, key, whitelist);
      forall x ensures x in Rejected(gs, key, whitelist) <==>
        x !in whitelist && exists i :: 0 <= i < |gs| && key(gs[i]) == x
      {
        if exists i :: 0 <= i < |gs| && key(gs[i]) == x {
          var i :| 0 <= i < |gs| && key(gs[i]) == x;
          if i < |init| {
            assert init[i] == gs[i];
          }
        }
        if exists i :: 0 <= i < |init| && key(init[i]) == x {
          var i :| 0 <= i < |init| && key(init[i]) == x;
          assert gs[i] == init[i];
        }
      }
    }
  }

  /** `book["genres"] = valid`: the field is always written, as the list
      of kept genres. */
  function ScreenBook(book: Value, whitelist: set<string>): (r: Value)
    requires IsScreenable(book)
    ensures IsScreenable(r)
    ensures "genres" in r.fields && r.fields["genres"] == VList(Strings(Kept(Visited(book), Clean, whitelist)))
    ensures forall k :: k != "genres" ==> (k in r.fields <==> k in book.fields)
    ensures forall k :: k != "genres" && k in book.fields ==> r.fields[k] == book.fields[k]
  {
    var kept := Kept(Visited(book), Clean, whitelist);
    forall j | 0 <= j < |kept| ensures Strings(kept)[j].VStr? {
      MapAt(kept, (x: string) => VStr(x), j);
    }
    VDict(book.fields["genres" := VList(Strings(kept))])
  }

  /** The genres a screened book visits next time are the ones kept. */
  lemma VisitedAfterScreen(book: Value, whitelist: set<string>)
    requires IsScreenable(book)
    ensures Visited(ScreenBook(book, whitelist)) == Kept(Visited(book), Clean, whitelist)
  {
    var kept := Kept(Visited(book), Clean, whitelist);
    var after := Visited(ScreenBook(book, whitelist));
    forall j | 0 <= j < |kept| ensures after[j] == kept[j] {
      MapAt(kept, (x: string) => VStr(x), j);
    }
  }

  /** Screening a list of genres all of which pass keeps it whole and
      reports nothing. */
  lemma {:induction false} ScreenOfListed(gs: seq<string>, key: string -> string, whitelist: set<string>)
    requires forall i :: 0 <= i < |gs| ==> key(gs[i]) in whitelist
    ensures Kept(gs, key, whitelist) == gs
    ensures Rejected(gs, key, whitelist) == multiset{}
    decreases |gs|
  {
    FilterAll(gs, g => key(g) in whitelist);
    if gs != [] {
      ScreenOfListed(gs[..|gs| - 1], key, whitelist);
    }
  }

  /** A screened book is left as it is by a second screening, which
      reports nothing. */
  lemma ScreenBookSettles(book: Value, whitelist: set<string>)
    requires IsScreenable(book)
    ensures ScreenBook(ScreenBook(book, whitelist), whitelist) == ScreenBook(book, whitelist)
    ensures Rejected(Visited(ScreenBook(book, whitelist)), Clean, whitelist) == multiset{}
  {
    var gs := Visited(book);
    var kept := Kept(gs, Clean, whitelist);
    VisitedAfterScreen(book, whitelist);
    KeptExactly(gs, Clean, whitelist);
    assert forall i :: 0 <= i < |kept| ==> kept[i] in kept;
    ScreenOfListed(kept, Clean, whitelist);
    var once := ScreenBook(book, whitelist);
    assert once.fields["genres" := once.fields["genres"]] == once.fields;
  }

  // ---------------------------------------------------------------------
  // The catalog
  // ---------------------------------------------------------------------

  /** Every book can be processed. */
  predicate AllScreenable(books: seq<Value>) {
    forall i :: 0 <= i < |books| ==> IsScreenable(books[i])
  }

  /** The result of a run: the catalog written back and the counter of
      invalid genres. */
  datatype Screening = Screening(books: seq<Value>, invalid: multiset<string>)

  /** The loop over the catalog. */
  function Screen(books: seq<Value>, whitelist: set<string>): (r: Screening)
    requires AllScreenable(books)
    ensures |r.books| == |books|
    ensures AllScreenable(r.books)
  {
    if books == [] then Screening([], multiset{})
    else
      var last := books[|books| - 1];
      var r0 := Screen(books[..|books| - 1], whitelist);
      Screening(r0.books + [ScreenBook(last, whitelist)], r0.invalid + Rejected(Visited(last), Clean, whitelist))
  }

  /** The script's run, against its own whitelist. */
  function ScreenWithMaster(books: seq<Value>): (r: Screening)
    requires AllScreenable(books)
    ensures |r.books| == |books|
  {
    Screen(books, MasterWhitelist())
  }

  /** Each book is screened in place. */
  lemma {:induction false} ScreenInPlace(books: seq<Value>, whitelist: set<string>)
    requires AllScreenable(books)
    ensures forall i :: 0 <= i < |books| ==> Screen(books, whitelist).books[i] == ScreenBook(books[i], whitelist)
    decreases |books|
  {
    if books != [] {
      var init := books[..|books| - 1];
      ScreenInPlace(init, whitelist);
      assert forall i :: 0 <= i < |init| ==> init[i] == books[i];
    }
  }

  /** The number of genres the loop visits over a catalog. */
  function GenreCount(books: seq<Value>): nat
    requires AllScreenable(books)
  {
    if books == [] then 0 else GenreCount(books[..|books| - 1]) + |Visited(books[|books| - 1])|
  }

  /** No genre is lost: every visited genre is either still in the catalog
      or counted once in the report. */
  lemma {:induction false} ScreenAccounts(books: seq<Value>, whitelist: set<string>)
    requires AllScreenable(books)
    ensures GenreCount(Screen(books, whitelist).books) + |Screen(books, whitelist).invalid| == GenreCount(books)
    decreases |books|
  {
    if books != [] {
      var init, last := books[..|books| - 1], books[|books| - 1];
      ScreenAccounts(init, whitelist);
      VisitedAfterScreen(last, whitelist);
      RejectedCount(Visited(last), Clean, whitelist);
      var once := Screen(books, whitelist).books;
      assert once[..|once| - 1] == Screen(init, whitelist).books;
    }
  }

  /** A second run on the written catalog changes nothing and reports no
      invalid genre. */
  lemma {:induction false} ScreenSettles(books: seq<Value>, whitelist: set<string>)
    requires AllScreenable(books)
    ensures Screen(Screen(books, whitelist).books, whitelist) == Screening(Screen(books, whitelist).books, multiset{})
    decreases |books|
  {
    if books != [] {
      var init, last := books[..|books| - 1], books[|books| - 1];
      ScreenSettles(init, whitelist);
      ScreenBookSettles(last, whitelist);
      var once := Screen(books, whitelist).books;
      assert once[..|once| - 1] == Screen(init, whitelist).books;
    }
  }
}
