/** `fields_adjustments.py`: the values of eight catalog fields are
    normalised and collected per field, and every (book, field) pair whose
    value is empty, missing or of an unexpected type is reported as an
    anomaly. */
module FieldAudit {
  import opened Wrappers
  import opened Unicode
  import opened Text
  import opened Seqs
  import opened Catalog

  /** Normal forms the script treats as "no value". */
  const Sentinels: set<string> := {"", "n/a", "na", "null", "none"}

  /** What a kept normal form looks like: non-empty, not a sentinel,
      stripped, made of word characters and single-character separators
      that are all the plain space. */
  predicate IsNormalForm(x: string) {
    && x != [] && x !in Sentinels && IsStripped(x)
    && forall i :: 0 <= i < |x| ==> IsWordOrSpace(x[i]) && (x[i] == ' ' || !IsSeparator(x[i]))
  }

  /** `normalize`: `None` for a falsy value or a non-string; otherwise
      NFKD, case folding, separator runs to one space, punctuation
      deleted, stripped, and `None` again when the result is a sentinel.
      The falsy test is subsumed: "" normalises to the sentinel "". */
  function Normalize(v: Value): (r: Option<string>)
    ensures r.Some? ==> v.VStr? && IsNormalForm(r.value)
    ensures r.None? <==> !v.VStr? || FoldAndClean(v.s) in Sentinels
  {
    if !v.VStr? || v.s == "" then None
    else
      var t := FoldAndClean(v.s);
      FoldAndCleanFacts(v.s);
      if t in Sentinels then None else Some(t)
  }

  /** `normalize_list`: `[]` for a non-list; otherwise the normal forms of
      the entries that have one, in order. */
  function NormalizeList(v: Value): (r: seq<string>)
    ensures !v.VList? ==> r == []
    ensures v.VList? ==> |r| <= |v.items|
    ensures forall i :: 0 <= i < |r| ==> IsNormalForm(r[i])
  {
    if v.VList? then NormalForms(v.items) else []
  }

  /** The normal forms of the entries that have one, in order. */
  function NormalForms(items: seq<Value>): (r: seq<string>)
    ensures |r| <= |items|
    ensures forall i :: 0 <= i < |r| ==> IsNormalForm(r[i])
  {
    var r := Defined(items, Normalize);
    DefinedMembers(items, Normalize);
    assert forall i :: 0 <= i < |r| ==> r[i] in r;
    r
  }

  /** The defined images of the entries under `f`, in order. */
  function Defined(items: seq<Value>, f: Value -> Option<string>): (r: seq<string>)
    ensures |r| <= |items|
  {
    if items == [] then []
    else
      var n := f(items[|items| - 1]);
      Defined(items[..|items| - 1], f) + if n.Some? then [n.value] else []
  }

  /** The defined images are exactly the values `f` takes on the
      entries. */
  lemma {:induction false} DefinedMembers(items: seq<Value>, f: Value -> Option<string>)
    ensures forall x :: x in Defined(items, f) <==> exists i :: 0 <= i < |items| && f(items[i]) == Some(x)
    decreases |items|
  {
    if items != [] {
      var init := items[..|items| - 1];
      DefinedMembers(init, f);
      forall x ensures x in Defined(items, f) <==> exists i :: 0 <= i < |items| && f(items[i]) == Some(x) {
        if exists i :: 0 <= i < |items| && f(items[i]) == Some(x) {
          var i :| 0 <= i < |items| && f(items[i]) == Some(x);
          if i < |init| {
            assert init[i] == items[i];
          }
        }
        if exists i :: 0 <= i < |init| && f(init[i]) == Some(x) {
          var i :| 0 <= i < |init| && f(init[i]) == Some(x);
          assert items[i] == init[i];
        }
      }
    }
  }

  /** The defined images come in the order of their entries. */
  lemma {:induction false} DefinedInOrder(items: seq<Value>, f: Value -> Option<string>)
    ensures IsSubsequence(Map(Defined(items, f), (x: string) => Some(x)), Map(items, f))
    decreases |items|
  {
    if items != [] {
      var init := items[..|items| - 1];
      DefinedInOrder(init, f);
      var some := (x: string) => Some(x);
      var r := Map(Defined(items, f), some);
      var mapped := Map(items, f);
      assert mapped[..|mapped| - 1] == Map(init, f);
      if Defined(items, f) != Defined(init, f) {
        assert Defined(items, f)[..|Defined(items, f)| - 1] == Defined(init, f);
        assert r[..|r| - 1] == Map(Defined(init, f), some);
      }
    }
  }

  /** The list holds exactly the normal forms of the entries, in the order
      of the entries. */
  lemma NormalFormsExact(items: seq<Value>)
    ensures forall x :: x in NormalForms(items) <==> exists i :: 0 <= i < |items| && Normalize(items[i]) == Some(x)
    ensures IsSubsequence(Map(NormalForms(items), (x: string) => Some(x)), Map(items, Normalize))
  {
    DefinedMembers(items, Normalize);
    DefinedInOrder(items, Normalize);
  }

  // ---------------------------------------------------------------------
  // The per-field classification
  // ---------------------------------------------------------------------

  /** The eight fields the script inspects, in order. */
  const Fields: seq<string> := ["genres", "subgenres", "themes", "emotion_tags", "tone", "style", "age_range", "language"]

  /** The anomalies the script reports. */
  datatype Issue = EmptyList | EmptyString | Missing | UnexpectedType

  /** The report text of an anomaly; the script appends the Python type
      name to the last one. */
  function Message(issue: Issue): string {
    match issue
    case EmptyList => "LISTA VACÍA O INVÁLIDA"
    case EmptyString => "STRING VACÍO O INVÁLIDO"
    case Missing => "VALOR AUSENTE"
    case UnexpectedType => "TIPO INESPERADO: "
  }

  /** The anomaly a field value raises, if any: a list none of whose
      entries normalises, a string that does not normalise, `None` (or a
      missing field), or any other type. */
  function FieldIssue(value: Value): (r: Option<Issue>)
    ensures r == Some(EmptyList) <==> value.VList? && forall j :: 0 <= j < |value.items| ==> Normalize(value.items[j]).None?
    ensures r == Some(EmptyString) <==> value.VStr? && FoldAndClean(value.s) in Sentinels
    ensures r == Some(Missing) <==> value.VNone?
    ensures r == Some(UnexpectedType) <==> value.VDict? || value.VOther?
  {
    match value
    case VList(items) =>
      NormalFormsExact(items);
      if NormalForms(items) == [] then Some(EmptyList) else None
    case VStr(_) => if Normalize(value).None? then Some(EmptyString) else None
    case VNone => Some(Missing)
    case _ => Some(UnexpectedType)
  }

  /** What a field value adds to the field's collected values: the normal
      forms of a list (possibly none, which still creates the field's
      entry), the normal form of a string that has one, otherwise
      nothing. */
  function Contribution(value: Value): (r: Option<set<string>>)
    ensures r.Some? ==> forall x :: x in r.value ==> IsNormalForm(x)
    ensures r.Some? <==> value.VList? || Normalize(value).Some?
  {
    if value.VList? then Some(ToSet(NormalizeList(value)))
    else if Normalize(value).Some? then Some({Normalize(value).value})
    else None
  }

  /** One reported anomaly: the book's index, the field and the issue. */
  datatype Anomaly = Anomaly(book: nat, field: string, issue: Issue)

  /** The script's state: the anomalies in report order and the collected
      values of each field touched so far. */
  datatype Report = Report(anomalies: seq<Anomaly>, values: map<string, set<string>>)

  /** How the loop treats one field value: the anomaly it raises and what
      it contributes. The properties of the loop hold for any rules; the
      script's are `ScriptRules`. */
  datatype Rules = Rules(issue: Value -> Option<Issue>, contribution: Value -> Option<set<string>>)

  /** The script's classification of field values. */
  const ScriptRules := Rules(FieldIssue, Contribution)

  /** One (book, field) step of the loop. */
  function Step(r: Report, i: nat, field: string, value: Value, rules: Rules): Report {
    var issue := rules.issue(value);
    var c := rules.contribution(value);
    Report(
      r.anomalies + (if issue.Some? then [Anomaly(i, field, issue.value)] else []),
      if c.Some? then r.values[field := (if field in r.values then r.values[field] else {}) + c.value] else r.values)
  }

  /** The inner loop over the fields of book `i`. */
  function ScanFields(r: Report, i: nat, book: Object, fields: seq<string>, rules: Rules): Report {
    if fields == [] then r
    else
      var f := fields[|fields| - 1];
      Step(ScanFields(r, i, book, fields[..|fields| - 1], rules), i, f, Get(book, f), rules)
  }

  /** The outer loop over the catalog, inspecting `fields` of each book. */
  function ScanOver(books: seq<Object>, fields: seq<string>, rules: Rules): Report
  {
    if books == [] then Report([], map[])
    else ScanFields(ScanOver(books[..|books| - 1], fields, rules), |books| - 1, books[|books| - 1], fields, rules)
  }

  /** The script's loop, over the eight inspected fields. */
  function Scan(books: seq<Object>): Report {
    ScanOver(books, Fields, ScriptRules)
  }

  // ---------------------------------------------------------------------
  // Properties of the loop
  // ---------------------------------------------------------------------

  /** Scanning book `i` appends exactly its anomalies, in field order, and
      touches only the fields it scans. */
  lemma {:induction false} ScanFieldsFacts(r: Report, i: nat, book: Object, fields: seq<string>, rules: Rules)
    ensures var s := ScanFields(r, i, book, fields, rules);
      && r.anomalies <= s.anomalies
      && (forall a :: a in s.anomalies[|r.anomalies|..] <==>
            a.book == i && a.field in fields && rules.issue(Get(book, a.field)) == Some(a.issue))
      && |s.anomalies| - |r.anomalies| <= |fields|
    decreases |fields|
  {
    if fields != [] {
      var init, f := fields[..|fields| - 1], fields[|fields| - 1];
      ScanFieldsFacts(r, i, book, init, rules);
      var s0 := ScanFields(r, i, book, init, rules);
      var s := ScanFields(r, i, book, fields, rules);
      assert s.anomalies[|r.anomalies|..] == s0.anomalies[|r.anomalies|..] + s.anomalies[|s0.anomalies|..];
      assert forall g :: g in fields <==> g in init || g == f;
    }
  }

  /** The report lists exactly one anomaly for each (book, field) pair
      whose value raises one, and nothing else. */
  lemma ScanAnomalies(books: seq<Object>)
    ensures forall a :: a in Scan(books).anomalies <==>
      a.book < |books| && a.field in Fields && FieldIssue(Get(books[a.book], a.field)) == Some(a.issue)
    ensures |Scan(books).anomalies| <= |books| * |Fields|
  {
    ScanOverAnomalies(books, Fields, ScriptRules);
  }

  /** `ScanAnomalies`, for any inspected fields and rules. */
  lemma ScanOverAnomalies(books: seq<Object>, fields: seq<string>, rules: Rules)
    ensures forall a :: a in ScanOver(books, fields, rules).anomalies <==>
      a.book < |books| && a.field in fields && rules.issue(Get(books[a.book], a.field)) == Some(a.issue)
    ensures |ScanOver(books, fields, rules).anomalies| <= |books| * |fields|
  {
    ScanOverMembers(books, fields, rules);
    ScanOverBound(books, fields, rules);
  }

  lemma {:induction false} ScanOverMembers(books: seq<Object>, fields: seq<string>, rules: Rules)
    ensures forall a :: a in ScanOver(books, fields, rules).anomalies <==>
      a.book < |books| && a.field in fields && rules.issue(Get(books[a.book], a.field)) == Some(a.issue)
    decreases |books|
  {
    if books != [] {
      var init := books[..|books| - 1];
      var last := |books| - 1;
      ScanOverMembers(init, fields, rules);
      var r0 := ScanOver(init, fields, rules);
      ScanFieldsFacts(r0, last, books[last], fields, rules);
      var s := ScanOver(books, fields, rules);
      assert s.anomalies == r0.anomalies + s.anomalies[|r0.anomalies|..];
      forall a ensures a in s.anomalies <==>
        a.book < |books| && a.field in fields && rules.issue(Get(books[a.book], a.field)) == Some(a.issue)
      {
        if a.book < last {
          assert init[a.book] == books[a.book];
        }
      }
    }
  }

  /** Each book adds at most one anomaly per inspected field. */
  lemma {:induction false} ScanOverBound(books: seq<Object>, fields: seq<string>, rules: Rules)
    ensures |ScanOver(books, fields, rules).anomalies| <= |books| * |fields|
    decreases |books|
  {
    if books != [] {
      var init := books[..|books| - 1];
      var last := |books| - 1;
      ScanOverBound(init, fields, rules);
      var r0 := ScanOver(init, fields, rules);
      ScanFieldsFacts(r0, last, books[last], fields, rules);
      assert |ScanOver(books, fields, rules).anomalies| <= |r0.anomalies| + |fields|;
      assert last * |fields| + |fields| == (last + 1) * |fields|;
    }
  }

  /** Anomalies come in book order, and within a book in field order: no
      (book, field) pair is reported twice. */
  predicate InReportOrder(anomalies: seq<Anomaly>) {
    InOrderBy(anomalies, FieldRank)
  }

  /** Anomalies come in book order, and within a book in the order `rank`
      gives the fields. */
  predicate InOrderBy(anomalies: seq<Anomaly>, rank: string -> nat) {
    forall j, k :: 0 <= j < k < |anomalies| ==>
      anomalies[j].book < anomalies[k].book
      || (anomalies[j].book == anomalies[k].book && rank(anomalies[j].field) < rank(anomalies[k].field))
  }

  /** The position of a field in the inspected list, or 8. */
  function FieldRank(f: string): (k: nat)
    ensures k <= |Fields|
    ensures k < |Fields| ==> Fields[k] == f
    ensures k == |Fields| <==> f !in Fields
  {
    if f == "genres" then 0 else if f == "subgenres" then 1 else if f == "themes" then 2
    else if f == "emotion_tags" then 3 else if f == "tone" then 4 else if f == "style" then 5
    else if f == "age_range" then 6 else if f == "language" then 7 else 8
  }

  /** `rank` gives each field of the list its position. */
  predicate Ranks(rank: string -> nat, fields: seq<string>) {
    forall k :: 0 <= k < |fields| ==> rank(fields[k]) == k
  }

  /** Each inspected field's rank is its position. */
  lemma FieldsRanked()
    ensures Ranks(FieldRank, Fields)
  {
  }

  /** Scanning the fields of book `i` appends anomalies for that book in
      field order. */
  lemma {:induction false} ScanFieldsOrder(r: Report, i: nat, book: Object, fields: seq<string>, rank: string -> nat, rules: Rules)
    requires Ranks(rank, fields)
    requires InOrderBy(r.anomalies, rank)
    requires forall j :: 0 <= j < |r.anomalies| ==> r.anomalies[j].book < i
    ensures var s := ScanFields(r, i, book, fields, rules);
      && InOrderBy(s.anomalies, rank)
      && (forall j :: 0 <= j < |s.anomalies| ==> s.anomalies[j].book <= i)
      && (forall j :: |r.anomalies| <= j < |s.anomalies| ==> s.anomalies[j].book == i && rank(s.anomalies[j].field) < |fields|)
      && r.anomalies <= s.anomalies
    decreases |fields|
  {
    if fields != [] {
      var init := fields[..|fields| - 1];
      assert Ranks(rank, init) by {
        assert forall k :: 0 <= k < |init| ==> init[k] == fields[k];
      }
      ScanFieldsOrder(r, i, book, init, rank, rules);
    }
  }

  /** The report is in book order, then field order. */
  lemma ScanOrder(books: seq<Object>)
    ensures InReportOrder(Scan(books).anomalies)
    ensures forall j :: 0 <= j < |Scan(books).anomalies| ==> Scan(books).anomalies[j].book < |books|
  {
    FieldsRanked();
    ScanOverOrder(books, Fields, FieldRank, ScriptRules);
  }

  /** `ScanOrder`, for any ranked fields and any rules. */
  lemma {:induction false} ScanOverOrder(books: seq<Object>, fields: seq<string>, rank: string -> nat, rules: Rules)
    requires Ranks(rank, fields)
    ensures InOrderBy(ScanOver(books, fields, rules).anomalies, rank)
    ensures forall j :: 0 <= j < |ScanOver(books, fields, rules).anomalies| ==> ScanOver(books, fields, rules).anomalies[j].book < |books|
    decreases |books|
  {
    if books != [] {
      ScanOverOrder(books[..|books| - 1], fields, rank, rules);
      ScanFieldsOrder(ScanOver(books[..|books| - 1], fields, rules), |books| - 1, books[|books| - 1], fields, rank, rules);
    }
  }

  /** Scanning the fields of one book gives an entry to the fields it
      contributes to and leaves the other fields alone. */
  lemma {:induction false} ScanFieldsKeys(r: Report, i: nat, book: Object, fields: seq<string>, rules: Rules)
    ensures forall f :: f in ScanFields(r, i, book, fields, rules).values <==>
      f in r.values || (f in fields && rules.contribution(Get(book, f)).Some?)
    decreases |fields|
  {
    if fields != [] {
      ScanFieldsKeys(r, i, book, fields[..|fields| - 1], rules);
      assert forall g :: g in fields <==> g in fields[..|fields| - 1] || g == fields[|fields| - 1];
    }
  }

  /** Scanning the fields of one book adds its contributions to the values
      of the fields it scans. */
  lemma {:induction false} ScanFieldsValues(r: Report, i: nat, book: Object, fields: seq<string>, rules: Rules)
    ensures var s := ScanFields(r, i, book, fields, rules);
      forall f, x :: f in s.values ==> (x in s.values[f] <==>
        (f in r.values && x in r.values[f])
        || (f in fields && rules.contribution(Get(book, f)).Some? && x in rules.contribution(Get(book, f)).value))
    decreases |fields|
  {
    if fields != [] {
      ScanFieldsValues(r, i, book, fields[..|fields| - 1], rules);
      ScanFieldsKeys(r, i, book, fields[..|fields| - 1], rules);
      assert forall g :: g in fields <==> g in fields[..|fields| - 1] || g == fields[|fields| - 1];
    }
  }

  /** Some entry of `xs` satisfies `p`. */
  predicate Any<T>(xs: seq<T>, p: T -> bool) {
    exists i :: 0 <= i < |xs| && p(xs[i])
  }

  /** Whether some entry satisfies `p`, entry by entry. */
  lemma AnySnoc<T>(xs: seq<T>, p: T -> bool)
    requires xs != []
    ensures Any(xs, p) <==> Any(xs[..|xs| - 1], p) || p(xs[|xs| - 1])
  {
    var init := xs[..|xs| - 1];
    if Any(xs, p) {
      var i :| 0 <= i < |xs| && p(xs[i]);
      if i < |init| {
        assert init[i] == xs[i];
      }
    }
    if Any(init, p) {
      var i :| 0 <= i < |init| && p(init[i]);
      assert init[i] == xs[i];
    }
  }

  /** The book contributes to field `f`. */
  function TouchesField(rules: Rules, f: string): Object -> bool {
    b => rules.contribution(Get(b, f)).Some?
  }

  /** The book contributes `x` to field `f`. */
  function ContributesTo(rules: Rules, f: string, x: string): Object -> bool {
    b => rules.contribution(Get(b, f)).Some? && x in rules.contribution(Get(b, f)).value
  }

  /** Some book contributes to field `f`. */
  predicate Touched(books: seq<Object>, rules: Rules, f: string) {
    Any(books, TouchesField(rules, f))
  }

  /** Some book contributes `x` to field `f`. */
  predicate Contributed(books: seq<Object>, rules: Rules, f: string, x: string) {
    Any(books, ContributesTo(rules, f, x))
  }

  /** A book that contributes a value to a field touches that field. */
  lemma ContributedTouched(books: seq<Object>, rules: Rules, f: string, x: string)
    ensures Contributed(books, rules, f, x) ==> Touched(books, rules, f)
  {
    if Contributed(books, rules, f, x) {
      var i :| 0 <= i < |books| && ContributesTo(rules, f, x)(books[i]);
      assert TouchesField(rules, f)(books[i]);
    }
  }

  /** The collected values of a field are exactly the contributions of
      that field's values over all books, and a field has an entry exactly
      when some book contributed to it (possibly nothing, from an empty
      list). */
  lemma ScanValues(books: seq<Object>)
    ensures forall f :: f in Scan(books).values <==> f in Fields && Touched(books, ScriptRules, f)
    ensures forall f, x :: f in Scan(books).values ==>
      (x in Scan(books).values[f] <==> Contributed(books, ScriptRules, f, x))
  {
    ScanKeys(books, Fields, ScriptRules);
    ScanContents(books, Fields, ScriptRules);
  }

  /** The fields with collected values are those some book touched. */
  lemma {:induction false} ScanKeys(books: seq<Object>, fields: seq<string>, rules: Rules)
    ensures forall f :: f in ScanOver(books, fields, rules).values <==> f in fields && Touched(books, rules, f)
    decreases |books|
  {
    if books != [] {
      var init, last := books[..|books| - 1], books[|books| - 1];
      ScanKeys(init, fields, rules);
      ScanFieldsKeys(ScanOver(init, fields, rules), |books| - 1, last, fields, rules);
      forall f ensures f in ScanOver(books, fields, rules).values <==> f in fields && Touched(books, rules, f) {
        AnySnoc(books, TouchesField(rules, f));
      }
    }
  }

  /** The values collected for a field are those some book contributed. */
  lemma {:induction false} ScanContents(books: seq<Object>, fields: seq<string>, rules: Rules)
    ensures forall f, x :: f in ScanOver(books, fields, rules).values ==>
      (x in ScanOver(books, fields, rules).values[f] <==> Contributed(books, rules, f, x))
    decreases |books|
  {
    if books != [] {
      var init, last := books[..|books| - 1], books[|books| - 1];
      ScanContents(init, fields, rules);
      ScanKeys(init, fields, rules);
      ScanFieldsValues(ScanOver(init, fields, rules), |books| - 1, last, fields, rules);
      ScanFieldsKeys(ScanOver(init, fields, rules), |books| - 1, last, fields, rules);
      forall f, x | f in ScanOver(books, fields, rules).values
        ensures x in ScanOver(books, fields, rules).values[f] <==> Contributed(books, rules, f, x)
      {
        AnySnoc(books, ContributesTo(rules, f, x));
        ContributedTouched(init, rules, f, x);
      }
    }
  }

  /** Only normal forms are ever collected. */
  lemma CollectedAreNormal(books: seq<Object>)
    ensures forall f, x :: f in Scan(books).values && x in Scan(books).values[f] ==> IsNormalForm(x)
  {
    ScanValues(books);
    forall f, x | f in Scan(books).values && x in Scan(books).values[f] ensures IsNormalForm(x) {
      var i :| 0 <= i < |books| && ContributesTo(ScriptRules, f, x)(books[i]);
      assert x in Contribution(Get(books[i], f)).value;
    }
  }
}
