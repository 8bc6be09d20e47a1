/** The deduplication script: flatten the catalog one level, then keep the
    first dictionary for each (title, author) key whose two parts are both
    non-empty once cleaned. */
module Dedup {
  import opened Seqs
  import opened Catalog
  import opened Admission

  /** An entry the loop may keep: a dictionary whose cleaned title and
      author are both non-empty. */
  predicate IsComplete(v: Value) {
    v.VDict? && KeyOf(v).title != "" && KeyOf(v).author != ""
  }

  /** The entries the loop considers, in catalog order. */
  function Entries(raw: seq<Value>): seq<Value> {
    Filter(Flatten(raw), IsComplete)
  }

  /** The catalog without duplicates, as a function of the parsed file. */
  function Deduplicate(raw: seq<Value>): seq<Value> {
    Admit(Entries(raw), KeyOf, {})
  }

  /** The flattening loop of the script. */
  method FlattenItems(raw: seq<Value>) returns (books: seq<Value>)
    ensures books == Flatten(raw)
  {
    books := [];
    for i := 0 to |raw|
      invariant books == Flatten(raw[..i])
    {
      assert raw[..i + 1][..i] == raw[..i];
      match raw[i]
      case VList(xs) => books := books + xs;
      case VDict(_) => books := books + [raw[i]];
      case _ =>
    }
    assert raw[..|raw|] == raw;
  }

  /** The first-occurrence loop of the script, with its set of seen
      keys, over the flattened list. */
  method KeepFirst(books: seq<Value>) returns (unique: seq<Value>)
    requires DictsKeyed(books)
    ensures unique == Admit(Filter(books, IsComplete), KeyOf, {})
  {
    unique := [];
    var seen: set<Key> := {};
    ghost var entries: seq<Value> := [];
    for i := 0 to |books|
      invariant entries == Filter(books[..i], IsComplete)
      invariant unique == Admit(entries, KeyOf, {})
      invariant seen == KeySet(unique, KeyOf)
    {
      var book := books[i];
      FilterStep(books, i, IsComplete);
      if book.VDict? {
        var key := KeyOf(book);
        if key.title != "" && key.author != "" {
          KeepFirstStep(entries, unique, seen, book);
          if key !in seen {
            unique := unique + [book];
            seen := seen + {key};
          }
          entries := entries + [book];
        }
      }
    }
    assert books[..|books|] == books;
  }

  /** One step of the first-occurrence loop, on the loop's state. */
  lemma KeepFirstStep(entries: seq<Value>, unique: seq<Value>, seen: set<Key>, book: Value)
    requires unique == Admit(entries, KeyOf, {}) && seen == KeySet(unique, KeyOf)
    ensures Admit(entries + [book], KeyOf, {}) == if KeyOf(book) in seen then unique else unique + [book]
    ensures KeySet(unique + [book], KeyOf) == seen + {KeyOf(book)}
  {
    AdmitSnoc(entries, book, KeyOf, {});
    KeySetConcat(unique, [book], KeyOf);
  }

  /** `eliminar_duplicados` on the parsed file: the flattening loop, then
      the first-occurrence loop. `before` is the size of the flattened list
      it reports. */
  method RemoveDuplicates(raw: seq<Value>) returns (before: nat, unique: seq<Value>)
    requires DictsKeyed(Flatten(raw))
    ensures before == |Flatten(raw)|
    ensures unique == Deduplicate(raw)
  {
    var books := FlattenItems(raw);
    unique := KeepFirst(books);
    before := |books|;
  }

  /** Deduplication keeps complete dictionaries of the flattened catalog,
      in their order. */
  lemma DeduplicateInOrder(raw: seq<Value>)
    ensures IsSubsequence(Deduplicate(raw), Flatten(raw))
    ensures forall v :: v in Deduplicate(raw) ==> v in Flatten(raw) && IsComplete(v)
  {
    var flat, entries, unique := Flatten(raw), Entries(raw), Deduplicate(raw);
    FilterIsSubsequence(flat, IsComplete);
    FilterMembers(flat, IsComplete);
    AdmitInOrder(entries, KeyOf, {});
    SubsequenceTrans(unique, entries, flat);
    SubsequenceBounds(unique, entries);
  }

  /** No two kept books share a key, and every key of a complete entry is
      the key of a kept book. */
  lemma DeduplicateKeys(raw: seq<Value>)
    ensures NoDuplicates(KeysOf(Deduplicate(raw), KeyOf))
    ensures forall v :: v in Flatten(raw) && IsComplete(v) ==> KeyOf(v) in KeySet(Deduplicate(raw), KeyOf)
  {
    var flat, entries := Flatten(raw), Entries(raw);
    FilterMembers(flat, IsComplete);
    AdmitFresh(entries, KeyOf, {});
    AdmitComplete(entries, KeyOf, {});
    assert forall v :: v in entries ==> KeyOf(v) in KeySet(entries, KeyOf);
  }

  /** For each key, the first complete entry carrying it is the one
      kept. */
  lemma DeduplicateKeepsFirst(raw: seq<Value>, i: nat)
    requires i < |Entries(raw)|
    requires forall j :: 0 <= j < i ==> KeyOf(Entries(raw)[j]) != KeyOf(Entries(raw)[i])
    ensures Entries(raw)[i] in Deduplicate(raw)
  {
    AdmitKeepsFirst(Entries(raw), KeyOf, {}, i);
  }
}
