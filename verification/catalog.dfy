/** The catalog as the offline scripts see it: a JSON document whose books
    are dictionaries. This module holds what several scripts share: the
    JSON values, the (title, author) key of a book, the one-level
    flattening of nested lists, and first-occurrence admission by key. */
module Catalog {
  import opened Unicode
  import opened Text
  import opened Seqs

  /** A JSON value as `json.load` returns it. Numbers and booleans are not
      told apart: no script looks inside them. */
  datatype Value =
    | VNone
    | VStr(s: string)
    | VList(items: seq<Value>)
    | VDict(fields: map<string, Value>)
    | VOther

  /** A JSON object: a book. */
  type Object = map<string, Value>

  /** `d.get(name)`: the field's value, or `None` when it is missing. */
  function Get(o: Object, name: string): (v: Value)
    ensures name !in o ==> v == VNone
  {
    if name in o then o[name] else VNone
  }

  // ---------------------------------------------------------------------
  // The (title, author) key
  // ---------------------------------------------------------------------

  /** `d.get(name, "")` can be stripped: the field is missing or a string.
      Any other value makes `.strip()` raise. */
  predicate TextOrMissing(o: Object, name: string) {
    name !in o || o[name].VStr?
  }

  /** `d.get(name, "")` for a field that is missing or a string. */
  function TextField(o: Object, name: string): (s: string)
    requires TextOrMissing(o, name)
    ensures name !in o ==> s == ""
  {
    if name in o then o[name].s else ""
  }

  /** `s.strip().lower()`. */
  function Clean(s: string): string {
    LowerStr(Strip(s))
  }

  /** Exactly the all-whitespace strings clean to "". */
  lemma CleanEmpty(s: string)
    ensures Clean(s) == "" <==> forall i :: 0 <= i < |s| ==> IsSpace(s[i])
  {
    StripIdentity(s);
  }

  /** A book's identity for deduplication: cleaned title and author. */
  datatype Key = Key(title: string, author: string)

  /** A dictionary whose key can be computed without raising. */
  predicate IsKeyed(v: Value) {
    v.VDict? && TextOrMissing(v.fields, "title") && TextOrMissing(v.fields, "author")
  }

  /** Every entry of the list is a dictionary with a computable key. */
  predicate AllKeyed(xs: seq<Value>) {
    forall i :: 0 <= i < |xs| ==> IsKeyed(xs[i])
  }

  /** `(d.get("title", "").strip().lower(), d.get("author", "").strip().lower())`
      for a keyed dictionary. The scripts never compute the key of anything
      else (they raise first), so other values get a placeholder. */
  function KeyOf(v: Value): (k: Key)
    ensures IsKeyed(v) && "title" !in v.fields ==> k.title == ""
    ensures IsKeyed(v) && "author" !in v.fields ==> k.author == ""
  {
    if IsKeyed(v) then Key(Clean(TextField(v.fields, "title")), Clean(TextField(v.fields, "author")))
    else Key("", "")
  }

  /** Every dictionary of the list has a computable key; other entries are
      skipped by the scripts before a key is asked of them. */
  predicate DictsKeyed(xs: seq<Value>) {
    forall i :: 0 <= i < |xs| && xs[i].VDict? ==> IsKeyed(xs[i])
  }

  /** The keys of the dictionaries of a list. */
  function DictKeys(xs: seq<Value>): set<Key> {
    set v | v in xs && v.VDict? :: KeyOf(v)
  }

  // ---------------------------------------------------------------------
  // Flattening
  // ---------------------------------------------------------------------

  /** What one top-level item contributes to the flattened list: a list
      is spliced in one level deep, a dictionary kept, anything else
      dropped. */
  function Spliced(item: Value): seq<Value> {
    match item
    case VList(xs) => xs
    case VDict(_) => [item]
    case _ => []
  }

  /** The flattening loop over the top-level items. */
  function Flatten(items: seq<Value>): (r: seq<Value>)
  {
    if items == [] then []
    else Flatten(items[..|items| - 1]) + Spliced(items[|items| - 1])
  }

  /** Flattening works item by item. */
  lemma {:induction false} FlattenConcat(a: seq<Value>, b: seq<Value>)
    ensures Flatten(a + b) == Flatten(a) + Flatten(b)
    decreases |b|
  {
    if b == [] {
      assert a + b == a;
    } else {
      var bInit, last := b[..|b| - 1], b[|b| - 1];
      FlattenConcat(a, bInit);
      assert b == bInit + [last];
      AppendAssoc(a, bInit, [last]);
      FlattenSnoc(a + bInit, last);
      FlattenSnoc(bInit, last);
      AppendAssoc(Flatten(a), Flatten(bInit), Spliced(last));
    }
  }

  /** Flattening one more item appends what it contributes. */
  lemma FlattenSnoc(items: seq<Value>, item: Value)
    ensures Flatten(items + [item]) == Flatten(items) + Spliced(item)
  {
    var s := items + [item];
    assert s[..|s| - 1] == items && s[|s| - 1] == item;
  }

  /** An entry of the flattened list is a top-level dictionary or an
      element of a top-level list, and each of those is in it. */
  lemma {:induction false} FlattenMembers(items: seq<Value>)
    ensures forall v :: v in Flatten(items) <==>
      (v.VDict? && v in items) || (exists i :: 0 <= i < |items| && items[i].VList? && v in items[i].items)
    decreases |items|
  {
    if items != [] {
      var init, last := items[..|items| - 1], items[|items| - 1];
      FlattenMembers(init);
      assert items == init + [last];
      assert Flatten(items) == Flatten(init) + Spliced(last);
      forall v ensures v in Flatten(items) <==>
        (v.VDict? && v in items) || (exists i :: 0 <= i < |items| && items[i].VList? && v in items[i].items)
      {
        if exists i :: 0 <= i < |items| && items[i].VList? && v in items[i].items {
          var i :| 0 <= i < |items| && items[i].VList? && v in items[i].items;
          if i < |init| {
            assert init[i] == items[i];
          }
        }
        if exists i :: 0 <= i < |init| && init[i].VList? && v in init[i].items {
          var i :| 0 <= i < |init| && init[i].VList? && v in init[i].items;
          assert items[i] == init[i];
        }
      }
    }
  }

  /** Flattening keeps every top-level dictionary. */
  lemma FlattenKeepsDicts(items: seq<Value>)
    ensures forall v :: v in items && v.VDict? ==> v in Flatten(items)
  {
    FlattenMembers(items);
  }

  /** A list with no nested list is flattened to its dictionaries; one
      made only of dictionaries is its own flattening. */
  lemma {:induction false} FlattenFlat(items: seq<Value>)
    requires forall i :: 0 <= i < |items| ==> items[i].VDict?
    ensures Flatten(items) == items
    decreases |items|
  {
    if items != [] {
      var init, last := items[..|items| - 1], items[|items| - 1];
      FlattenFlat(init);
      assert Spliced(last) == [last];
      assert Flatten(items) == init + [last];
      assert items == init + [last];
    }
  }
}
