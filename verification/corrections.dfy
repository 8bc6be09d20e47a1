/** `apply_field_corrections.py`: a table lists, per field, the corrected
    spellings of its values. Every value a book holds in that field and
    that differs from a corrected spelling only by case folding is
    rewritten to it. A rewritten list is stored sorted and without
    duplicates, and each field counts the books it modified. */
module FieldCorrections {
  import opened Wrappers
  import opened Text
  import opened Seqs
  import opened Catalog
  import GenreCleaning

  // ---------------------------------------------------------------------
  // `sorted(set(xs))` on strings
  // ---------------------------------------------------------------------

  /** Python's `a < b` on `str`: lexicographic by code point, with a
      proper prefix first. */
  predicate Precedes(a: string, b: string) {
    if a == [] then b != []
    else if b == [] then false
    else if a[0] != b[0] then a[0] < b[0]
    else Precedes(a[1..], b[1..])
  }

  /** The order is strict and total: of two different strings exactly one
      comes first. */
  lemma {:induction false} PrecedesStrictTotal(a: string, b: string)
    ensures !(Precedes(a, b) && Precedes(b, a))
    ensures a != b ==> Precedes(a, b) || Precedes(b, a)
    ensures !Precedes(a, a)
    decreases |a|
  {
    if a != [] && b != [] && a[0] == b[0] {
      PrecedesStrictTotal(a[1..], b[1..]);
      if a != b {
        assert a == [a[0]] + a[1..] && b == [b[0]] + b[1..];
      }
    }
    if a != [] {
      PrecedesStrictTotal(a[1..], a[1..]);
    }
  }

  /** The order is transitive. */
  lemma {:induction false} PrecedesTrans(a: string, b: string, c: string)
    requires Precedes(a, b) && Precedes(b, c)
    ensures Precedes(a, c)
    decreases |a|
  {
    if a != [] && a[0] == b[0] && b[0] == c[0] {
      PrecedesTrans(a[1..], b[1..], c[1..]);
    }
  }

  /** Every entry comes before every later one. */
  predicate StrictlySorted(xs: seq<string>) {
    forall i, j :: 0 <= i < j < |xs| ==> Precedes(xs[i], xs[j])
  }

  /** A strictly sorted list has no duplicates. */
  lemma SortedIsDistinct(xs: seq<string>)
    requires StrictlySorted(xs)
    ensures NoDuplicates(xs)
  {
    forall i, j | 0 <= i < j < |xs| ensures xs[i] != xs[j] {
      PrecedesStrictTotal(xs[i], xs[j]);
    }
  }

  /** `x` put in its place in a strictly sorted list, unless it is there
      already. */
  function Insert(x: string, xs: seq<string>): (r: seq<string>)
    ensures ToSet(r) == ToSet(xs) + {x}
  {
    if xs == [] then [x]
    else if x == xs[0] then xs
    else if Precedes(x, xs[0]) then [x] + xs
    else
      var r := [xs[0]] + Insert(x, xs[1..]);
      assert xs == [xs[0]] + xs[1..];
      ToSetConcat([xs[0]], Insert(x, xs[1..]));
      ToSetConcat([xs[0]], xs[1..]);
      r
  }

  /** Every entry of `xs` comes after `y`. */
  predicate Above(y: string, xs: seq<string>) {
    forall k :: 0 <= k < |xs| ==> Precedes(y, xs[k])
  }

  /** A sorted list stays sorted under a smaller head. */
  lemma ConsSorted(y: string, xs: seq<string>)
    requires StrictlySorted(xs) && Above(y, xs)
    ensures StrictlySorted([y] + xs)
  {
    var r := [y] + xs;
    forall i, j | 0 <= i < j < |r| ensures Precedes(r[i], r[j]) {
      if i == 0 {
        assert r[j] == xs[j - 1];
      } else {
        assert r[i] == xs[i - 1] && r[j] == xs[j - 1];
      }
    }
  }

  /** Insertion keeps every entry above a common bound. */
  lemma InsertAbove(y: string, x: string, xs: seq<string>)
    requires Above(y, xs) && Precedes(y, x)
    ensures Above(y, Insert(x, xs))
  {
    var r := Insert(x, xs);
    forall k | 0 <= k < |r| ensures Precedes(y, r[k]) {
      assert r[k] in ToSet(r);
      if r[k] != x {
        var i :| 0 <= i < |xs| && xs[i] == r[k];
      }
    }
  }

  /** Insertion keeps a list strictly sorted. */
  lemma {:induction false} InsertSorted(x: string, xs: seq<string>)
    requires StrictlySorted(xs)
    ensures StrictlySorted(Insert(x, xs))
    decreases |xs|
  {
    if xs != [] && x != xs[0] {
      if Precedes(x, xs[0]) {
        forall k | 0 <= k < |xs| ensures Precedes(x, xs[k]) {
          if k > 0 {
            PrecedesTrans(x, xs[0], xs[k]);
          }
        }
        ConsSorted(x, xs);
      } else {
        PrecedesStrictTotal(x, xs[0]);
        var tail := xs[1..];
        InsertSorted(x, tail);
        assert Above(xs[0], tail) by {
          forall k | 0 <= k < |tail| ensures Precedes(xs[0], tail[k]) {
            assert tail[k] == xs[k + 1];
          }
        }
        InsertAbove(xs[0], x, tail);
        ConsSorted(xs[0], Insert(x, tail));
      }
    }
  }

  /** `sorted(set(xs))`. */
  function SortUnique(xs: seq<string>): (r: seq<string>)
    ensures ToSet(r) == ToSet(xs)
  {
    if xs == [] then []
    else
      var init := xs[..|xs| - 1];
      assert xs == init + [xs[|xs| - 1]];
      ToSetConcat(init, [xs[|xs| - 1]]);
      Insert(xs[|xs| - 1], SortUnique(init))
  }

  /** The result is strictly sorted. */
  lemma {:induction false} SortUniqueSorted(xs: seq<string>)
    ensures StrictlySorted(SortUnique(xs))
    decreases |xs|
  {
    if xs != [] {
      SortUniqueSorted(xs[..|xs| - 1]);
      InsertSorted(xs[|xs| - 1], SortUnique(xs[..|xs| - 1]));
    }
  }

  /** A strictly sorted list is determined by its elements, so
      `SortUnique(xs)` is the only strictly sorted list holding exactly the
      elements of `xs`. */
  lemma {:induction false} SortedByElements(a: seq<string>, b: seq<string>)
    requires StrictlySorted(a) && StrictlySorted(b)
    requires ToSet(a) == ToSet(b)
    ensures a == b
    decreases |a|
  {
    if b != [] {
      assert b[0] in ToSet(a);
    }
    if a != [] {
      assert a[0] in ToSet(b);
      assert b != [] && b[0] in ToSet(a);
      var j :| 0 <= j < |b| && b[j] == a[0];
      var k :| 0 <= k < |a| && a[k] == b[0];
      PrecedesStrictTotal(a[0], b[0]);
      assert j == 0 || k == 0;
      assert a[0] == b[0];
      SortedIsDistinct(a);
      SortedIsDistinct(b);
      assert a == [a[0]] + a[1..] && b == [b[0]] + b[1..];
      ToSetConcat([a[0]], a[1..]);
      ToSetConcat([b[0]], b[1..]);
      assert ToSet(a[1..]) == ToSet(a) - {a[0]} by {
        forall k | 0 <= k < |a[1..]| ensures a[1..][k] != a[0] {
          assert a[1..][k] == a[k + 1];
        }
      }
      assert ToSet(b[1..]) == ToSet(b) - {b[0]} by {
        forall k | 0 <= k < |b[1..]| ensures b[1..][k] != b[0] {
          assert b[1..][k] == b[k + 1];
        }
      }
      SortedByElements(a[1..], b[1..]);
    }
  }

  // ---------------------------------------------------------------------
  // The reverse map of one field
  // ---------------------------------------------------------------------
  // The section is stated for any folding function `fold`; the script
  // folds with `str.casefold` (`CaseFoldStr`).

  /** `o != c and o.casefold() == c.casefold()`: `o` is another spelling
      of the corrected value `c`. */
  predicate IsVariant(o: string, c: string, fold: string -> string) {
    o != c && fold(o) == fold(c)
  }

  /** The last corrected value of which `o` is a variant, if any. */
  function LastVariant(o: string, cs: seq<string>, fold: string -> string): (r: Option<string>)
    ensures r.Some? ==> r.value in cs && IsVariant(o, r.value, fold)
    ensures r.None? <==> forall i :: 0 <= i < |cs| ==> !IsVariant(o, cs[i], fold)
  {
    if cs == [] then None
    else if IsVariant(o, cs[|cs| - 1], fold) then Some(cs[|cs| - 1])
    else LastVariant(o, cs[..|cs| - 1], fold)
  }

  /** The last variant wins: a corrected value of which `o` is a variant,
      followed by no other such value, is the one found. */
  lemma {:induction false} LastVariantIsLast(o: string, cs: seq<string>, fold: string -> string, k: nat)
    requires k < |cs| && IsVariant(o, cs[k], fold)
    requires forall j :: k < j < |cs| ==> !IsVariant(o, cs[j], fold)
    ensures LastVariant(o, cs, fold) == Some(cs[k])
    decreases |cs|
  {
    if k < |cs| - 1 {
      var init := cs[..|cs| - 1];
      assert init[k] == cs[k];
      assert forall j :: k < j < |init| ==> init[j] == cs[j];
      LastVariantIsLast(o, init, fold, k);
    }
  }

  /** The first loop: `reverse_map[field][c] = c` for each corrected value
      `c`, in order. */
  function SelfEntries(cs: seq<string>): map<string, string> {
    if cs == [] then map[]
    else SelfEntries(cs[..|cs| - 1])[cs[|cs| - 1] := cs[|cs| - 1]]
  }

  /** The inner loop for one original `o`: each corrected value of which it
      is a variant becomes its entry, so the last one stays. */
  function Remap(m: map<string, string>, o: string, cs: seq<string>, fold: string -> string): map<string, string> {
    if cs == [] then m
    else
      var before := Remap(m, o, cs[..|cs| - 1], fold);
      if IsVariant(o, cs[|cs| - 1], fold) then before[o := cs[|cs| - 1]] else before
  }

  /** The outer loop, over the originals enumerated as `os`. */
  function RemapAll(m: map<string, string>, os: seq<string>, cs: seq<string>, fold: string -> string): map<string, string> {
    if os == [] then m
    else Remap(RemapAll(m, os[..|os| - 1], cs, fold), os[|os| - 1], cs, fold)
  }

  /** `reverse_map[field]` as the two loops build it, with the set of
      originals enumerated in some order as `os`. */
  function BuildReverse(cs: seq<string>, os: seq<string>, fold: string -> string): map<string, string> {
    RemapAll(SelfEntries(cs), os, cs, fold)
  }

  /** The spelling `t` is corrected to: its last variant among the
      corrected values, or `t` itself when it has none. */
  function Corrected(t: string, cs: seq<string>, fold: string -> string): string {
    if LastVariant(t, cs, fold).Some? then LastVariant(t, cs, fold).value else t
  }

  /** The entry an original or corrected value `v` ends up with. */
  function EntryOf(v: string, cs: seq<string>, originals: set<string>, fold: string -> string): string {
    if v in originals then Corrected(v, cs, fold) else v
  }

  /** The reverse map described entry by entry: every corrected value is a
      key; an original that is a variant of some corrected value maps to the
      last such value, even when it is itself a corrected value; every other
      key maps to itself. */
  function ReverseMap(cs: seq<string>, originals: set<string>, fold: string -> string): (m: map<string, string>)
    ensures forall c :: c in cs ==> c in m
    ensures forall v :: v in m ==> m[v] in cs
    ensures forall v :: v in m ==> (m[v] == v <==> !(v in originals && LastVariant(v, cs, fold).Some?))
  {
    map v | v in ToSet(cs) + originals && (v in cs || LastVariant(v, cs, fold).Some?) :: EntryOf(v, cs, originals, fold)
  }

  /** The keys and entries of the reverse map. */
  lemma ReverseMapEntries(cs: seq<string>, originals: set<string>, fold: string -> string)
    ensures forall v :: v in ReverseMap(cs, originals, fold) <==>
      v in cs || (v in originals && LastVariant(v, cs, fold).Some?)
    ensures forall v :: v in ReverseMap(cs, originals, fold) ==>
      ReverseMap(cs, originals, fold)[v] == EntryOf(v, cs, originals, fold)
  {
  }

  /** The self entries map each corrected value to itself. */
  lemma {:induction false} SelfEntriesShape(cs: seq<string>)
    ensures SelfEntries(cs) == map c | c in ToSet(cs) :: c
    decreases |cs|
  {
    if cs != [] {
      var init := cs[..|cs| - 1];
      SelfEntriesShape(init);
      assert cs == init + [cs[|cs| - 1]];
      ToSetConcat(init, [cs[|cs| - 1]]);
    }
  }

  /** The inner loop sets the entry of `o` to its last variant, or leaves
      the map alone when it has none. */
  lemma {:induction false} RemapShape(m: map<string, string>, o: string, cs: seq<string>, fold: string -> string)
    ensures Remap(m, o, cs, fold) == if LastVariant(o, cs, fold).Some? then m[o := LastVariant(o, cs, fold).value] else m
    decreases |cs|
  {
    if cs != [] {
      var init := cs[..|cs| - 1];
      RemapShape(m, o, init, fold);
      if IsVariant(o, cs[|cs| - 1], fold) && LastVariant(o, init, fold).Some? {
        var c := cs[|cs| - 1];
        assert m[o := LastVariant(o, init, fold).value][o := c] == m[o := c];
      }
    }
  }

  /** The outer loop sets the entry of every enumerated original that has a
      variant, and nothing else. */
  lemma {:induction false} RemapAllShape(m: map<string, string>, os: seq<string>, cs: seq<string>, fold: string -> string)
    ensures forall k :: k in RemapAll(m, os, cs, fold) <==> k in m || (k in os && LastVariant(k, cs, fold).Some?)
    ensures forall k :: k in RemapAll(m, os, cs, fold) ==>
      RemapAll(m, os, cs, fold)[k] == if k in os && LastVariant(k, cs, fold).Some? then LastVariant(k, cs, fold).value else m[k]
    decreases |os|
  {
    if os != [] {
      var init := os[..|os| - 1];
      RemapAllShape(m, init, cs, fold);
      RemapShape(RemapAll(m, init, cs, fold), os[|os| - 1], cs, fold);
      assert forall k :: k in os <==> k in init || k == os[|os| - 1] by {
        assert os == init + [os[|os| - 1]];
      }
    }
  }

  /** The loops build the map described entry by entry, whatever order the
      set of originals is enumerated in. */
  lemma BuildReverseIsReverseMap(cs: seq<string>, os: seq<string>, fold: string -> string)
    ensures BuildReverse(cs, os, fold) == ReverseMap(cs, ToSet(os), fold)
  {
    var b, r := BuildReverse(cs, os, fold), ReverseMap(cs, ToSet(os), fold);
    forall k ensures (k in b <==> k in r) && (k in b ==> b[k] == r[k]) {
      BuildReverseAt(cs, os, fold, k);
    }
  }

  lemma BuildReverseAt(cs: seq<string>, os: seq<string>, fold: string -> string, k: string)
    ensures k in BuildReverse(cs, os, fold) <==> k in ReverseMap(cs, ToSet(os), fold)
    ensures k in BuildReverse(cs, os, fold) ==> BuildReverse(cs, os, fold)[k] == ReverseMap(cs, ToSet(os), fold)[k]
  {
    SelfEntriesShape(cs);
    RemapAllShape(SelfEntries(cs), os, cs, fold);
    ReverseMapEntries(cs, ToSet(os), fold);
    if !(k in os && LastVariant(k, cs, fold).Some?) && k in cs {
      assert k in SelfEntries(cs);
      assert SelfEntries(cs)[k] == k;
    }
  }

  /** `mapping.get(v, v)`. */
  function Lookup(m: map<string, string>, v: string): string {
    if v in m then m[v] else v
  }

  /** What a value is corrected to: an original that is a variant of some
      corrected value becomes the last such value; any other value, listed
      or not, passes through. */
  lemma CorrectedLookup(cs: seq<string>, originals: set<string>, v: string, fold: string -> string)
    ensures Lookup(ReverseMap(cs, originals, fold), v) ==
      if v in originals && LastVariant(v, cs, fold).Some? then LastVariant(v, cs, fold).value else v
  {
    ReverseMapEntries(cs, originals, fold);
  }

  // ---------------------------------------------------------------------
  // Applying the corrections
  // ---------------------------------------------------------------------

  /** A list whose entries are all strings. */
  predicate TextList(v: Value) {
    v.VList? ==> forall i :: 0 <= i < |v.items| ==> v.items[i].VStr?
  }

  /** A list whose entries `set.update` can hash. */
  predicate HashableList(v: Value) {
    v.VList? ==> forall i :: 0 <= i < |v.items| ==> !v.items[i].VList? && !v.items[i].VDict?
  }

  /** The texts of a list of strings. */
  function Texts(items: seq<Value>): (ts: seq<string>)
    requires forall i :: 0 <= i < |items| ==> items[i].VStr?
    ensures |ts| == |items|
    ensures forall i :: 0 <= i < |ts| ==> items[i] == VStr(ts[i])
  {
    if items == [] then [] else Texts(items[..|items| - 1]) + [items[|items| - 1].s]
  }

  /** The strings a field holds: a list's entries, or the string itself. */
  function FieldTexts(v: Value): seq<string>
    requires TextList(v)
  {
    match v
    case VList(items) => Texts(items)
    case VStr(s) => [s]
    case _ => []
  }

  /** `originals`: every string some book holds in field `f`. */
  function Originals(books: seq<Object>, f: string): set<string>
    requires forall i :: 0 <= i < |books| ==> TextList(Get(books[i], f))
  {
    if books == [] then {}
    else Originals(books[..|books| - 1], f) + ToSet(FieldTexts(Get(books[|books| - 1], f)))
  }

  /** Every string a book holds in field `f` is an original. */
  lemma {:induction false} OriginalsHold(books: seq<Object>, f: string, i: nat)
    requires forall i :: 0 <= i < |books| ==> TextList(Get(books[i], f))
    requires i < |books|
    ensures ToSet(FieldTexts(Get(books[i], f))) <= Originals(books, f)
    decreases |books|
  {
    if i < |books| - 1 {
      OriginalsHold(books[..|books| - 1], f, i);
    }
  }

  /** What the script needs of its input for every field of the table:
      with corrected values, `casefold` and `sorted` need every list entry
      to be a string; with none, `set.update` still needs them hashable. */
  predicate Correctable(books: seq<Object>, table: map<string, seq<string>>) {
    forall i, f :: 0 <= i < |books| && f in table ==>
      if table[f] == [] then HashableList(Get(books[i], f)) else TextList(Get(books[i], f))
  }

  /** `reverse_map`: an entry for each field with at least one corrected
      value (the `defaultdict` creates no other). */
  function ReverseMaps(books: seq<Object>, table: map<string, seq<string>>, fold: string -> string): (rev: map<string, map<string, string>>)
    requires Correctable(books, table)
    ensures forall f :: f in rev <==> f in table && table[f] != []
  {
    map f | f in table && table[f] != [] :: ReverseMap(table[f], Originals(books, f), fold)
  }

  /** `mapping.get(v, v)` as a function on strings. */
  function Corrector(m: map<string, string>): string -> string {
    v => Lookup(m, v)
  }

  /** The script's test for rewriting a field: the mapped list differs from
      the original list, or the mapped string from the original string. */
  predicate Modifies(v: Value, m: map<string, string>)
    requires TextList(v)
  {
    match v
    case VList(items) => Map(Texts(items), Corrector(m)) != Texts(items)
    case VStr(s) => Lookup(m, s) != s
    case _ => false
  }

  /** `sorted(set(new_values))` stored back as a list. */
  function SortedList(mapped: seq<string>): (r: Value)
    ensures r.VList? && TextList(r)
    ensures StrictlySorted(Texts(r.items)) && ToSet(Texts(r.items)) == ToSet(mapped)
  {
    var sorted := SortUnique(mapped);
    SortUniqueSorted(mapped);
    TextsOfStrings(sorted);
    VList(GenreCleaning.Strings(sorted))
  }

  /** The field's value after its turn: a modified list becomes its sorted,
      deduplicated mapped values; a modified string its mapped value;
      anything else is kept. */
  function CorrectValue(v: Value, m: map<string, string>): (r: Value)
    requires TextList(v)
    ensures !Modifies(v, m) ==> r == v
    ensures Modifies(v, m) && v.VStr? ==> r == VStr(Lookup(m, v.s)) && r != v
    ensures Modifies(v, m) && v.VList? ==> r == SortedList(Map(Texts(v.items), Corrector(m)))
  {
    match v
    case VList(items) =>
      var mapped := Map(Texts(items), Corrector(m));
      if mapped != Texts(items) then SortedList(mapped) else v
    case VStr(s) => if Lookup(m, s) != s then VStr(Lookup(m, s)) else v
    case _ => v
  }

  /** Strings read back as the texts they hold. */
  lemma TextsOfStrings(xs: seq<string>)
    ensures var vs := GenreCleaning.Strings(xs);
      (forall i :: 0 <= i < |vs| ==> vs[i].VStr?) && Texts(vs) == xs
  {
    var vs := GenreCleaning.Strings(xs);
    forall i | 0 <= i < |xs| ensures vs[i] == VStr(xs[i]) {
      MapAt(xs, (x: string) => VStr(x), i);
    }
  }

  /** Every field with an entry in `rev` holds strings or no list. */
  predicate Applicable(books: seq<Object>, rev: map<string, map<string, string>>) {
    forall i, f :: 0 <= i < |books| && f in rev ==> TextList(Get(books[i], f))
  }

  /** `corrected_book` after the loop over `reverse_map`: each turn reads and
      writes only its own field, so the fields are corrected independently. */
  function CorrectBook(book: Object, rev: map<string, map<string, string>>): (r: Object)
    requires forall f :: f in rev ==> TextList(Get(book, f))
    ensures r.Keys == book.Keys
    ensures forall f :: f in book && f !in rev ==> r[f] == book[f]
    ensures forall f :: f in book && f in rev ==> r[f] == CorrectValue(Get(book, f), rev[f])
  {
    map f | f in book :: if f in rev then CorrectValue(Get(book, f), rev[f]) else book[f]
  }

  /** `corrected_books`. */
  function CorrectBooks(books: seq<Object>, rev: map<string, map<string, string>>): (r: seq<Object>)
    requires Applicable(books, rev)
    ensures |r| == |books|
    ensures forall i :: 0 <= i < |r| ==> r[i] == CorrectBook(books[i], rev)
  {
    if books == [] then []
    else
      var init := books[..|books| - 1];
      assert forall i :: 0 <= i < |init| ==> init[i] == books[i];
      CorrectBooks(init, rev) + [CorrectBook(books[|books| - 1], rev)]
  }

  /** `modification_count[field]`: the books whose field `f` was rewritten,
      one count per book. */
  function ModifiedCount(books: seq<Object>, f: string, m: map<string, string>): (n: nat)
    requires forall i :: 0 <= i < |books| ==> TextList(Get(books[i], f))
    ensures n <= |books|
    ensures n == 0 <==> forall i :: 0 <= i < |books| ==> !Modifies(Get(books[i], f), m)
  {
    if books == [] then 0
    else
      var init := books[..|books| - 1];
      assert forall i :: 0 <= i < |init| ==> init[i] == books[i];
      ModifiedCount(init, f, m) + (if Modifies(Get(books[|books| - 1], f), m) then 1 else 0)
  }

  /** `modification_count`: the `defaultdict` holds a field once it has
      modified a book. */
  function Counts(books: seq<Object>, rev: map<string, map<string, string>>): (counts: map<string, nat>)
    requires Applicable(books, rev)
    ensures forall f :: f in counts <==> f in rev && ModifiedCount(books, f, rev[f]) > 0
    ensures forall f :: f in counts ==> counts[f] == ModifiedCount(books, f, rev[f])
  {
    map f | f in rev && ModifiedCount(books, f, rev[f]) > 0 :: ModifiedCount(books, f, rev[f])
  }

  /** The corrected books and, for each field that modified some book, the
      number of books it modified. */
  datatype Correction = Correction(books: seq<Object>, modified: map<string, nat>)

  /** The whole script, folding with `fold`. */
  function CorrectAllWith(books: seq<Object>, table: map<string, seq<string>>, fold: string -> string): (r: Correction)
    requires Correctable(books, table)
    ensures |r.books| == |books|
    ensures forall i, f :: 0 <= i < |books| && f in books[i] && (f !in table || table[f] == []) ==>
      f in r.books[i] && r.books[i][f] == books[i][f]
    ensures forall i :: 0 <= i < |books| ==> r.books[i].Keys == books[i].Keys
    ensures forall f :: f in r.modified ==> f in table && 0 < r.modified[f] <= |books|
  {
    var rev := ReverseMaps(books, table, fold);
    Correction(CorrectBooks(books, rev), Counts(books, rev))
  }

  /** `apply_field_corrections.py` on the loaded books and table. */
  function ApplyCorrections(books: seq<Object>, table: map<string, seq<string>>): Correction
    requires Correctable(books, table)
  {
    CorrectAllWith(books, table, CaseFoldStr)
  }

  // ---------------------------------------------------------------------
  // What a correction does to a field
  // ---------------------------------------------------------------------

  /** A string field: it is rewritten exactly when it is a variant of some
      corrected value, and then to the last such value. */
  lemma CorrectStringMeaning(s: string, cs: seq<string>, originals: set<string>, fold: string -> string)
    requires s in originals
    ensures var m := ReverseMap(cs, originals, fold);
      && (Modifies(VStr(s), m) <==> LastVariant(s, cs, fold).Some?)
      && CorrectValue(VStr(s), m) == VStr(Corrected(s, cs, fold))
  {
    CorrectedLookup(cs, originals, s, fold);
  }

  /** Mapping a list of originals corrects each entry. */
  lemma CorrectedEntries(ts: seq<string>, cs: seq<string>, originals: set<string>, fold: string -> string)
    requires ToSet(ts) <= originals
    ensures var mapped := Map(ts, Corrector(ReverseMap(cs, originals, fold)));
      forall i :: 0 <= i < |ts| ==> mapped[i] == Corrected(ts[i], cs, fold)
  {
    var m := ReverseMap(cs, originals, fold);
    forall i | 0 <= i < |ts| ensures Map(ts, Corrector(m))[i] == Corrected(ts[i], cs, fold) {
      MapAt(ts, Corrector(m), i);
      assert ts[i] in ToSet(ts);
      CorrectedLookup(cs, originals, ts[i], fold);
    }
  }

  /** Some entry of `ts` is a variant of a corrected value. */
  predicate SomeVariant(ts: seq<string>, cs: seq<string>, fold: string -> string) {
    exists i :: 0 <= i < |ts| && LastVariant(ts[i], cs, fold).Some?
  }

  /** Mapping changes a list of originals exactly when one of its entries
      has a variant among the corrected values. */
  lemma MappedChanges(ts: seq<string>, cs: seq<string>, originals: set<string>, fold: string -> string)
    requires ToSet(ts) <= originals
    ensures Map(ts, Corrector(ReverseMap(cs, originals, fold))) != ts <==> SomeVariant(ts, cs, fold)
  {
    var mapped := Map(ts, Corrector(ReverseMap(cs, originals, fold)));
    CorrectedEntries(ts, cs, originals, fold);
    if SomeVariant(ts, cs, fold) {
      var i :| 0 <= i < |ts| && LastVariant(ts[i], cs, fold).Some?;
      assert mapped[i] != ts[i];
    } else {
      assert mapped == ts;
    }
  }

  /** The mapped entries of a list of originals are their corrections. */
  lemma MappedElements(ts: seq<string>, cs: seq<string>, originals: set<string>, fold: string -> string)
    requires ToSet(ts) <= originals
    ensures ToSet(Map(ts, Corrector(ReverseMap(cs, originals, fold)))) == set t | t in ts :: Corrected(t, cs, fold)
  {
    var mapped := Map(ts, Corrector(ReverseMap(cs, originals, fold)));
    CorrectedEntries(ts, cs, originals, fold);
    forall x | x in ToSet(mapped) ensures x in set t | t in ts :: Corrected(t, cs, fold) {
      var i :| 0 <= i < |mapped| && mapped[i] == x;
      assert ts[i] in ts;
    }
    forall t | t in ts ensures Corrected(t, cs, fold) in ToSet(mapped) {
      var i :| 0 <= i < |ts| && ts[i] == t;
      assert mapped[i] in ToSet(mapped);
    }
  }

  /** A list field: it is rewritten exactly when one of its entries is a
      variant of some corrected value, and then to the strictly sorted list
      of its entries' corrections. */
  lemma CorrectListMeaning(v: Value, cs: seq<string>, originals: set<string>, fold: string -> string)
    requires v.VList? && TextList(v) && ToSet(FieldTexts(v)) <= originals
    ensures var m, ts := ReverseMap(cs, originals, fold), Texts(v.items);
      && (Modifies(v, m) <==> SomeVariant(ts, cs, fold))
      && (Modifies(v, m) ==>
        var r := CorrectValue(v, m);
        r.VList? && TextList(r) && StrictlySorted(Texts(r.items)) &&
        ToSet(Texts(r.items)) == set t | t in ts :: Corrected(t, cs, fold))
  {
    var ts := Texts(v.items);
    var m := ReverseMap(cs, originals, fold);
    assert Modifies(v, m) <==> Map(ts, Corrector(m)) != ts;
    MappedChanges(ts, cs, originals, fold);
    if Modifies(v, m) {
      MappedElements(ts, cs, originals, fold);
    }
  }

  // ---------------------------------------------------------------------
  // A second run
  // ---------------------------------------------------------------------

  /** No corrected value of the list is a variant of another. */
  predicate Canonical(cs: seq<string>, fold: string -> string) {
    forall i, j :: 0 <= i < |cs| && 0 <= j < |cs| ==> !IsVariant(cs[i], cs[j], fold)
  }

  /** Every string the field holds is its own correction. */
  predicate Settled(v: Value, cs: seq<string>, fold: string -> string) {
    TextList(v) && forall t :: t in FieldTexts(v) ==> LastVariant(t, cs, fold).None?
  }

  /** With a canonical list, a correction has no further variant. */
  lemma CorrectionIsSettled(t: string, cs: seq<string>, fold: string -> string)
    requires Canonical(cs, fold)
    ensures LastVariant(Corrected(t, cs, fold), cs, fold).None?
  {
    if LastVariant(t, cs, fold).Some? {
      var c := LastVariant(t, cs, fold).value;
      var k :| 0 <= k < |cs| && cs[k] == c;
      assert forall i :: 0 <= i < |cs| ==> !IsVariant(cs[k], cs[i], fold);
    }
  }

  /** With a canonical list, corrections have no further variants. */
  lemma CorrectionsSettled(xs: seq<string>, ts: seq<string>, cs: seq<string>, fold: string -> string)
    requires Canonical(cs, fold)
    requires ToSet(xs) == set t | t in ts :: Corrected(t, cs, fold)
    ensures forall x :: x in xs ==> LastVariant(x, cs, fold).None?
  {
    forall x | x in xs ensures LastVariant(x, cs, fold).None? {
      assert x in ToSet(xs);
      var u :| u in ts && x == Corrected(u, cs, fold);
      CorrectionIsSettled(u, cs, fold);
    }
  }

  /** With a canonical list, a corrected list field is settled. */
  lemma CorrectListSettles(v: Value, cs: seq<string>, originals: set<string>, fold: string -> string)
    requires Canonical(cs, fold)
    requires v.VList? && TextList(v) && ToSet(FieldTexts(v)) <= originals
    ensures Settled(CorrectValue(v, ReverseMap(cs, originals, fold)), cs, fold)
  {
    var m := ReverseMap(cs, originals, fold);
    var ts := Texts(v.items);
    if Modifies(v, m) {
      RewrittenListSettled(v, cs, originals, fold);
    } else {
      KeptListSettled(v, cs, originals, fold);
    }
  }

  /** A list left alone is already settled. */
  lemma KeptListSettled(v: Value, cs: seq<string>, originals: set<string>, fold: string -> string)
    requires v.VList? && TextList(v) && ToSet(FieldTexts(v)) <= originals
    requires !Modifies(v, ReverseMap(cs, originals, fold))
    ensures Settled(v, cs, fold)
  {
    var ts := Texts(v.items);
    MappedChanges(ts, cs, originals, fold);
    forall t | t in ts ensures LastVariant(t, cs, fold).None? {
      var i :| 0 <= i < |ts| && ts[i] == t;
    }
  }

  /** With a canonical list, a rewritten list holds only settled values. */
  lemma RewrittenListSettled(v: Value, cs: seq<string>, originals: set<string>, fold: string -> string)
    requires Canonical(cs, fold)
    requires v.VList? && TextList(v) && ToSet(FieldTexts(v)) <= originals
    requires Modifies(v, ReverseMap(cs, originals, fold))
    ensures Settled(CorrectValue(v, ReverseMap(cs, originals, fold)), cs, fold)
  {
    var m := ReverseMap(cs, originals, fold);
    var ts := Texts(v.items);
    var r := SortedList(Map(ts, Corrector(m)));
    MappedElements(ts, cs, originals, fold);
    CorrectionsSettled(Texts(r.items), ts, cs, fold);
  }

  /** With a canonical list, a corrected string field is settled. */
  lemma CorrectStringSettles(s: string, cs: seq<string>, originals: set<string>, fold: string -> string)
    requires Canonical(cs, fold)
    requires s in originals
    ensures Settled(CorrectValue(VStr(s), ReverseMap(cs, originals, fold)), cs, fold)
  {
    var c := Corrected(s, cs, fold);
    CorrectStringMeaning(s, cs, originals, fold);
    CorrectionIsSettled(s, cs, fold);
    assert FieldTexts(VStr(c)) == [c];
  }

  /** With a canonical list, a corrected field is settled. */
  lemma CorrectValueSettles(v: Value, cs: seq<string>, originals: set<string>, fold: string -> string)
    requires Canonical(cs, fold)
    requires TextList(v) && ToSet(FieldTexts(v)) <= originals
    ensures Settled(CorrectValue(v, ReverseMap(cs, originals, fold)), cs, fold)
  {
    match v
    case VStr(s) =>
      assert s in ToSet(FieldTexts(v));
      CorrectStringSettles(s, cs, originals, fold);
    case VList(_) =>
      CorrectListSettles(v, cs, originals, fold);
    case _ =>
      assert CorrectValue(v, ReverseMap(cs, originals, fold)) == v;
  }

  /** Mapping leaves a list alone when every entry maps to itself. */
  lemma MapFixed(ts: seq<string>, m: map<string, string>)
    requires forall i :: 0 <= i < |ts| ==> Lookup(m, ts[i]) == ts[i]
    ensures Map(ts, Corrector(m)) == ts
  {
    forall i | 0 <= i < |ts| ensures Map(ts, Corrector(m))[i] == ts[i] {
      MapAt(ts, Corrector(m), i);
    }
  }

  /** A settled field is left alone, whatever the originals. */
  lemma SettledUnchanged(v: Value, cs: seq<string>, originals: set<string>, fold: string -> string)
    requires Settled(v, cs, fold)
    ensures !Modifies(v, ReverseMap(cs, originals, fold))
  {
    var m := ReverseMap(cs, originals, fold);
    if v.VList? {
      var ts := Texts(v.items);
      forall i | 0 <= i < |ts| ensures Lookup(m, ts[i]) == ts[i] {
        assert ts[i] in FieldTexts(v);
        CorrectedLookup(cs, originals, ts[i], fold);
      }
      MapFixed(ts, m);
    } else if v.VStr? {
      assert v.s in FieldTexts(v);
      CorrectedLookup(cs, originals, v.s, fold);
    }
  }

  /** Every corrected field of a table is settled, every other one kept. */
  predicate BookSettled(book: Object, table: map<string, seq<string>>, fold: string -> string) {
    forall f :: f in table && table[f] != [] ==> Settled(Get(book, f), table[f], fold)
  }

  /** A corrected book is settled with respect to a canonical table. */
  lemma CorrectBookSettles(books: seq<Object>, table: map<string, seq<string>>, fold: string -> string, i: nat)
    requires Correctable(books, table) && i < |books|
    requires forall f :: f in table ==> Canonical(table[f], fold)
    ensures var out := CorrectBook(books[i], ReverseMaps(books, table, fold));
      BookSettled(out, table, fold) &&
      forall f :: f in table && table[f] == [] ==> Get(out, f) == Get(books[i], f)
  {
    var rev := ReverseMaps(books, table, fold);
    var out := CorrectBook(books[i], rev);
    forall f | f in table && table[f] != [] ensures Settled(Get(out, f), table[f], fold) {
      OriginalsHold(books, f, i);
      CorrectValueSettles(Get(books[i], f), table[f], Originals(books, f), fold);
    }
  }

  /** A settled book is left alone by a run over any books. */
  lemma SettledBookUnchanged(book: Object, books: seq<Object>, table: map<string, seq<string>>, fold: string -> string)
    requires Correctable(books, table) && BookSettled(book, table, fold)
    ensures var rev := ReverseMaps(books, table, fold);
      (forall f :: f in rev ==> TextList(Get(book, f)) && !Modifies(Get(book, f), rev[f])) &&
      CorrectBook(book, rev) == book
  {
    var rev := ReverseMaps(books, table, fold);
    forall f | f in rev ensures TextList(Get(book, f)) && !Modifies(Get(book, f), rev[f]) {
      SettledUnchanged(Get(book, f), table[f], Originals(books, f), fold);
    }
  }

  /** With a canonical table, every corrected book is settled and the
      output still meets the script's requirements. */
  lemma CorrectAllSettled(books: seq<Object>, table: map<string, seq<string>>, fold: string -> string)
    requires Correctable(books, table)
    requires forall f :: f in table ==> Canonical(table[f], fold)
    ensures var out := CorrectAllWith(books, table, fold).books;
      Correctable(out, table) && forall i :: 0 <= i < |out| ==> BookSettled(out[i], table, fold)
  {
    var out := CorrectAllWith(books, table, fold).books;
    forall i | 0 <= i < |out| ensures BookSettled(out[i], table, fold) &&
      forall f :: f in table && table[f] == [] ==> Get(out[i], f) == Get(books[i], f)
    {
      CorrectBookSettles(books, table, fold, i);
    }
  }

  /** Settled books pass through a run unchanged and uncounted. */
  lemma SettledRun(books: seq<Object>, table: map<string, seq<string>>, fold: string -> string)
    requires Correctable(books, table)
    requires forall i :: 0 <= i < |books| ==> BookSettled(books[i], table, fold)
    ensures CorrectAllWith(books, table, fold) == Correction(books, map[])
  {
    var rev := ReverseMaps(books, table, fold);
    forall i | 0 <= i < |books| ensures
      (forall f :: f in rev ==> !Modifies(Get(books[i], f), rev[f])) && CorrectBook(books[i], rev) == books[i]
    {
      SettledBookUnchanged(books[i], books, table, fold);
    }
    assert CorrectBooks(books, rev) == books;
  }

  /** With a canonical table, a second run changes nothing and counts
      nothing. */
  lemma CorrectAllSettles(books: seq<Object>, table: map<string, seq<string>>, fold: string -> string)
    requires Correctable(books, table)
    requires forall f :: f in table ==> Canonical(table[f], fold)
    ensures var out := CorrectAllWith(books, table, fold).books;
      Correctable(out, table) && CorrectAllWith(out, table, fold) == Correction(out, map[])
  {
    CorrectAllSettled(books, table, fold);
    SettledRun(CorrectAllWith(books, table, fold).books, table, fold);
  }

  // ---------------------------------------------------------------------
  // Two corrected spellings of one value
  // ---------------------------------------------------------------------

  /** When the corrected list holds two spellings `x` and `y` of one value
      and both occur, each is an original variant of the other, so their
      self entries are overridden and the two swap. */
  lemma SwapLookup(x: string, y: string, fold: string -> string)
    requires x != y && fold(x) == fold(y)
    ensures Lookup(ReverseMap([x, y], {x, y}, fold), x) == y
    ensures Lookup(ReverseMap([x, y], {x, y}, fold), y) == x
  {
    var cs := [x, y];
    assert LastVariant(x, cs, fold) == Some(y) by {
      assert IsVariant(x, cs[1], fold);
    }
    assert LastVariant(y, cs, fold) == Some(x) by {
      assert !IsVariant(y, cs[1], fold) && cs[..1] == [x];
      assert IsVariant(y, x, fold);
    }
    CorrectedLookup(cs, {x, y}, x, fold);
    CorrectedLookup(cs, {x, y}, y, fold);
  }

  /** One book's turn when its string maps to another. */
  lemma SwapBook(s: string, t: string, m: map<string, string>)
    requires s != t && Lookup(m, s) == t
    ensures CorrectBook(map["f" := VStr(s)], map["f" := m]) == map["f" := VStr(t)]
    ensures Modifies(VStr(s), m)
  {
    assert CorrectValue(VStr(s), m) == VStr(t);
  }

  /** The two books of the example. */
  function SwapBooks(x: string, y: string): seq<Object> {
    [map["f" := VStr(x)], map["f" := VStr(y)]]
  }

  /** The originals of the example are the two spellings. */
  lemma SwapOriginals(x: string, y: string)
    ensures forall i :: 0 <= i < |SwapBooks(x, y)| ==> TextList(Get(SwapBooks(x, y)[i], "f"))
    ensures Originals(SwapBooks(x, y), "f") == {x, y}
  {
    var books := SwapBooks(x, y);
    assert books[..1] == [books[0]];
    assert FieldTexts(Get(books[0], "f")) == [x] && ToSet([x]) == {x};
    assert FieldTexts(Get(books[1], "f")) == [y] && ToSet([y]) == {y};
    assert Originals(books[..1], "f") == {x};
  }

  /** The reverse maps of the example: one field, whose originals are the
      two spellings. */
  lemma SwapReverseMaps(x: string, y: string, fold: string -> string)
    ensures Correctable(SwapBooks(x, y), map["f" := [x, y]])
    ensures ReverseMaps(SwapBooks(x, y), map["f" := [x, y]], fold) == map["f" := ReverseMap([x, y], {x, y}, fold)]
  {
    SwapOriginals(x, y);
  }

  /** Under a map that swaps the spellings, both books change. */
  lemma SwapRunBooks(x: string, y: string, m: map<string, string>)
    requires x != y && Lookup(m, x) == y && Lookup(m, y) == x
    ensures Applicable(SwapBooks(x, y), map["f" := m])
    ensures CorrectBooks(SwapBooks(x, y), map["f" := m]) == SwapBooks(y, x)
  {
    var books, rev := SwapBooks(x, y), map["f" := m];
    SwapBook(x, y, m);
    SwapBook(y, x, m);
    assert CorrectBooks(books, rev) == [CorrectBook(books[0], rev), CorrectBook(books[1], rev)];
  }

  /** Under a map that swaps the spellings, both books count. */
  lemma SwapRunCounts(x: string, y: string, m: map<string, string>)
    requires x != y && Lookup(m, x) == y && Lookup(m, y) == x
    ensures Applicable(SwapBooks(x, y), map["f" := m])
    ensures Counts(SwapBooks(x, y), map["f" := m]) == map["f" := 2]
  {
    var books, rev := SwapBooks(x, y), map["f" := m];
    SwapBook(x, y, m);
    SwapBook(y, x, m);
    assert ModifiedCount(books, "f", m) == 2 by {
      assert books[..1] == [books[0]];
    }
    assert Counts(books, rev).Keys == {"f"};
  }

  /** Two books holding the two spellings trade them, and both count as
      modified, so the table is not settled by one run. */
  lemma SwapSpellings(x: string, y: string, fold: string -> string)
    requires x != y && fold(x) == fold(y)
    ensures Correctable(SwapBooks(x, y), map["f" := [x, y]])
    ensures CorrectAllWith(SwapBooks(x, y), map["f" := [x, y]], fold) ==
      Correction(SwapBooks(y, x), map["f" := 2])
  {
    SwapReverseMaps(x, y, fold);
    SwapLookup(x, y, fold);
    SwapRunBooks(x, y, ReverseMap([x, y], {x, y}, fold));
    SwapRunCounts(x, y, ReverseMap([x, y], {x, y}, fold));
  }

  /** The same with `str.casefold`: "A" and "a" listed together swap. */
  lemma SwappedCase()
    ensures Correctable(SwapBooks("A", "a"), map["f" := ["A", "a"]])
    ensures ApplyCorrections(SwapBooks("A", "a"), map["f" := ["A", "a"]]) ==
      Correction(SwapBooks("a", "A"), map["f" := 2])
  {
    assert CaseFoldStr("A") == CaseFoldStr("a");
    SwapSpellings("A", "a", CaseFoldStr);
  }

  /** With `str.casefold` and a table without two spellings of one value,
      a second run of the script changes nothing and counts nothing. */
  lemma ApplyCorrectionsSettles(books: seq<Object>, table: map<string, seq<string>>)
    requires Correctable(books, table)
    requires forall f :: f in table ==> Canonical(table[f], CaseFoldStr)
    ensures var out := ApplyCorrections(books, table).books;
      Correctable(out, table) && ApplyCorrections(out, table) == Correction(out, map[])
  {
    CorrectAllSettles(books, table, CaseFoldStr);
  }
}
