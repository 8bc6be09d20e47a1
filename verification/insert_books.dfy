/** The insertion script: validate a batch of new books, flatten the
    existing catalog one level, and append the new books whose
    (title, author) key the catalog does not carry yet. */
module InsertBooks {
  import opened Wrappers
  import opened Seqs
  import opened Catalog
  import opened Admission

  /** The three rejections of `validar_formato`, checked in this order. */
  datatype FormatError =
    | NotAList
    | NestedList
    | NotAllDicts

  /** Some entry is itself a list. */
  predicate HasNestedList(xs: seq<Value>) {
    exists i :: 0 <= i < |xs| && xs[i].VList?
  }

  /** Every entry is a dictionary. */
  predicate AllDicts(xs: seq<Value>) {
    forall i :: 0 <= i < |xs| ==> xs[i].VDict?
  }

  /** `validar_formato`: the batch must be a flat list of dictionaries; on
      success the batch's entries are returned. */
  function ValidateFormat(batch: Value): (r: Result<seq<Value>, FormatError>)
    ensures r.Success? <==> batch.VList? && AllDicts(batch.items)
    ensures r.Success? ==> r.value == batch.items
    ensures r == Failure(NotAList) <==> !batch.VList?
    ensures r == Failure(NestedList) <==> batch.VList? && HasNestedList(batch.items)
    ensures r == Failure(NotAllDicts) <==> batch.VList? && !HasNestedList(batch.items) && !AllDicts(batch.items)
  {
    if !batch.VList? then Failure(NotAList)
    else if exists i | 0 <= i < |batch.items| :: batch.items[i].VList? then Failure(NestedList)
    else if exists i | 0 <= i < |batch.items| :: !batch.items[i].VDict? then Failure(NotAllDicts)
    else Success(batch.items)
  }

  /** A validated batch is its own flattening. */
  lemma ValidatedIsFlat(batch: Value)
    requires ValidateFormat(batch).Success?
    ensures Flatten(ValidateFormat(batch).value) == batch.items
  {
    FlattenFlat(batch.items);
  }

  /** The outcome of a run: the catalog written back and the books that
      were appended to it. */
  datatype Insertion = Insertion(catalog: seq<Value>, added: seq<Value>)

  /** The script on the parsed catalog `existing` and the batch: a format
      error, or the flattened catalog followed by the admitted new books.
      A new book is admitted when its key is neither in the catalog nor the
      key of a book admitted before it. */
  function InsertNewBooks(existing: seq<Value>, batch: Value): (r: Result<Insertion, FormatError>)
    requires ValidateFormat(batch).Success? ==> DictsKeyed(batch.items) && DictsKeyed(Flatten(existing))
    ensures r.Failure? <==> ValidateFormat(batch).Failure?
    ensures r.Failure? ==> r.error == ValidateFormat(batch).error
    ensures r.Success? ==> r.value.catalog == Flatten(existing) + r.value.added
    ensures r.Success? ==> IsSubsequence(r.value.added, batch.items)
  {
    match ValidateFormat(batch)
    case Failure(e) => Failure(e)
    case Success(books) =>
      var flat := Flatten(existing);
      var added := Admit(books, KeyOf, DictKeys(flat));
      AdmitInOrder(books, KeyOf, DictKeys(flat));
      Success(Insertion(flat + added, added))
  }

  /** A successful run appends what admission lets through from the
      batch, given the catalog's keys. */
  lemma InsertAdmits(existing: seq<Value>, batch: Value)
    requires batch.VList? ==> DictsKeyed(batch.items)
    requires DictsKeyed(Flatten(existing))
    requires InsertNewBooks(existing, batch).Success?
    ensures InsertNewBooks(existing, batch).value.added == Admit(batch.items, KeyOf, DictKeys(Flatten(existing)))
  {
    assert ValidateFormat(batch) == Success(batch.items);
  }

  /** The appended books carry new keys: none is in the catalog and no two
      are equal. */
  lemma InsertAddsFreshKeys(existing: seq<Value>, batch: Value)
    requires batch.VList? ==> DictsKeyed(batch.items)
    requires DictsKeyed(Flatten(existing))
    requires InsertNewBooks(existing, batch).Success?
    ensures var added := InsertNewBooks(existing, batch).value.added;
      && KeySet(added, KeyOf) !! DictKeys(Flatten(existing))
      && NoDuplicates(KeysOf(added, KeyOf))
  {
    AdmitFresh(batch.items, KeyOf, DictKeys(Flatten(existing)));
  }

  /** Afterwards the catalog carries the key of every book of the batch,
      and no other new key. */
  lemma InsertCoversBatch(existing: seq<Value>, batch: Value)
    requires batch.VList? ==> DictsKeyed(batch.items)
    requires DictsKeyed(Flatten(existing))
    requires InsertNewBooks(existing, batch).Success?
    ensures DictKeys(InsertNewBooks(existing, batch).value.catalog)
      == DictKeys(Flatten(existing)) + KeySet(batch.items, KeyOf)
  {
    var flat := Flatten(existing);
    var r := InsertNewBooks(existing, batch).value;
    AdmitComplete(batch.items, KeyOf, DictKeys(flat));
    AdmitInOrder(batch.items, KeyOf, DictKeys(flat));
    SubsequenceBounds(r.added, batch.items);
    assert DictKeys(r.catalog) == DictKeys(flat) + KeySet(r.added, KeyOf) by {
      assert forall v :: v in r.catalog <==> v in flat || v in r.added;
    }
  }

  /** The first book of the batch carrying a key the catalog lacks is
      appended. */
  lemma InsertKeepsFirst(existing: seq<Value>, batch: Value, i: nat)
    requires batch.VList? ==> DictsKeyed(batch.items)
    requires DictsKeyed(Flatten(existing))
    requires InsertNewBooks(existing, batch).Success?
    requires i < |batch.items|
    requires KeyOf(batch.items[i]) !in DictKeys(Flatten(existing))
    requires forall j :: 0 <= j < i ==> KeyOf(batch.items[j]) != KeyOf(batch.items[i])
    ensures batch.items[i] in InsertNewBooks(existing, batch).value.added
  {
    AdmitKeepsFirst(batch.items, KeyOf, DictKeys(Flatten(existing)), i);
  }

  /** The appended books are dictionaries of the batch, so flattening the
      written catalog again only re-flattens its old part. */
  lemma AddedAreBooks(existing: seq<Value>, batch: Value)
    requires batch.VList? ==> DictsKeyed(batch.items)
    requires DictsKeyed(Flatten(existing))
    requires InsertNewBooks(existing, batch).Success?
    ensures var r := InsertNewBooks(existing, batch).value;
      Flatten(r.catalog) == Flatten(Flatten(existing)) + r.added
  {
    var flat := Flatten(existing);
    var r := InsertNewBooks(existing, batch).value;
    InsertAdmits(existing, batch);
    AdmitInOrder(batch.items, KeyOf, DictKeys(flat));
    SubsequenceBounds(r.added, batch.items);
    forall i | 0 <= i < |r.added| ensures r.added[i].VDict? {
      assert r.added[i] in batch.items;
    }
    FlattenFlat(r.added);
    FlattenConcat(flat, r.added);
  }

  /** The written catalog, flattened again, still carries the key of every
      book of the batch. */
  lemma CatalogCarriesBatch(existing: seq<Value>, batch: Value)
    requires batch.VList? ==> DictsKeyed(batch.items)
    requires DictsKeyed(Flatten(existing))
    requires InsertNewBooks(existing, batch).Success?
    ensures KeySet(batch.items, KeyOf) <= DictKeys(Flatten(InsertNewBooks(existing, batch).value.catalog))
  {
    var flat := Flatten(existing);
    var r := InsertNewBooks(existing, batch).value;
    var flat2 := Flatten(r.catalog);
    AddedAreBooks(existing, batch);
    InsertCoversBatch(existing, batch);
    FlattenKeepsDicts(flat);
    forall v | v in r.catalog && v.VDict? ensures v in flat2 {
      if v !in r.added {
        assert v in flat;
      }
    }
    assert DictKeys(r.catalog) <= DictKeys(flat2);
  }

  /** Running the script a second time on its own output appends nothing:
      the result is the output flattened once more. */
  lemma InsertTwiceAddsNothing(existing: seq<Value>, batch: Value)
    requires batch.VList? ==> DictsKeyed(batch.items)
    requires DictsKeyed(Flatten(existing))
    requires InsertNewBooks(existing, batch).Success?
    requires DictsKeyed(Flatten(InsertNewBooks(existing, batch).value.catalog))
    ensures InsertNewBooks(InsertNewBooks(existing, batch).value.catalog, batch)
      == Success(Insertion(Flatten(InsertNewBooks(existing, batch).value.catalog), []))
  {
    var catalog := InsertNewBooks(existing, batch).value.catalog;
    CatalogCarriesBatch(existing, batch);
    InsertAdmits(catalog, batch);
    AdmitNothingNew(batch.items, KeyOf, DictKeys(Flatten(catalog)));
    assert Flatten(catalog) + [] == Flatten(catalog);
  }

  /** When the existing catalog is a flat list of dictionaries, so is the
      written one: a second run then writes back exactly the same list. */
  lemma InsertKeepsFlat(existing: seq<Value>, batch: Value)
    requires batch.VList? ==> DictsKeyed(batch.items)
    requires AllDicts(existing) && DictsKeyed(Flatten(existing))
    requires InsertNewBooks(existing, batch).Success?
    ensures Flatten(InsertNewBooks(existing, batch).value.catalog) == InsertNewBooks(existing, batch).value.catalog
  {
    FlattenFlat(existing);
    AddedAreBooks(existing, batch);
  }
}
