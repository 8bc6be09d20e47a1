/** The comparison script: list the books of the backup whose
    (title, author) key no dictionary of the current catalog carries. */
module BackupDiff {
  import opened Seqs
  import opened Catalog
  import opened Admission
  import Dedup

  /** A backup entry the script reports: a dictionary whose key is missing
      from the current catalog. */
  predicate IsRemoved(v: Value, currentKeys: set<Key>) {
    v.VDict? && KeyOf(v) !in currentKeys
  }

  /** `comparar_libros` on the two parsed files: the reported entries, in
      backup order. Entries that are not dictionaries are skipped on both
      sides; nested lists are not looked into. */
  function Removed(backup: seq<Value>, current: seq<Value>): (r: seq<Value>)
    requires DictsKeyed(backup) && DictsKeyed(current)
    ensures |r| <= |backup|
  {
    var currentKeys := DictKeys(current);
    Filter(backup, v => IsRemoved(v, currentKeys))
  }

  /** An entry is reported exactly when it is a backup dictionary whose key
      no current dictionary carries; the report keeps backup order. */
  lemma RemovedExactly(backup: seq<Value>, current: seq<Value>)
    requires DictsKeyed(backup) && DictsKeyed(current)
    ensures forall v :: v in Removed(backup, current) <==>
      v in backup && v.VDict? && forall w :: w in current && w.VDict? ==> KeyOf(w) != KeyOf(v)
    ensures IsSubsequence(Removed(backup, current), backup)
  {
    var currentKeys := DictKeys(current);
    FilterMembers(backup, v => IsRemoved(v, currentKeys));
    FilterIsSubsequence(backup, v => IsRemoved(v, currentKeys));
  }

  /** Nothing is reported when the current catalog still carries every key
      of the backup, in particular when comparing a catalog with itself. */
  lemma NothingRemoved(backup: seq<Value>, current: seq<Value>)
    requires DictsKeyed(backup) && DictsKeyed(current)
    requires DictKeys(backup) <= DictKeys(current)
    ensures Removed(backup, current) == []
  {
    var currentKeys := DictKeys(current);
    forall i | 0 <= i < |backup| ensures !IsRemoved(backup[i], currentKeys) {
      if backup[i].VDict? {
        assert KeyOf(backup[i]) in DictKeys(backup);
      }
    }
    FilterNone(backup, v => IsRemoved(v, currentKeys));
  }

  /** Compared against its deduplicated version, a flat catalog is
      reported to have lost exactly its incomplete entries: a duplicate is
      never reported, since its key survives in the first copy. */
  lemma AfterDedupOnlyIncomplete(raw: seq<Value>)
    requires DictsKeyed(raw) && DictsKeyed(Flatten(raw)) && DictsKeyed(Dedup.Deduplicate(raw))
    ensures forall v :: v in Removed(raw, Dedup.Deduplicate(raw)) <==> v in raw && v.VDict? && !Dedup.IsComplete(v)
  {
    var unique := Dedup.Deduplicate(raw);
    RemovedExactly(raw, unique);
    Dedup.DeduplicateInOrder(raw);
    Dedup.DeduplicateKeys(raw);
    FlattenKeepsDicts(raw);
    forall v | v in raw && v.VDict?
      ensures (forall w :: w in unique && w.VDict? ==> KeyOf(w) != KeyOf(v)) <==> !Dedup.IsComplete(v)
    {
      if Dedup.IsComplete(v) {
        assert KeyOf(v) in KeySet(unique, KeyOf);
      }
    }
  }
}
