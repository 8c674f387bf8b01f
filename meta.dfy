/** A file's metadata: a map from string keys to scalar values, and the two
    ways a metadata update applies to it. */
module FileMeta {

  /** A metadata value. `Nil` appears only in updates, where it asks for
      its key to be removed; it is never kept in a file's metadata. */
  datatype MetaValue = MetaInt(i: int) | MetaStr(s: string) | MetaBool(b: bool) | Nil

  type Meta = map<string, MetaValue>

  /** No key of `m` is mapped to `Nil`. */
  predicate NilFree(m: Meta)
  {
    forall k :: k in m ==> m[k] != Nil
  }

  /** `r` is the metadata after applying `updates` to `current`.
      Replacing (`merge` false): `r` holds exactly the non-nil entries of
      `updates`. Merging: every key of `updates` takes its new value, or is
      removed when that value is `Nil`; every other key keeps its value. */
  predicate IsUpdate(current: Meta, updates: Meta, merge: bool, r: Meta)
  {
    && (forall k :: k in r ==>
          || (k in updates && updates[k] != Nil && r[k] == updates[k])
          || (merge && k !in updates && k in current && r[k] == current[k]))
    && (forall k :: k in updates && updates[k] != Nil ==> k in r)
    && (merge ==> forall k :: k in current && k !in updates ==> k in r)
  }

  /** Applies `updates` to `current`, one key at a time. */
  method ApplyUpdate(current: Meta, updates: Meta, merge: bool) returns (r: Meta)
    ensures IsUpdate(current, updates, merge, r)
  {
    r := if merge then current else map[];
    var todo := updates.Keys;
    while todo != {}
      invariant todo <= updates.Keys
      invariant forall k :: k in r ==>
                  || (k in updates && k !in todo && updates[k] != Nil && r[k] == updates[k])
                  || (merge && (k !in updates || k in todo) && k in current && r[k] == current[k])
      invariant forall k :: k in updates && k !in todo && updates[k] != Nil ==> k in r
      invariant merge ==> forall k :: k in current && (k !in updates || k in todo) ==> k in r
      decreases todo
    {
      var k :| k in todo;
      if updates[k] == Nil {
        r := r - {k};
      } else {
        r := r[k := updates[k]];
      }
      todo := todo - {k};
    }
  }

  /** At most one map is the result of an update. */
  lemma UpdateUnique(current: Meta, updates: Meta, merge: bool, r1: Meta, r2: Meta)
    requires IsUpdate(current, updates, merge, r1) && IsUpdate(current, updates, merge, r2)
    ensures r1 == r2
  {
    assert r1.Keys == r2.Keys;
    forall k | k in r1
      ensures r1[k] == r2[k]
    {
    }
  }

  /** An update never stores `Nil`: applied to metadata without `Nil`, it
      gives metadata without `Nil`. A replacing update gives that for any
      metadata. */
  lemma UpdateNilFree(current: Meta, updates: Meta, merge: bool, r: Meta)
    requires IsUpdate(current, updates, merge, r)
    requires merge ==> NilFree(current)
    ensures NilFree(r)
  {
  }

  /** A replacing update with no `Nil` values makes the metadata equal to
      the update. */
  lemma ReplaceIsUpdates(current: Meta, updates: Meta, r: Meta)
    requires NilFree(updates) && IsUpdate(current, updates, false, r)
    ensures r == updates
  {
    assert r.Keys == updates.Keys;
  }

  /** Merging an empty update changes nothing. */
  lemma MergeNothing(current: Meta, r: Meta)
    requires IsUpdate(current, map[], true, r)
    ensures r == current
  {
    assert r.Keys == current.Keys;
  }
}
