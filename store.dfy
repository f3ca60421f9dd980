/** The table the import writes to, and `createMany({ data, skipDuplicates: true })`
    (src/routes/contribuables/importRoutes.ts): a record whose unique key is already
    stored, or was inserted earlier in the same batch, is skipped; every other
    record is appended; the count of inserted records is returned. Which column
    is unique lives in the database schema, so the key function is a parameter. */
module Store {
  import opened Rows

  /** The keys of a sequence of records. */
  function KeysOf<K(==)>(records: seq<Contribuable>, keyOf: Contribuable -> K): set<K> {
    if records == [] then {}
    else KeysOf(records[..|records| - 1], keyOf) + {keyOf(records[|records| - 1])}
  }

  /** The keys of a sequence are exactly the keys its records carry. */
  lemma {:induction false} KeysOfMembers<K>(records: seq<Contribuable>, keyOf: Contribuable -> K)
    ensures forall i :: 0 <= i < |records| ==> keyOf(records[i]) in KeysOf(records, keyOf)
    ensures forall k :: k in KeysOf(records, keyOf) ==> exists i :: 0 <= i < |records| && keyOf(records[i]) == k
  {
    if records != [] {
      var init := records[..|records| - 1];
      KeysOfMembers(init, keyOf);
      assert forall i :: 0 <= i < |init| ==> records[i] == init[i];
      forall k | k in KeysOf(records, keyOf)
        ensures exists i :: 0 <= i < |records| && keyOf(records[i]) == k
      {
        if k in KeysOf(init, keyOf) {
          var i :| 0 <= i < |init| && keyOf(init[i]) == k;
          assert keyOf(records[i]) == k;
        } else {
          assert keyOf(records[|records| - 1]) == k;
        }
      }
    }
  }

  /** No two records share a key. */
  predicate DistinctKeys<K(==)>(records: seq<Contribuable>, keyOf: Contribuable -> K) {
    forall i, j :: 0 <= i < j < |records| ==> keyOf(records[i]) != keyOf(records[j])
  }

  /** The records of `batch` that a skip-duplicate insert over the keys
      `present` adds, in batch order: never more than the batch, and only
      records of the batch. */
  function Fresh<K(==)>(batch: seq<Contribuable>, present: set<K>, keyOf: Contribuable -> K): (added: seq<Contribuable>)
    ensures |added| <= |batch|
    ensures forall x :: x in added ==> x in batch
  {
    if batch == [] then []
    else
      var init := batch[..|batch| - 1];
      var prev := Fresh(init, present, keyOf);
      var r := batch[|batch| - 1];
      assert forall x :: x in init ==> x in batch;
      if keyOf(r) in present || keyOf(r) in KeysOf(prev, keyOf) then prev else prev + [r]
  }

  class Store<K(==)> {
    var records: seq<Contribuable>
    var keys: set<K>
    const keyOf: Contribuable -> K

    /** The key set is the set of the stored records' keys, and no key is stored twice. */
    ghost predicate Valid()
      reads this
    {
      keys == KeysOf(records, keyOf) && DistinctKeys(records, keyOf)
    }

    constructor (keyOf: Contribuable -> K)
      ensures Valid() && records == [] && keys == {} && this.keyOf == keyOf
    {
      this.keyOf := keyOf;
      records := [];
      keys := {};
    }

    /** The insert: the stored records are kept as they are and the fresh ones
        of the batch are appended; `count` is how many there are. */
    method CreateMany(batch: seq<Contribuable>) returns (count: nat)
      requires Valid()
      modifies this
      ensures Valid()
      ensures records == old(records) + Fresh(batch, old(keys), keyOf)
      ensures keys == old(keys) + KeysOf(Fresh(batch, old(keys), keyOf), keyOf)
      ensures count == |Fresh(batch, old(keys), keyOf)|
    {
      var added := Fresh(batch, keys, keyOf);
      FreshKeysNew(batch, keys, keyOf);
      KeysOfConcat(records, added, keyOf);
      ConcatDistinct(records, added, keyOf);
      records := records + added;
      keys := keys + KeysOf(added, keyOf);
      count := |added|;
    }
  }

  /** The keys of two sequences joined are the keys of each. */
  lemma {:induction false} KeysOfConcat<K>(a: seq<Contribuable>, b: seq<Contribuable>, keyOf: Contribuable -> K)
    ensures KeysOf(a + b, keyOf) == KeysOf(a, keyOf) + KeysOf(b, keyOf)
  {
    if b == [] {
      assert a + b == a;
    } else {
      var init := b[..|b| - 1];
      assert (a + b)[..|a + b| - 1] == a + init;
      KeysOfConcat(a, init, keyOf);
    }
  }

  /** Two sequences without repeated keys, sharing no key, joined have none either. */
  lemma ConcatDistinct<K>(a: seq<Contribuable>, b: seq<Contribuable>, keyOf: Contribuable -> K)
    requires DistinctKeys(a, keyOf) && DistinctKeys(b, keyOf)
    requires forall r :: r in b ==> keyOf(r) !in KeysOf(a, keyOf)
    ensures DistinctKeys(a + b, keyOf)
  {
    KeysOfMembers(a, keyOf);
    var s := a + b;
    forall i, j | 0 <= i < j < |s|
      ensures keyOf(s[i]) != keyOf(s[j])
    {
      if j < |a| {
        assert s[i] == a[i] && s[j] == a[j];
      } else if i < |a| {
        assert s[i] == a[i] && s[j] == b[j - |a|] && b[j - |a|] in b;
      } else {
        assert s[i] == b[i - |a|] && s[j] == b[j - |a|];
      }
    }
  }

  lemma AppendKeys<K>(records: seq<Contribuable>, r: Contribuable, keyOf: Contribuable -> K)
    ensures KeysOf(records + [r], keyOf) == KeysOf(records, keyOf) + {keyOf(r)}
  {
    assert (records + [r])[..|records|] == records;
  }

  lemma AppendDistinct<K>(records: seq<Contribuable>, r: Contribuable, keyOf: Contribuable -> K)
    requires DistinctKeys(records, keyOf) && keyOf(r) !in KeysOf(records, keyOf)
    ensures DistinctKeys(records + [r], keyOf)
  {
    KeysOfMembers(records, keyOf);
    var s := records + [r];
    forall i, j | 0 <= i < j < |s|
      ensures keyOf(s[i]) != keyOf(s[j])
    {
      if j < |records| {
        assert s[i] == records[i] && s[j] == records[j];
      } else {
        assert s[i] == records[i];
      }
    }
  }

  /** What is inserted comes from the batch, has a key not stored before and
      carries pairwise distinct keys. */
  lemma {:induction false} FreshKeysNew<K>(batch: seq<Contribuable>, present: set<K>, keyOf: Contribuable -> K)
    ensures forall r :: r in Fresh(batch, present, keyOf) ==> r in batch && keyOf(r) !in present
    ensures DistinctKeys(Fresh(batch, present, keyOf), keyOf)
  {
    if batch != [] {
      var prev := Fresh(batch[..|batch| - 1], present, keyOf);
      var r := batch[|batch| - 1];
      FreshKeysNew(batch[..|batch| - 1], present, keyOf);
      if !(keyOf(r) in present || keyOf(r) in KeysOf(prev, keyOf)) {
        AppendDistinct(prev, r, keyOf);
      }
    }
  }

  /** After the insert every key of the batch is stored: it either was
      already, or it is the key of an inserted record. */
  lemma {:induction false} FreshCovers<K>(batch: seq<Contribuable>, present: set<K>, keyOf: Contribuable -> K)
    ensures forall i :: 0 <= i < |batch| ==>
      keyOf(batch[i]) in present + KeysOf(Fresh(batch, present, keyOf), keyOf)
  {
    if batch != [] {
      var init := batch[..|batch| - 1];
      var prev := Fresh(init, present, keyOf);
      var r := batch[|batch| - 1];
      FreshCovers(init, present, keyOf);
      if !(keyOf(r) in present || keyOf(r) in KeysOf(prev, keyOf)) {
        AppendKeys(prev, r, keyOf);
      }
      assert forall i :: 0 <= i < |init| ==> batch[i] == init[i];
    }
  }

  /** A batch whose keys are all stored already inserts nothing. */
  lemma {:induction false} AllPresentInsertsNothing<K>(batch: seq<Contribuable>, present: set<K>, keyOf: Contribuable -> K)
    requires forall i :: 0 <= i < |batch| ==> keyOf(batch[i]) in present
    ensures Fresh(batch, present, keyOf) == []
  {
    if batch != [] {
      AllPresentInsertsNothing(batch[..|batch| - 1], present, keyOf);
    }
  }

  /** Importing the same batch a second time inserts nothing. */
  lemma ReimportInsertsNothing<K>(batch: seq<Contribuable>, present: set<K>, keyOf: Contribuable -> K)
    ensures Fresh(batch, present + KeysOf(Fresh(batch, present, keyOf), keyOf), keyOf) == []
  {
    FreshCovers(batch, present, keyOf);
    AllPresentInsertsNothing(batch, present + KeysOf(Fresh(batch, present, keyOf), keyOf), keyOf);
  }
}
