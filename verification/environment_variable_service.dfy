/**
 * The registry of collections contributed by extensions, keyed by extension
 * identifier in registration order, with a merged collection that is
 * recomputed on every change: the first registered extension that defines a
 * variable decides its mutator.
 */
module EnvironmentVariableServices {
  import opened OrderedMaps
  import opened EnvironmentVariableCollections

  // ---------------------------------------------------------------------------
  // The merge
  // ---------------------------------------------------------------------------

  /**
   * `acc` after visiting the first `n` entries of `source`, adding each entry
   * whose variable `acc` does not have yet. (Every key of a valid map has a
   * value, so the second guard only makes the function total.)
   */
  function AddMissing(acc: Entries, source: Entries, n: nat): Entries
    requires n <= |source.keys|
  {
    if n == 0 then acc
    else
      var r := AddMissing(acc, source, n - 1);
      var v := source.keys[n - 1];
      if v in r.values || v !in source.values then r else r.Put(v, source.values[v])
  }

  /** The merge of `sources`, visited in order; earlier sources take precedence. */
  function Merge(sources: seq<Entries>): Entries
  {
    if sources == [] then Empty()
    else
      var last := sources[|sources| - 1];
      AddMissing(Merge(sources[..|sources| - 1]), last, |last.keys|)
  }

  /** Adding missing entries keeps the map well formed. */
  lemma {:induction false} AddMissingValid(acc: Entries, source: Entries, n: nat)
    requires acc.Valid() && n <= |source.keys|
    ensures AddMissing(acc, source, n).Valid()
  {
    if n > 0 {
      AddMissingValid(acc, source, n - 1);
      var v := source.keys[n - 1];
      if v in source.values {
        PutValid(AddMissing(acc, source, n - 1), v, source.values[v]);
      }
    }
  }

  /**
   * Adding missing entries never overrides: every entry of `acc` keeps its
   * mutator, and `acc`'s keys stay in front, in their order.
   */
  lemma {:induction false} AddMissingKeeps(acc: Entries, source: Entries, n: nat)
    requires n <= |source.keys|
    ensures forall v :: v in acc.values ==> v in AddMissing(acc, source, n).values && AddMissing(acc, source, n).values[v] == acc.values[v]
    ensures |acc.keys| <= |AddMissing(acc, source, n).keys| && AddMissing(acc, source, n).keys[..|acc.keys|] == acc.keys
  {
    if n > 0 {
      AddMissingKeeps(acc, source, n - 1);
      var r := AddMissing(acc, source, n - 1);
      assert r.keys[..|acc.keys|] == acc.keys;
      var v := source.keys[n - 1];
      if v !in r.values && v in source.values {
        assert r.Put(v, source.values[v]).keys[..|acc.keys|] == r.keys[..|acc.keys|];
      }
    }
  }

  /** Every variable of the result comes from `acc` or from the first `n` keys of `source`. */
  lemma {:induction false} AddMissingFrom(acc: Entries, source: Entries, n: nat, v: string)
    requires n <= |source.keys|
    requires v in AddMissing(acc, source, n).values
    ensures v in acc.values || v in source.keys[..n]
  {
    if n > 0 {
      assert source.keys[..n] == source.keys[..n - 1] + [source.keys[n - 1]];
      if v != source.keys[n - 1] {
        AddMissingFrom(acc, source, n - 1, v);
      }
    }
  }

  /** A variable `acc` lacks gets `source`'s mutator once its key has been visited. */
  lemma {:induction false} AddMissingAdds(acc: Entries, source: Entries, n: nat, v: string)
    requires source.Valid() && n <= |source.keys|
    requires v !in acc.values && v in source.keys[..n]
    ensures v in AddMissing(acc, source, n).values
    ensures AddMissing(acc, source, n).values[v] == source.values[v]
  {
    var x := source.keys[n - 1];
    assert source.keys[..n] == source.keys[..n - 1] + [x];
    if v != x {
      AddMissingAdds(acc, source, n - 1, v);
    } else if v in AddMissing(acc, source, n - 1).values {
      AddMissingFrom(acc, source, n - 1, v);
    }
  }

  /** The variables added after `acc`'s own are among the first `n` keys of `source`. */
  lemma {:induction false} AddMissingNewFrom(acc: Entries, source: Entries, n: nat)
    requires n <= |source.keys|
    ensures |acc.keys| <= |AddMissing(acc, source, n).keys|
    ensures forall y :: y in AddMissing(acc, source, n).keys[|acc.keys|..] ==> y in source.keys[..n]
  {
    AddMissingKeeps(acc, source, n);
    if n > 0 {
      AddMissingNewFrom(acc, source, n - 1);
      var prev := AddMissing(acc, source, n - 1);
      var r := AddMissing(acc, source, n);
      var a := |acc.keys|;
      forall y | y in r.keys[a..] ensures y in source.keys[..n] {
        var k :| 0 <= k < |r.keys| - a && r.keys[a..][k] == y;
        if a + k < |prev.keys| {
          assert prev.keys[a..][k] == y && y in prev.keys[a..];
          var p :| 0 <= p < n - 1 && source.keys[..n - 1][p] == y;
          assert source.keys[..n][p] == y;
        } else {
          assert source.keys[..n][n - 1] == y;
        }
      }
    }
  }

  /** The variables added after `acc`'s own keep their order in `source`. */
  lemma {:induction false} AddMissingOrder(acc: Entries, source: Entries, n: nat)
    requires Distinct(source.keys) && n <= |source.keys|
    ensures |acc.keys| <= |AddMissing(acc, source, n).keys|
    ensures OrderedBy(AddMissing(acc, source, n).keys[|acc.keys|..], source.keys)
  {
    AddMissingKeeps(acc, source, n);
    if n > 0 {
      AddMissingOrder(acc, source, n - 1);
      var prev := AddMissing(acc, source, n - 1);
      var v := source.keys[n - 1];
      if v !in prev.values && v in source.values {
        AddMissingNewFrom(acc, source, n - 1);
        DistinctNotBefore(source.keys, n - 1);
        AppendInOrderAfter(prev.keys, |acc.keys|, source.keys, n - 1);
      }
    }
  }

  /** The merge is a well-formed map. */
  lemma {:induction false} MergeValid(sources: seq<Entries>)
    requires forall i :: 0 <= i < |sources| ==> sources[i].Valid()
    ensures Merge(sources).Valid()
  {
    if sources != [] {
      var prefix := sources[..|sources| - 1];
      MergeValid(prefix);
      var last := sources[|sources| - 1];
      AddMissingValid(Merge(prefix), last, |last.keys|);
    }
  }

  /** Every merged variable is defined by some source. */
  lemma {:induction false} MergeFrom(sources: seq<Entries>, v: string)
    requires forall i :: 0 <= i < |sources| ==> sources[i].Valid()
    requires v in Merge(sources).values
    ensures exists i :: 0 <= i < |sources| && v in sources[i].values
  {
    var n := |sources|;
    var prefix := sources[..n - 1];
    var last := sources[n - 1];
    AddMissingFrom(Merge(prefix), last, |last.keys|, v);
    if v in Merge(prefix).values {
      MergeFrom(prefix, v);
      var i :| 0 <= i < n - 1 && v in prefix[i].values;
      assert sources[i] == prefix[i];
    } else {
      assert v in sources[n - 1].values;
    }
  }

  /**
   * A variable takes the mutator of the first source, in order, that defines
   * it; so every variable some source defines is in the merge.
   */
  lemma {:induction false} MergeFirstWins(sources: seq<Entries>, i: nat, v: string)
    requires forall k :: 0 <= k < |sources| ==> sources[k].Valid()
    requires i < |sources| && v in sources[i].values
    requires forall j :: 0 <= j < i ==> v !in sources[j].values
    ensures v in Merge(sources).values
    ensures Merge(sources).values[v] == sources[i].values[v]
  {
    var n := |sources|;
    var prefix := sources[..n - 1];
    var last := sources[n - 1];
    var m := Merge(prefix);
    assert last.keys[..|last.keys|] == last.keys;
    AddMissingKeeps(m, last, |last.keys|);
    if i < n - 1 {
      assert prefix[i] == sources[i];
      MergeFirstWins(prefix, i, v);
    } else {
      if v in m.values {
        MergeFrom(prefix, v);
      } else {
        AddMissingAdds(m, last, |last.keys|, v);
      }
    }
  }

  /** A variable that some source defines is in the merge. */
  lemma {:induction false} MergeHas(sources: seq<Entries>, i: nat, v: string)
    requires forall k :: 0 <= k < |sources| ==> sources[k].Valid()
    requires i < |sources| && v in sources[i].values
    ensures v in Merge(sources).values
    decreases i
  {
    if j :| 0 <= j < i && v in sources[j].values {
      MergeHas(sources, j, v);
    } else {
      MergeFirstWins(sources, i, v);
    }
  }

  /** The merged variables are exactly the variables of all sources together. */
  lemma MergeDomain(sources: seq<Entries>, v: string)
    requires forall k :: 0 <= k < |sources| ==> sources[k].Valid()
    ensures v in Merge(sources).values <==> exists i :: 0 <= i < |sources| && v in sources[i].values
  {
    if v in Merge(sources).values {
      MergeFrom(sources, v);
    }
    if i :| 0 <= i < |sources| && v in sources[i].values {
      MergeHas(sources, i, v);
    }
  }

  /**
   * A source registered later never overrides: extending the sources keeps
   * every merged mutator, the earlier merge's keys stay in front, and the
   * variables the later source adds follow them in that source's order.
   */
  lemma MergeExtend(sources: seq<Entries>, later: Entries)
    requires forall i :: 0 <= i < |sources| ==> sources[i].Valid()
    requires later.Valid()
    ensures forall v :: v in Merge(sources).values ==>
      v in Merge(sources + [later]).values && Merge(sources + [later]).values[v] == Merge(sources).values[v]
    ensures |Merge(sources).keys| <= |Merge(sources + [later]).keys|
    ensures Merge(sources + [later]).keys[..|Merge(sources).keys|] == Merge(sources).keys
    ensures OrderedBy(Merge(sources + [later]).keys[|Merge(sources).keys|..], later.keys)
  {
    assert (sources + [later])[..|sources|] == sources;
    AddMissingKeeps(Merge(sources), later, |later.keys|);
    AddMissingOrder(Merge(sources), later, |later.keys|);
  }

  // ---------------------------------------------------------------------------
  // The service
  // ---------------------------------------------------------------------------

  /** The entries registered under `ids`, in that order. */
  function SourcesOf(ids: seq<string>, collections: map<string, Entries>): (r: seq<Entries>)
    requires forall id :: id in ids ==> id in collections
    ensures |r| == |ids|
    ensures forall i :: 0 <= i < |ids| ==> r[i] == collections[ids[i]]
  {
    if ids == [] then []
    else SourcesOf(ids[..|ids| - 1], collections) + [collections[ids[|ids| - 1]]]
  }

  /** The entries of the registered collections, in registration order. */
  function Registered(collections: OrderedMap<string, Entries>): seq<Entries>
    requires collections.Valid()
  {
    SourcesOf(collections.keys, collections.values)
  }

  /** The registry is a well-formed map of well-formed collections. */
  ghost predicate RegistryValid(collections: OrderedMap<string, Entries>)
  {
    && collections.Valid()
    && (forall id :: id in collections.values ==> collections.values[id].Valid())
  }

  /** Registering a well-formed collection keeps the registry well formed. */
  lemma RegisterValid(collections: OrderedMap<string, Entries>, id: string, entries: Entries)
    requires RegistryValid(collections) && entries.Valid()
    ensures RegistryValid(collections.Put(id, entries))
  {
    PutValid(collections, id, entries);
  }

  /** Unregistering keeps the registry well formed. */
  lemma UnregisterValid(collections: OrderedMap<string, Entries>, id: string)
    requires RegistryValid(collections)
    ensures RegistryValid(collections.Remove(id))
  {
  }

  /** `merged` is the well-formed merge of a well-formed registry. */
  ghost predicate Caches(collections: OrderedMap<string, Entries>, merged: Entries)
  {
    && RegistryValid(collections)
    && merged.Valid()
    && merged == Merge(Registered(collections))
  }

  class EnvironmentVariableService {
    /** The entries of each extension's collection, in registration order. */
    var collections: OrderedMap<string, Entries>
    /** The merge of all collections, recomputed on every change. */
    var mergedCollection: EnvironmentVariableCollection
    /** Set by every change; stands for the debounced change notification. */
    var notificationRequested: bool

    /** The cached merge is the merge of the registered collections. */
    ghost predicate Valid()
      reads this, mergedCollection
    {
      Caches(collections, mergedCollection.entries)
    }

    /** No extension has contributed yet, and the merged collection is empty. */
    constructor ()
      ensures Valid() && fresh(mergedCollection)
      ensures collections == Empty() && mergedCollection.entries == Empty()
      ensures !notificationRequested
    {
      collections := Empty();
      mergedCollection := new EnvironmentVariableCollection();
      notificationRequested := false;
    }

    /** The `mergedCollection` accessor: always the merge of the current collections. */
    method MergedCollection() returns (r: EnvironmentVariableCollection)
      requires Valid()
      ensures r == mergedCollection
      ensures r.Valid() && r.entries == Merge(Registered(collections))
    {
      r := mergedCollection;
    }

    /**
     * Registers or replaces an extension's collection: a new extension goes
     * last, a known one keeps its place; the merge is recomputed at once.
     */
    method Set(extensionIdentifier: string, collection: EnvironmentVariableCollection)
      requires Valid() && collection.Valid()
      modifies this
      ensures Valid() && fresh(mergedCollection)
      ensures collections == old(collections).Put(extensionIdentifier, old(collection.entries))
      ensures mergedCollection.entries == Merge(Registered(collections))
      ensures notificationRequested
    {
      var entries := collection.entries;
      RegisterValid(collections, extensionIdentifier, entries);
      var updated := collections.Put(extensionIdentifier, entries);
      var merged := ResolveMergedCollection(updated);
      assert Caches(updated, merged.entries);
      collections, mergedCollection, notificationRequested := updated, merged, true;
    }

    /**
     * Unregisters an extension's collection; an unknown identifier leaves the
     * registry and the merged entries as they were. The merge is recomputed at
     * once.
     */
    method Delete(extensionIdentifier: string)
      requires Valid()
      modifies this
      ensures Valid() && fresh(mergedCollection)
      ensures collections == old(collections).Remove(extensionIdentifier)
      ensures extensionIdentifier !in old(collections.values) ==>
        collections == old(collections) && mergedCollection.entries == old(mergedCollection.entries)
      ensures mergedCollection.entries == Merge(Registered(collections))
      ensures notificationRequested
    {
      UnregisterValid(collections, extensionIdentifier);
      var updated := collections.Remove(extensionIdentifier);
      var merged := ResolveMergedCollection(updated);
      assert Caches(updated, merged.entries);
      collections, mergedCollection, notificationRequested := updated, merged, true;
    }

    /** A fresh collection holding the merge of the registered collections. */
    static method ResolveMergedCollection(collections: OrderedMap<string, Entries>) returns (result: EnvironmentVariableCollection)
      requires RegistryValid(collections)
      ensures fresh(result) && result.Valid()
      ensures result.entries == Merge(Registered(collections))
    {
      result := new EnvironmentVariableCollection();
      ghost var sources := Registered(collections);
      for i := 0 to |collections.keys|
        invariant fresh(result) && result.Valid()
        invariant result.entries == Merge(sources[..i])
      {
        var entries := collections.values[collections.keys[i]];
        AddMissingEntries(result, entries);
        assert sources[..i + 1][..i] == sources[..i] && entries == sources[i];
      }
      assert sources[..|collections.keys|] == sources;
    }

    /**
     * The visit of one collection during the merge: each of its entries is
     * added to `result` unless `result` already has that variable.
     */
    static method AddMissingEntries(result: EnvironmentVariableCollection, source: Entries)
      requires result.Valid()
      requires source.KeysHaveValues()
      modifies result
      ensures result.Valid()
      ensures result.entries == AddMissing(old(result.entries), source, |source.keys|)
    {
      ghost var before := result.entries;
      for j := 0 to |source.keys|
        invariant result.entries == AddMissing(before, source, j)
      {
        var variable := source.keys[j];
        if variable !in result.entries.values {
          result.SetEntry(variable, source.values[variable]);
        }
      }
      AddMissingValid(before, source, |source.keys|);
    }
  }
}
