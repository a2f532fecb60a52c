/**
 * The stores and expectations of the package's tests, stated as lemmas
 * about the catalog, the name lookup and detection.
 */
module FeaturesTest {
  import opened Datastore

  /** Concrete store types used by the tests, described by the feature
      interfaces the tests expect them to implement. */
  const MapDatastoreType := StoreType("*MapDatastore", {BatchingFeature})
  const NullDatastoreType := StoreType("*NullDatastore", {BatchingFeature})
  const LogDatastoreType :=
    StoreType("*LogDatastore", {BatchingFeature, CheckedFeature, GCFeature, PersistentFeature, ScrubbedFeature})

  const BatchingEntry := Feature("Batching", BatchingFeature, Batching)
  const CheckedEntry := Feature("Checked", CheckedFeature, CheckedDatastore)

  lemma FeaturesByNameCases()
    ensures ByNames([]) == []
    ensures ByNames(["Batching"]) == [BatchingEntry]
    ensures ByNames(["Batching", "UnknownFeature"]) == [BatchingEntry]
  {
    ResolveBatching();
    UnknownSkipped();
  }

  lemma ResolveBatching()
    ensures ByNames(["Batching"]) == [BatchingEntry]
  {
    ResolveEntry(Features()[0]);
    ByNamesSingle(Features(), "Batching");
  }

  lemma UnknownSkipped()
    ensures ByNames(["Batching", "UnknownFeature"]) == [BatchingEntry]
  {
    var cat := Features();
    ResolveEntry(cat[0]);
    CatalogNamesShort();
    ResolveLongName(cat, "UnknownFeature");
    ResolveTwo(cat, "Batching", "UnknownFeature");
  }

  /** A name longer than every name in `cat` resolves to nothing. */
  lemma {:induction false} ResolveLongName(cat: seq<Feature>, n: string)
    requires forall f | f in cat :: |f.Name| < |n|
    ensures Resolve(cat, n) == []
  {
    if cat != [] {
      assert cat[0] in cat;
      assert forall f | f in cat[1..] :: f in cat;
      ResolveLongName(cat[1..], n);
    }
  }

  /** No catalog name is longer than eleven characters. */
  lemma CatalogNamesShort()
    ensures forall f | f in Features() :: |f.Name| <= 11
  {
  }

  lemma ResolveTwo(cat: seq<Feature>, a: string, b: string)
    ensures ByNamesIn(cat, [a, b]) == Resolve(cat, a) + Resolve(cat, b)
  {
    assert [a, b] == [a] + [b];
    ByNamesAppend(cat, [a], [b]);
    ByNamesSingle(cat, a);
    ByNamesSingle(cat, b);
  }

  /** Resolving the name of a catalog entry gives that entry. */
  lemma ResolveEntry(f: Feature)
    requires f in Features()
    ensures Resolve(Features(), f.Name) == [f]
  {
    FindEntry(Features(), f);
  }

  /** Names resolve in the order given and once per occurrence: neither
      sorted into catalog order nor deduplicated. */
  lemma KeepsRequestOrder()
    ensures ByNames(["Checked", "Batching", "Checked"]) == [CheckedEntry, BatchingEntry, CheckedEntry]
  {
    ResolveCheckedName();
    ResolveBatchingName();
    ResolveThree(Features(), "Checked", "Batching", "Checked");
  }

  lemma ResolveBatchingName()
    ensures Resolve(Features(), "Batching") == [BatchingEntry]
  {
    ResolveEntry(Features()[0]);
  }

  lemma ResolveCheckedName()
    ensures Resolve(Features(), "Checked") == [CheckedEntry]
  {
    ResolveEntry(Features()[1]);
  }

  lemma ResolveThree(cat: seq<Feature>, a: string, b: string, c: string)
    ensures ByNamesIn(cat, [a, b, c]) == Resolve(cat, a) + Resolve(cat, b) + Resolve(cat, c)
  {
    assert [a, b, c] == [a] + ([b] + [c]);
    ByNamesAppend(cat, [a], [b] + [c]);
    ByNamesAppend(cat, [b], [c]);
    ByNamesSingle(cat, a);
    ByNamesSingle(cat, b);
    ByNamesSingle(cat, c);
  }

  lemma {:induction false} ImplementedAll(fs: seq<Feature>, impl: set<FeatureInterface>)
    requires forall f | f in fs :: f.Interface in impl
    ensures Implemented(fs, impl) == fs
  {
    if fs != [] {
      assert forall f | f in fs[1..] :: f in fs;
      ImplementedAll(fs[1..], impl);
      assert fs == [fs[0]] + fs[1..];
    }
  }

  lemma {:induction false} ImplementedNone(fs: seq<Feature>, impl: set<FeatureInterface>)
    requires forall f | f in fs :: f.Interface !in impl
    ensures Implemented(fs, impl) == []
  {
    if fs != [] {
      assert forall f | f in fs[1..] :: f in fs;
      ImplementedNone(fs[1..], impl);
    }
  }

  /** Detection for a type that implements exactly the first `k` catalog
      interfaces yields the first `k` catalog entries. */
  lemma ImplementedPrefix(cat: seq<Feature>, impl: set<FeatureInterface>, k: nat)
    requires k <= |cat|
    requires forall i | 0 <= i < k :: cat[i].Interface in impl
    requires forall i | k <= i < |cat| :: cat[i].Interface !in impl
    ensures Implemented(cat, impl) == cat[..k]
  {
    assert cat == cat[..k] + cat[k..];
    forall f | f in cat[..k] ensures f.Interface in impl {
      var i :| 0 <= i < k && cat[..k][i] == f;
      assert cat[i] == f;
    }
    forall f | f in cat[k..] ensures f.Interface !in impl {
      var i :| 0 <= i < |cat| - k && cat[k..][i] == f;
      assert cat[k + i] == f;
    }
    ImplementedAppend(cat[..k], cat[k..], impl);
    ImplementedAll(cat[..k], impl);
    ImplementedNone(cat[k..], impl);
  }

  /** Detection for the test stores, whatever their contents, agrees with
      resolving the expected feature names. */
  lemma FeaturesForDatastoreCases(state: Option<Entries>)
    ensures ForDatastore(Value(MapDatastoreType, state)) == ByNames(["Batching"])
    ensures ForDatastore(Value(NullDatastoreType, state)) == ByNames(["Batching"])
    ensures ForDatastore(Value(LogDatastoreType, state)) == ByNames(["Batching", "Checked", "GC", "Persistent", "Scrubbed"])
  {
    BatchingOnly(MapDatastoreType, state);
    BatchingOnly(NullDatastoreType, state);
    LogStore(state);
  }

  /** The catalog prefixes the tests name. */
  lemma FirstCatalogName()
    ensures NamesOf(Features()[..1]) == ["Batching"]
  {
    var cat := Features();
    CatalogOrder();
    NamesAppend(cat[..1], cat[1..]);
    assert cat == cat[..1] + cat[1..];
  }

  lemma FirstFiveCatalogNames()
    ensures NamesOf(Features()[..5]) == ["Batching", "Checked", "GC", "Persistent", "Scrubbed"]
  {
    var cat := Features();
    CatalogOrder();
    NamesAppend(cat[..5], cat[5..]);
    assert cat == cat[..5] + cat[5..];
  }

  /** Resolving the names of a catalog prefix gives that prefix. */
  lemma ResolvePrefix(k: nat, names: seq<string>)
    requires k <= |Features()| && names == NamesOf(Features()[..k])
    ensures ByNames(names) == Features()[..k]
  {
    ByNamesOfNames(Features(), Features()[..k]);
  }

  lemma BatchingOnly(t: StoreType, state: Option<Entries>)
    requires t.Implements == {BatchingFeature}
    ensures ForDatastore(Value(t, state)) == ByNames(["Batching"])
  {
    ImplementedPrefix(Features(), t.Implements, 1);
    FirstCatalogName();
    ResolvePrefix(1, ["Batching"]);
  }

  lemma LogStore(state: Option<Entries>)
    ensures ForDatastore(Value(LogDatastoreType, state)) == ByNames(["Batching", "Checked", "GC", "Persistent", "Scrubbed"])
  {
    LogStoreDetects(state);
    FirstFiveCatalogNames();
    ResolvePrefix(5, ["Batching", "Checked", "GC", "Persistent", "Scrubbed"]);
  }

  lemma LogStoreDetects(state: Option<Entries>)
    ensures ForDatastore(Value(LogDatastoreType, state)) == Features()[..5]
  {
    ImplementedPrefix(Features(), LogDatastoreType.Implements, 5);
  }
}
