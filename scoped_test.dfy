/**
 * The expectations of the scoped package's test, stated as lemmas about the
 * features detected on a scoped view.
 */
module ScopedTest {
  import opened Sequences
  import opened Datastore
  import opened Scoped
  import opened FeaturesTest

  lemma NoFeaturesRequested(state: Option<Entries>)
    ensures ForDatastore(WithFeatures(Value(MapDatastoreType, state), [])) == []
  {
    WithFeaturesExposes(Value(MapDatastoreType, state), []);
    NothingRequested(Value(MapDatastoreType, state));
  }

  lemma IdentityCase(state: Option<Entries>)
    ensures ForDatastore(WithFeatures(Value(MapDatastoreType, state), ByNames(["Batching"]))) == ByNames(["Batching"])
  {
    var d := Value(MapDatastoreType, state);
    WithFeaturesExposes(d, ByNames(["Batching"]));
    BatchingOnly(MapDatastoreType, state);
    ResolveBatching();
    assert NamesOf([BatchingEntry]) == ["Batching"];
  }

  lemma ScopesDown(state: Option<Entries>)
    ensures ForDatastore(WithFeatures(Value(LogDatastoreType, state), ByNames(["Batching"]))) == ByNames(["Batching"])
  {
    var d := Value(LogDatastoreType, state);
    var requested := ByNames(["Batching"]);
    var g := Granted(d, requested);
    WithFeaturesExposes(d, requested);
    ResolveBatching();
    assert NamesOf(requested) == ["Batching"];
    BatchingOnly(MapDatastoreType, state);
    ForDatastoreShape(Value(MapDatastoreType, state));
    ForDatastoreShape(d);
    GrantedShape(d, requested);
    forall f ensures f in g <==> f in requested {
      if f in g {
        CatalogEntryUnique(f, BatchingEntry);
      }
      if f in requested {
        assert f == BatchingEntry;
        assert f in ForDatastore(d);
      }
    }
    CatalogDistinct();
    SubseqUnique(g, requested, Features());
  }

  lemma TakesIntersection(state: Option<Entries>)
    ensures ForDatastore(WithFeatures(Value(MapDatastoreType, state), ByNames(["Batching", "Checked"]))) == ByNames(["Batching"])
  {
    var d := Value(MapDatastoreType, state);
    var requested := ByNames(["Batching", "Checked"]);
    WithFeaturesExposes(d, requested);
    BatchingOnly(MapDatastoreType, state);
    ResolveEntry(Features()[0]);
    ResolveTwo(Features(), "Batching", "Checked");
    assert BatchingEntry in requested;
    NamesOfContains(requested, BatchingEntry);
    KeepNamedAll(ForDatastore(d), NamesOf(requested));
  }
}
