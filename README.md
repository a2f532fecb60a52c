# Datastore feature catalog

A Dafny model of the feature catalog in the `datastore` package. Each datastore
feature is an optional capability, such as batching, checking, garbage
collection, disk usage, scrubbing, time-to-live or transactions. A store type
may implement any of them.

The package provides:

- `Features()`, the authoritative list of the seven features. Its order is the
  canonical order of features.
- A name index, `featuresByName`. Package initialisation builds it from that
  list.
- `FeaturesByName`, which resolves feature names against the index.
- `FeaturesForDatastore`, which reports which catalog features a store value
  implements, in catalog order.

The `scoped` package wraps a store so that it exposes only some of its
features. Its implementation is not part of this model. Its test states what
detection reports on the wrapped, non-nil stores, and the model specifies the
wrapper so that it reports exactly that. What the wrapper does with a nil store
is the model's own choice (see "## Left out").

Modules:

- `Sequences` holds order facts used throughout:
  - a subsequence relation;
  - duplicate-freedom;
  - a subsequence of a duplicate-free sequence is determined by its members.
- `Datastore` covers the catalog, the name index, and the two queries.
  - The index is a `Registry` class. Its constructor plays the part of
    `init()`, and its `featuresByName` field is written once.
  - `FeaturesByName` and `FeaturesForDatastore` are methods with loops. Each is
    proved equal to a specification function: `ByNames` for the first and
    `ForDatastore` for the second. Lemmas about those functions state what the
    queries promise. The loop of `FeaturesByName` is `LookUpNames`, stated for
    any list with distinct names and its index. The registry's invariant
    `Valid()` says that the index is the index of `Features()`.
- `FeaturesTest` gives the store types the package's tests use and proves each
  test's expectation.
- `Scoped` specifies the scoped view `WithFeatures` and proves what detection
  reports on it.
- `ScopedTest` proves each expectation of the scoped package's test.

How Go constructs are represented:

- Reflection (`reflect.ValueOf(dstore).Type().Implements(...)`) becomes set
  membership in the `Implements` set of a `StoreType`.
- A datastore value is `Nil`, or a value of some store type together with
  contents the catalog never reads.
- A nil slice and an empty slice are both the empty sequence.

Two behaviours the model follows deliberately:

- **Order and duplicates in `FeaturesByName`.** `FeaturesByName`
  (features.go:104-111) walks the requested names, not the catalog. Its result
  is therefore in request order, with one entry for every known name
  occurrence; a name requested twice appears twice. It is not sorted into
  catalog order and not deduplicated. The model follows the code, and
  `FeaturesTest.KeepsRequestOrder` shows the difference on a concrete request.
- **The scoped test's empty request.** The first case of the scoped test
  (scoped/scoped_test.go:18-23) expects a "base datastore": a view that
  exposes only the base `Datastore` interface, so detection reports no
  features although a bare `MapDatastore` supports batching. This rules out
  returning the store unwrapped when nothing is requested. The model follows
  it: an empty request grants nothing.

## Model

| member | source | states |
|---|---|---|
| Datastore.Features | features.go:62-101 | The catalog has exactly seven entries. No two entries share a name, and no two share a capability interface. |
| Datastore.CatalogOrder | features.go:62-101 | The catalog names, in order, are Batching, Checked, GC, Persistent, Scrubbed, TTL, Transaction. |
| Datastore.CatalogCovers | features.go:62-101 | Every capability interface has a catalog entry. |
| Datastore.CatalogDistinct | features.go:62-101 | The catalog lists no entry twice. |
| Datastore.CatalogEntryUnique | features.go:62-101 | Two catalog entries with the same name, or with the same interface, are the same entry. |
| Datastore.FindByName | features.go:106 | A lookup by name in a feature list succeeds exactly when the name occurs in the list. What it finds is a list entry with that name. |
| Datastore.FindEntry | features.go:52-57 | When a list has no repeated names, looking up an entry's name finds that entry. |
| Datastore.Resolve | features.go:106-108 | One requested name contributes at most one feature. It contributes a feature exactly when the name is a catalog name, and that feature is the catalog entry with the name. |
| Datastore.IndexByName | features.go:52-57 | The index built from a catalog with distinct names has exactly the catalog names as keys. It maps each entry's name to that entry. |
| Datastore.IndexAgrees | features.go:106 | Looking a name up in the index agrees with resolving it against the catalog, whether the name is known or unknown. |
| Datastore.ResolveStep | features.go:105-108 | Handling one more requested name appends that name's index entry to the result, or nothing when the name is not in the index. |
| Datastore.Registry.constructor | features.go:50-57 | After initialisation, the index is built from `Features()` and is exactly the index of that catalog. |
| Datastore.ByNamesIn | features.go:104-111 | Resolving names against a list gives at most one entry per requested name. |
| Datastore.ByNames | features.go:104-111 | What `FeaturesByName` returns: at most one feature per requested name, and no features for an empty request. |
| Datastore.LookUpNames | features.go:105-109 | The loop looks each name up in the index of a list and appends the entry when the name is known. Its result equals resolving the names against that list. |
| Datastore.Registry.FeaturesByName | features.go:104-111 | On an initialised registry, the result is `ByNames` of the request: the catalog entries of the known requested names, in request order and one per occurrence. Unknown names are skipped. |
| Datastore.ByNamesMembers | features.go:104-111 | Every feature returned by name is a catalog entry whose name was requested. |
| Datastore.ByNamesAppend | features.go:105-109 | Resolving a concatenation of requests gives the concatenation of the results, so the result keeps the request order. |
| Datastore.ByNamesSingle | features.go:105-109 | A single-name request gives that name's resolution. |
| Datastore.SkipsUnknown | features.go:106 | Removing an unknown name from anywhere in a request does not change the result. |
| Datastore.ByNamesAllKnown | features.go:105-109 | When every requested name is known, the result has one entry per requested name. Position by position, each entry carries the requested name. |
| Datastore.ByNamesOfNames | features.go:104-111 | Resolving the names of any list of catalog entries gives back exactly that list, in its order and with its repeats. |
| Datastore.Implemented | features.go:119-124 | Filtering a feature list by a set of implemented interfaces keeps its order. It keeps exactly the entries whose interface is implemented. |
| Datastore.ImplementedAppend | features.go:119-124 | Filtering distributes over concatenation. |
| Datastore.ForDatastore | features.go:114-126 | What `FeaturesForDatastore` returns: a feature is in it exactly when the store is not nil, the feature is a catalog entry, and the store's type implements its interface. |
| Datastore.ForDatastoreShape | features.go:114-126 | The supported features are a subsequence of the catalog, without repeats and at most seven. They are exactly the catalog entries whose interface the store's type implements. A nil store supports none. |
| Datastore.ForDatastoreTypeOnly | features.go:118-124 | The supported features depend only on the store's type, not on its contents. |
| Datastore.FeaturesForDatastore | features.go:114-126 | The loop returns no features for a nil store. Otherwise it returns the catalog filtered by the store type's interfaces. |
| FeaturesTest.FeaturesByNameCases | features_test.go:8-26 | An empty request gives no features. "Batching" gives the batching entry, and "Batching" followed by "UnknownFeature" gives only the batching entry. |
| FeaturesTest.ResolveBatching | features_test.go:14-20 | "Batching" resolves to the entry with the batching interfaces. |
| FeaturesTest.UnknownSkipped | features_test.go:22-25 | An unknown name after a known one is dropped. |
| FeaturesTest.KeepsRequestOrder | features.go:105-109 | Requesting Checked, Batching, Checked gives the Checked entry, then the Batching entry, then the Checked entry again. |
| FeaturesTest.FeaturesForDatastoreCases | features_test.go:28-63 | For `MapDatastore` and `NullDatastore`, detection equals resolving "Batching". For `LogDatastore`, it equals resolving Batching, Checked, GC, Persistent and Scrubbed. This holds whatever the stores hold. |
| FeaturesTest.BatchingOnly | features_test.go:34-43 | Any store type that implements only batching supports exactly the batching feature. |
| FeaturesTest.LogStore | features_test.go:44-48 | The log store supports the first five catalog features, in catalog order. |
| Scoped.KeepNamed | scoped/scoped_test.go:36-41 | Restricting a feature list to a set of names keeps its order. It keeps exactly the entries whose name is in the set. |
| Scoped.Granted | scoped/scoped_test.go:36-41 | The features a scoped view grants keep the order of what the store supports. A feature is granted exactly when the store supports it and its name was requested. |
| Scoped.WithFeatures | scoped/scoped_test.go:45-46 | A scoped view is nil exactly when the wrapped store is nil. Otherwise it shares the wrapped store's contents. |
| Scoped.GrantedShape | scoped/scoped_test.go:43-52 | The granted features are a catalog-ordered subsequence, without repeats, of what the wrapped store supports. |
| Scoped.WithFeaturesExposes | scoped/scoped_test.go:43-52 | Detection on a scoped view reports exactly the granted features, in catalog order. |
| Scoped.NothingRequested | scoped/scoped_test.go:18-23 | Requesting no features grants none. |
| Scoped.KeepNamedAll | scoped/scoped_test.go:24-29 | Requesting every supported feature grants all of them. |
| Scoped.GrantedIsIntersection | scoped/scoped_test.go:36-41 | A request made by names grants exactly the features that were both resolved and supported. |
| Scoped.WithFeaturesComposes | scoped/scoped_test.go:45-46 | Scoping an already scoped view narrows it further: the result is what the first scope granted, restricted to the second request's names. |
| ScopedTest.NoFeaturesRequested | scoped/scoped_test.go:18-23 | A map store scoped to no features exposes no features. |
| ScopedTest.IdentityCase | scoped/scoped_test.go:24-29 | A map store scoped to batching exposes batching. |
| ScopedTest.ScopesDown | scoped/scoped_test.go:30-35 | A log store scoped to batching exposes only batching. |
| ScopedTest.TakesIntersection | scoped/scoped_test.go:36-41 | A map store scoped to batching and checked exposes only batching. |

## Left out

- The method sets of the capability interfaces (features.go:9-39) are not modelled. They are declarations with no behaviour here, and their contexts, durations and store I/O are out of scope. A feature is identified by tags for its two interfaces.
- Go reflection is left out. It is replaced by the set of capability interfaces a store type implements.
- The concrete stores `MapDatastore`, `NullDatastore` and `LogDatastore` are not part of this model. They appear only as the interface sets their tests expect.
- Scoped.WithFeatures: the scoped package's implementation is not part of this model. The function specifies the wrapper by the interfaces it implements, which is what its test observes on non-nil stores; how the wrapper forwards calls is not modelled. That a nil store gives a nil view is the model's own choice: no test passes a nil store, and detection reports no features for either answer.
- The append-only rule for the catalog (features.go:63) governs future versions of the list and is not modelled. The model fixes the current list.
- The difference between a nil slice and an empty slice (features_test.go:10) is not modelled; both are the empty sequence.
- Package initialisation order and concurrent access are not modelled. The index is written once by the constructor and only read afterwards.
