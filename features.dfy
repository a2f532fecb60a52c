/**
 * The datastore feature catalog: the optional capabilities a datastore may
 * implement, listed once in a canonical order; the index from feature name to
 * feature that package initialisation builds from that list; and the two
 * queries over the catalog, by feature name and by datastore.
 */
module Datastore {
  import opened Sequences

  datatype Option<T> = None | Some(value: T)

  /** The optional capability interfaces. Their method sets are not modelled:
      a feature is identified by the interface it stands for. */
  datatype FeatureInterface =
    | BatchingFeature
    | CheckedFeature
    | GCFeature
    | PersistentFeature
    | ScrubbedFeature
    | TTL
    | TxnFeature

  /** The datastore interfaces that extend the base Datastore with one feature. */
  datatype DatastoreInterface =
    | Batching
    | CheckedDatastore
    | GCDatastore
    | PersistentDatastore
    | ScrubbedDatastore
    | TTLDatastore
    | TxnDatastore

  /** Metadata about one feature. The Go value holds typed nil pointers to the
      two interfaces; here it holds their tags. */
  datatype Feature = Feature(Name: string, Interface: FeatureInterface, DatastoreInterface: DatastoreInterface)

  /** The names of `fs`, in order. */
  function NamesOf(fs: seq<Feature>): (names: seq<string>)
    ensures |names| == |fs|
  {
    if fs == [] then [] else [fs[0].Name] + NamesOf(fs[1..])
  }

  lemma {:induction false} NamesAppend(a: seq<Feature>, b: seq<Feature>)
    ensures NamesOf(a + b) == NamesOf(a) + NamesOf(b)
  {
    if a != [] {
      assert (a + b)[1..] == a[1..] + b;
      NamesAppend(a[1..], b);
    } else {
      assert a + b == b;
    }
  }

  /** No two features in `fs` share a name. */
  predicate DistinctNames(fs: seq<Feature>) {
    forall i, j | 0 <= i < j < |fs| :: fs[i].Name != fs[j].Name
  }

  /** The authoritative list of all features, which also fixes their canonical
      order. New features are only ever appended. */
  function Features(): (fs: seq<Feature>)
    ensures |fs| == 7
    ensures DistinctNames(fs)
    ensures forall i, j | 0 <= i < j < |fs| :: fs[i].Interface != fs[j].Interface
  {
    [
      Feature("Batching", BatchingFeature, Batching),
      Feature("Checked", CheckedFeature, CheckedDatastore),
      Feature("GC", GCFeature, GCDatastore),
      Feature("Persistent", PersistentFeature, PersistentDatastore),
      Feature("Scrubbed", ScrubbedFeature, ScrubbedDatastore),
      Feature("TTL", TTL, TTLDatastore),
      Feature("Transaction", TxnFeature, TxnDatastore)
    ]
  }

  /** The catalog names, in catalog order. */
  lemma CatalogOrder()
    ensures NamesOf(Features()) == ["Batching", "Checked", "GC", "Persistent", "Scrubbed", "TTL", "Transaction"]
  {
    var fs := Features();
    assert NamesOf(fs[6..]) == ["Transaction"];
    assert NamesOf(fs[5..]) == ["TTL", "Transaction"];
    assert NamesOf(fs[4..]) == ["Scrubbed", "TTL", "Transaction"];
    assert NamesOf(fs[3..]) == ["Persistent", "Scrubbed", "TTL", "Transaction"];
    assert NamesOf(fs[2..]) == ["GC", "Persistent", "Scrubbed", "TTL", "Transaction"];
    assert NamesOf(fs[1..]) == ["Checked", "GC", "Persistent", "Scrubbed", "TTL", "Transaction"];
  }

  /** Every capability interface has its entry in the catalog. */
  lemma CatalogCovers(t: FeatureInterface)
    ensures exists f | f in Features() :: f.Interface == t
  {
    var fs := Features();
    match t
    case BatchingFeature => assert fs[0].Interface == t;
    case CheckedFeature => assert fs[1].Interface == t;
    case GCFeature => assert fs[2].Interface == t;
    case PersistentFeature => assert fs[3].Interface == t;
    case ScrubbedFeature => assert fs[4].Interface == t;
    case TTL => assert fs[5].Interface == t;
    case TxnFeature => assert fs[6].Interface == t;
  }

  /** Distinct names make the catalog itself duplicate-free. */
  lemma {:induction false} CatalogDistinct()
    ensures Distinct(Features())
  {
    var fs := Features();
    forall i, j | 0 <= i < j < |fs| ensures fs[i] != fs[j] {
      assert fs[i].Name != fs[j].Name;
    }
  }

  /** A catalog entry is identified by its name, and by its interface. */
  lemma CatalogEntryUnique(f: Feature, g: Feature)
    requires f in Features() && g in Features()
    requires f.Name == g.Name || f.Interface == g.Interface
    ensures f == g
  {
    var fs := Features();
    var i :| 0 <= i < |fs| && fs[i] == f;
    var j :| 0 <= j < |fs| && fs[j] == g;
    assert i == j;
  }

  /** The name of every entry of `fs` is among `NamesOf(fs)`. */
  lemma {:induction false} NamesOfContains(fs: seq<Feature>, f: Feature)
    requires f in fs
    ensures f.Name in NamesOf(fs)
  {
    if fs[0] != f {
      NamesOfContains(fs[1..], f);
    }
  }

  /** The first feature of `fs` named `n`, if there is one. */
  function FindByName(fs: seq<Feature>, n: string): (o: Option<Feature>)
    ensures o.Some? <==> n in NamesOf(fs)
    ensures o.Some? ==> o.value in fs && o.value.Name == n
  {
    if fs == [] then None
    else if fs[0].Name == n then Some(fs[0])
    else FindByName(fs[1..], n)
  }

  /** In a catalog without repeated names, looking up the name of an entry
      finds that entry. */
  lemma {:induction false} FindEntry(cat: seq<Feature>, f: Feature)
    requires DistinctNames(cat) && f in cat
    ensures FindByName(cat, f.Name) == Some(f)
  {
    if cat[0] != f {
      var k :| 0 <= k < |cat| && cat[k] == f;
      assert k > 0 && cat[0].Name != cat[k].Name;
      assert cat[1..][k - 1] == f;
      assert DistinctNames(cat[1..]) by {
        forall i, j | 0 <= i < j < |cat| - 1 ensures cat[1..][i].Name != cat[1..][j].Name {
          assert cat[1..][i] == cat[i + 1] && cat[1..][j] == cat[j + 1];
        }
      }
      FindEntry(cat[1..], f);
    }
  }

  /** The entries a single requested name resolves to in `cat`: the entry of
      that name if there is one, otherwise none. */
  function Resolve(cat: seq<Feature>, n: string): (r: seq<Feature>)
    ensures |r| <= 1
    ensures r != [] <==> n in NamesOf(cat)
    ensures forall f | f in r :: f in cat && f.Name == n
  {
    match FindByName(cat, n)
    case Some(f) => [f]
    case None => []
  }

  /** Resolving `names` against `cat`: walking the names in order, the entry
      for each known name; unknown names are skipped. */
  function ByNamesIn(cat: seq<Feature>, names: seq<string>): (r: seq<Feature>)
    ensures |r| <= |names|
  {
    if names == [] then []
    else
      Resolve(cat, names[0]) + ByNamesIn(cat, names[1..])
  }

  /** What `FeaturesByName` returns: the requested names resolved against
      the catalog. */
  function ByNames(names: seq<string>): (r: seq<Feature>)
    ensures |r| <= |names|
    ensures names == [] ==> r == []
  {
    ByNamesIn(Features(), names)
  }

  /** Every resolved entry is an entry of the catalog whose name was
      requested. */
  lemma {:induction false} ByNamesMembers(cat: seq<Feature>, names: seq<string>)
    ensures forall f | f in ByNamesIn(cat, names) :: f in cat && f.Name in names
  {
    if names != [] {
      ByNamesMembers(cat, names[1..]);
      assert forall n | n in names[1..] :: n in names;
    }
  }

  /** Resolving a concatenation of name lists resolves each part in turn. */
  lemma {:induction false} ByNamesAppend(cat: seq<Feature>, a: seq<string>, b: seq<string>)
    ensures ByNamesIn(cat, a + b) == ByNamesIn(cat, a) + ByNamesIn(cat, b)
  {
    if a == [] {
      assert a + b == b;
    } else {
      assert (a + b)[0] == a[0];
      assert (a + b)[1..] == a[1..] + b;
      ByNamesAppend(cat, a[1..], b);
    }
  }

  /** A single name resolves to its entry, or to nothing. */
  lemma ByNamesSingle(cat: seq<Feature>, n: string)
    ensures ByNamesIn(cat, [n]) == Resolve(cat, n)
  {
    assert [n][1..] == [];
  }

  /** Unknown names are dropped without affecting the rest of the result. */
  lemma SkipsUnknown(cat: seq<Feature>, a: seq<string>, n: string, b: seq<string>)
    requires n !in NamesOf(cat)
    ensures ByNamesIn(cat, a + [n] + b) == ByNamesIn(cat, a + b)
  {
    ByNamesAppend(cat, a + [n], b);
    ByNamesAppend(cat, a, [n]);
    ByNamesAppend(cat, a, b);
    ByNamesSingle(cat, n);
  }

  /** When every requested name is known, the result has one entry per
      requested name, in the order requested, repeats included. */
  lemma {:induction false} ByNamesAllKnown(cat: seq<Feature>, names: seq<string>)
    requires forall n | n in names :: n in NamesOf(cat)
    ensures |ByNamesIn(cat, names)| == |names|
    ensures forall k | 0 <= k < |names| :: ByNamesIn(cat, names)[k].Name == names[k]
  {
    if names != [] {
      assert forall n | n in names[1..] :: n in names;
      ByNamesAllKnown(cat, names[1..]);
      var r := ByNamesIn(cat, names);
      assert r == Resolve(cat, names[0]) + ByNamesIn(cat, names[1..]);
      forall k | 0 <= k < |names| ensures r[k].Name == names[k] {
        if k > 0 {
          assert r[k] == ByNamesIn(cat, names[1..])[k - 1];
        }
      }
    }
  }

  /** Resolving the names of entries of a catalog without repeated names
      gives those entries back. */
  lemma {:induction false} ByNamesOfNames(cat: seq<Feature>, r: seq<Feature>)
    requires DistinctNames(cat)
    requires forall f | f in r :: f in cat
    ensures ByNamesIn(cat, NamesOf(r)) == r
  {
    if r != [] {
      var names := NamesOf(r);
      assert names[0] == r[0].Name && names[1..] == NamesOf(r[1..]);
      assert forall f | f in r[1..] :: f in r;
      ByNamesOfNames(cat, r[1..]);
      FindEntry(cat, r[0]);
      calc {
        ByNamesIn(cat, names);
        Resolve(cat, r[0].Name) + ByNamesIn(cat, NamesOf(r[1..]));
        [r[0]] + r[1..];
      }
    }
  }

  /** `index` is the name index of `cat`: its keys are exactly the names in
      `cat`, and each name maps to the entry of that name. */
  ghost predicate IsIndexOf(index: map<string, Feature>, cat: seq<Feature>) {
    && (forall n :: n in index <==> n in NamesOf(cat))
    && (forall f | f in cat :: f.Name in index && index[f.Name] == f)
  }

  /** The index and a search of the catalog agree on every name. */
  lemma IndexAgrees(index: map<string, Feature>, cat: seq<Feature>, n: string)
    requires DistinctNames(cat) && IsIndexOf(index, cat)
    ensures Resolve(cat, n) == if n in index then [index[n]] else []
  {
    if n in index {
      var f := FindByName(cat, n).value;
      FindEntry(cat, f);
    }
  }

  /** One step of resolving names through the index. */
  lemma ResolveStep(index: map<string, Feature>, cat: seq<Feature>, done: seq<string>, n: string)
    requires DistinctNames(cat) && IsIndexOf(index, cat)
    ensures ByNamesIn(cat, done + [n]) == ByNamesIn(cat, done) + if n in index then [index[n]] else []
  {
    IndexAgrees(index, cat, n);
    ByNamesAppend(cat, done, [n]);
    ByNamesSingle(cat, n);
  }

  /** Package initialisation: index every entry of `cat` by its name. */
  method IndexByName(cat: seq<Feature>) returns (index: map<string, Feature>)
    requires DistinctNames(cat)
    ensures IsIndexOf(index, cat)
  {
    index := map[];
    for i := 0 to |cat|
      invariant forall n :: n in index <==> n in NamesOf(cat[..i])
      invariant forall k | 0 <= k < i :: cat[k].Name in index && index[cat[k].Name] == cat[k]
    {
      assert cat[..i + 1] == cat[..i] + [cat[i]];
      NamesAppend(cat[..i], [cat[i]]);
      var old_index := index;
      index := index[cat[i].Name := cat[i]];
      forall k | 0 <= k < i + 1 ensures cat[k].Name in index && index[cat[k].Name] == cat[k] {
        if k < i {
          assert cat[k].Name != cat[i].Name;
          assert index[cat[k].Name] == old_index[cat[k].Name];
        }
      }
    }
    assert cat[..|cat|] == cat;
    forall f | f in cat ensures f.Name in index && index[f.Name] == f {
      var k :| 0 <= k < |cat| && cat[k] == f;
    }
  }

  /** The package state: the name index, written once when the package is
      initialised and only read afterwards. */
  class Registry {
    const featuresByName: map<string, Feature>
    /** The list the index was built from: always the catalog. */
    ghost const catalog: seq<Feature>

    ghost predicate Valid() {
      catalog == Features() && DistinctNames(catalog) && IsIndexOf(featuresByName, catalog)
    }

    constructor ()
      ensures Valid() && catalog == Features()
    {
      var index := IndexByName(Features());
      catalog := Features();
      featuresByName := index;
    }

    /** The features with the given names, in the order the names are given,
        one per known name; unknown names are skipped. */
    method FeaturesByName(names: seq<string>) returns (features: seq<Feature>)
      requires Valid()
      ensures features == ByNames(names)
    {
      features := LookUpNames(featuresByName, catalog, names);
    }
  }

  /** The loop of `FeaturesByName`: look each name up in `index`, the index
      of `cat`, and append the entry when the name is known. */
  method LookUpNames(index: map<string, Feature>, ghost cat: seq<Feature>, names: seq<string>)
    returns (features: seq<Feature>)
    requires DistinctNames(cat) && IsIndexOf(index, cat)
    ensures features == ByNamesIn(cat, names)
  {
    features := [];
    for i := 0 to |names|
      invariant features == ByNamesIn(cat, names[..i])
    {
      var n := names[i];
      assert names[..i + 1] == names[..i] + [n];
      ResolveStep(index, cat, names[..i], n);
      if n in index {
        features := features + [index[n]];
      }
    }
    assert names[..|names|] == names;
  }

  /** A concrete type a datastore value can have, seen through the set of
      capability interfaces its method set satisfies. */
  datatype StoreType = StoreType(Name: string, Implements: set<FeatureInterface>)

  /** The key/value contents of a store; never inspected here. */
  type Entries = map<string, seq<bv8>>

  /** A value of the Datastore interface: nil, or a value of some concrete
      type. `State` is `None` for a nil pointer of that type. */
  datatype Datastore =
    | Nil
    | Value(Type: StoreType, State: Option<Entries>)

  /** The entries of `fs` whose interface is in `impl`, in the order of `fs`. */
  function Implemented(fs: seq<Feature>, impl: set<FeatureInterface>): (r: seq<Feature>)
    ensures IsSubseq(r, fs)
    ensures forall f :: f in r <==> f in fs && f.Interface in impl
  {
    if fs == [] then []
    else
      var rest := Implemented(fs[1..], impl);
      assert forall f :: f in fs <==> f == fs[0] || f in fs[1..];
      if fs[0].Interface in impl then [fs[0]] + rest else rest
  }

  lemma {:induction false} ImplementedAppend(a: seq<Feature>, b: seq<Feature>, impl: set<FeatureInterface>)
    ensures Implemented(a + b, impl) == Implemented(a, impl) + Implemented(b, impl)
  {
    if a == [] {
      assert a + b == b;
    } else {
      assert (a + b)[0] == a[0];
      assert (a + b)[1..] == a[1..] + b;
      ImplementedAppend(a[1..], b, impl);
    }
  }

  /** What `FeaturesForDatastore` returns: nothing for nil, otherwise the
      catalog entries whose interface the value's type implements. */
  function ForDatastore(d: Datastore): (r: seq<Feature>)
    ensures forall f :: f in r <==> d.Value? && f in Features() && f.Interface in d.Type.Implements
  {
    match d
    case Nil => []
    case Value(t, _) => Implemented(Features(), t.Implements)
  }

  /** The supported features are a catalog-ordered selection of the catalog:
      without repeats, at most seven, and exactly those the type implements;
      a nil store supports none. */
  lemma ForDatastoreShape(d: Datastore)
    ensures IsSubseq(ForDatastore(d), Features())
    ensures Distinct(ForDatastore(d)) && |ForDatastore(d)| <= 7
    ensures forall f :: f in ForDatastore(d) <==> d.Value? && f in Features() && f.Interface in d.Type.Implements
    ensures d.Nil? ==> ForDatastore(d) == []
  {
    var r := ForDatastore(d);
    assert IsSubseq(r, Features());
    CatalogDistinct();
    SubseqDistinct(r, Features());
    SubseqLength(r, Features());
  }

  /** Detection depends on the value's type only, never on its contents. */
  lemma ForDatastoreTypeOnly(d1: Datastore, d2: Datastore)
    requires d1.Value? && d2.Value? && d1.Type.Implements == d2.Type.Implements
    ensures ForDatastore(d1) == ForDatastore(d2)
  {
  }

  /** The features the given datastore supports, in catalog order. */
  method FeaturesForDatastore(dstore: Datastore) returns (features: seq<Feature>)
    ensures features == ForDatastore(dstore)
  {
    if dstore.Nil? {
      return [];
    }
    var dstoreType := dstore.Type;
    var catalog := Features();
    features := [];
    for i := 0 to |catalog|
      invariant features == Implemented(catalog[..i], dstoreType.Implements)
    {
      var f := catalog[i];
      ImplementedAppend(catalog[..i], [f], dstoreType.Implements);
      assert catalog[..i + 1] == catalog[..i] + [f];
      if f.Interface in dstoreType.Implements {
        features := features + [f];
      }
    }
    assert catalog[..|catalog|] == catalog;
  }
}
