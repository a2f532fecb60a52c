/**
 * Scoping a datastore down to a requested set of features. The wrapper that
 * the scoped package builds is specified here by what it exposes: the
 * features the wrapped store supports whose names were requested, in catalog
 * order, and nothing else; every other call goes to the wrapped store.
 */
module Scoped {
  import opened Sequences
  import opened Datastore

  /** The entries of `fs` whose name is in `names`, in the order of `fs`. */
  function KeepNamed(fs: seq<Feature>, names: seq<string>): (r: seq<Feature>)
    ensures IsSubseq(r, fs)
    ensures forall f :: f in r <==> f in fs && f.Name in names
  {
    if fs == [] then []
    else
      var rest := KeepNamed(fs[1..], names);
      assert forall f :: f in fs <==> f == fs[0] || f in fs[1..];
      if fs[0].Name in names then [fs[0]] + rest else rest
  }

  /** The features a view of `d` scoped to `features` exposes: those `d`
      supports whose name is requested, in catalog order. */
  function Granted(d: Datastore, features: seq<Feature>): (g: seq<Feature>)
    ensures IsSubseq(g, ForDatastore(d))
    ensures forall f :: f in g <==> f in ForDatastore(d) && f.Name in NamesOf(features)
  {
    KeepNamed(ForDatastore(d), NamesOf(features))
  }

  /** The capability interfaces of `fs`. */
  function InterfacesOf(fs: seq<Feature>): set<FeatureInterface> {
    set f | f in fs :: f.Interface
  }

  /** The view of `d` scoped to `features`: nil for a nil store; otherwise a
      value of a wrapper type that implements exactly the granted features'
      interfaces and shares the wrapped store's contents. */
  function WithFeatures(d: Datastore, features: seq<Feature>): (v: Datastore)
    ensures v.Nil? <==> d.Nil?
    ensures v.Value? ==> v.State == d.State
  {
    match d
    case Nil => Nil
    case Value(_, state) => Value(StoreType("scoped", InterfacesOf(Granted(d, features))), state)
  }

  /** Requesting nothing grants nothing. */
  lemma NothingRequested(d: Datastore)
    ensures Granted(d, []) == []
  {
    assert NamesOf([]) == [];
    KeepNamedNone(ForDatastore(d));
  }

  lemma {:induction false} KeepNamedNone(fs: seq<Feature>)
    ensures KeepNamed(fs, []) == []
  {
    if fs != [] {
      KeepNamedNone(fs[1..]);
    }
  }

  /** Requesting every supported feature (and possibly more) grants all of
      them. */
  lemma {:induction false} KeepNamedAll(fs: seq<Feature>, names: seq<string>)
    requires forall f | f in fs :: f.Name in names
    ensures KeepNamed(fs, names) == fs
  {
    if fs != [] {
      assert fs[0] in fs;
      assert forall f | f in fs[1..] :: f in fs;
      KeepNamedAll(fs[1..], names);
      assert fs == [fs[0]] + fs[1..];
    }
  }

  /** The granted features are a catalog-ordered, duplicate-free selection of
      what the store supports. */
  lemma GrantedShape(d: Datastore, features: seq<Feature>)
    ensures IsSubseq(Granted(d, features), ForDatastore(d))
    ensures IsSubseq(Granted(d, features), Features())
    ensures Distinct(Granted(d, features))
  {
    ForDatastoreShape(d);
    SubseqTransitive(Granted(d, features), ForDatastore(d), Features());
    CatalogDistinct();
    SubseqDistinct(Granted(d, features), Features());
  }

  /** Detection run on the view reports exactly the granted features. */
  lemma {:induction false} WithFeaturesExposes(d: Datastore, features: seq<Feature>)
    ensures ForDatastore(WithFeatures(d, features)) == Granted(d, features)
  {
    if d.Value? {
      var g := Granted(d, features);
      var v := WithFeatures(d, features);
      var exposed := ForDatastore(v);
      GrantedShape(d, features);
      ForDatastoreShape(v);
      ForDatastoreShape(d);
      forall f ensures f in exposed <==> f in g {
        if f in exposed {
          var h :| h in g && h.Interface == f.Interface;
          CatalogEntryUnique(f, h);
        }
        if f in g {
          assert f.Interface in InterfacesOf(g);
        }
      }
      CatalogDistinct();
      SubseqUnique(exposed, g, Features());
    }
  }

  /** Requesting the features resolved from some names grants exactly the
      features both resolved and supported. */
  lemma GrantedIsIntersection(d: Datastore, names: seq<string>)
    ensures forall f :: f in Granted(d, ByNames(names)) <==> f in ByNames(names) && f in ForDatastore(d)
  {
    var requested := ByNames(names);
    ByNamesMembers(Features(), names);
    ForDatastoreShape(d);
    forall f ensures f in Granted(d, requested) <==> f in requested && f in ForDatastore(d) {
      if f in Granted(d, requested) {
        var h := FindByName(requested, f.Name).value;
        CatalogEntryUnique(f, h);
      }
      if f in requested {
        NamesOfContains(requested, f);
      }
    }
  }

  /** Scoping a scoped view narrows further: the result exposes what the first
      scope granted, restricted to the names of the second request. */
  lemma WithFeaturesComposes(d: Datastore, a: seq<Feature>, b: seq<Feature>)
    ensures ForDatastore(WithFeatures(WithFeatures(d, a), b)) == KeepNamed(Granted(d, a), NamesOf(b))
  {
    WithFeaturesExposes(WithFeatures(d, a), b);
    WithFeaturesExposes(d, a);
  }
}
