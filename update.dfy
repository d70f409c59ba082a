/**
 * The update pass over the whole archive: every version key of the remote
 * catalog, in the order the catalog's keys are enumerated, gets its stored
 * bucket (created empty when missing) reconciled; keys the catalog does not
 * list are never visited.
 */
module Update {
  import opened Addon
  import opened Reconcile

  /** One version key of the remote catalog and its descriptors. */
  type RemoteBucket = (string, seq<Descriptor>)

  /** The remote catalog: its buckets in key enumeration order, and the category labels. */
  datatype Catalog = Catalog(addons: seq<RemoteBucket>, categories: seq<string>)

  /** The archive's buckets by version key, and the downloads requested so far. */
  datatype Outcome = Outcome(addons: map<string, Bucket>, log: seq<Download>)

  /** The stored bucket for `version`, or the empty bucket the pass creates for a missing one. */
  function StoredOrEmpty(addons: map<string, Bucket>, version: string): Bucket
  {
    if version in addons then addons[version] else []
  }

  /** The body of the loop over version keys. */
  function ReconcileKey(o: Outcome, version: string, remote: seq<Descriptor>, categories: seq<string>): Outcome
  {
    var r := ReconcileBucket(StoredOrEmpty(o.addons, version), version, remote, categories);
    Outcome(o.addons[version := r.bucket], o.log + r.log)
  }

  /** The loop over version keys. */
  function UpdateFrom(o: Outcome, buckets: seq<RemoteBucket>, categories: seq<string>): Outcome
    decreases |buckets|
  {
    if |buckets| == 0 then o
    else
      var n := |buckets| - 1;
      ReconcileKey(UpdateFrom(o, buckets[..n], categories), buckets[n].0, buckets[n].1, categories)
  }

  function RemoteKeys(buckets: seq<RemoteBucket>): set<string>
  {
    set i | 0 <= i < |buckets| :: buckets[i].0
  }

  lemma RemoteKeysPrefix(buckets: seq<RemoteBucket>)
    requires |buckets| > 0
    ensures RemoteKeys(buckets) == RemoteKeys(buckets[..|buckets| - 1]) + {buckets[|buckets| - 1].0}
  {
    var n := |buckets| - 1;
    assert forall i :: 0 <= i < n ==> buckets[..n][i] == buckets[i];
    assert forall k :: k in RemoteKeys(buckets) ==> k in RemoteKeys(buckets[..n]) + {buckets[n].0};
  }

  /** The catalog lists each version key once, as the keys of one JSON object. */
  ghost predicate DistinctKeys(buckets: seq<RemoteBucket>)
  {
    forall i, j :: 0 <= i < j < |buckets| ==> buckets[i].0 != buckets[j].0
  }

  /**
   * Afterwards the archive holds its old keys plus every remote key, and a
   * bucket whose key the catalog does not list is exactly as before.
   */
  lemma {:induction false} UntouchedBuckets(o: Outcome, buckets: seq<RemoteBucket>, categories: seq<string>)
    ensures var a := UpdateFrom(o, buckets, categories).addons;
      && a.Keys == o.addons.Keys + RemoteKeys(buckets)
      && (forall k :: k in o.addons && k !in RemoteKeys(buckets) ==> a[k] == o.addons[k])
    decreases |buckets|
  {
    if |buckets| > 0 {
      var n := |buckets| - 1;
      UntouchedBuckets(o, buckets[..n], categories);
      RemoteKeysPrefix(buckets);
      var mid := UpdateFrom(o, buckets[..n], categories);
      var b := ReconcileBucket(StoredOrEmpty(mid.addons, buckets[n].0), buckets[n].0, buckets[n].1, categories).bucket;
      assert UpdateFrom(o, buckets, categories).addons == mid.addons[buckets[n].0 := b];
    }
  }

  /**
   * With distinct keys, each remote key's bucket ends up as the
   * reconciliation of its stored bucket (or of the empty bucket when there
   * was none) against that key's descriptors.
   */
  lemma {:induction false} BucketOutcome(o: Outcome, buckets: seq<RemoteBucket>, categories: seq<string>, i: int)
    requires DistinctKeys(buckets) && 0 <= i < |buckets|
    ensures var a := UpdateFrom(o, buckets, categories).addons;
      var (version, remote) := buckets[i];
      version in a && a[version] == ReconcileBucket(StoredOrEmpty(o.addons, version), version, remote, categories).bucket
    decreases |buckets|
  {
    var n := |buckets| - 1;
    var prefix := buckets[..n];
    assert forall k :: 0 <= k < n ==> prefix[k] == buckets[k];
    if i < n {
      assert DistinctKeys(prefix);
      BucketOutcome(o, prefix, categories, i);
      assert buckets[i].0 != buckets[n].0;
    } else {
      UntouchedBuckets(o, prefix, categories);
      assert buckets[n].0 !in RemoteKeys(prefix);
      var mid := UpdateFrom(o, prefix, categories).addons;
      assert StoredOrEmpty(mid, buckets[n].0) == StoredOrEmpty(o.addons, buckets[n].0);
    }
  }

  /** Every stored bucket has unique uuids. */
  ghost predicate StoreUnique(addons: map<string, Bucket>)
  {
    forall k :: k in addons ==> UniqueUuids(addons[k])
  }

  /** `after` holds every bucket of `before`, with every record kept at its index under its uuid. */
  ghost predicate KeptAll(before: map<string, Bucket>, after: map<string, Bucket>)
  {
    forall k :: k in before ==>
      && k in after
      && |before[k]| <= |after[k]|
      && (forall j :: 0 <= j < |before[k]| ==> after[k][j].uuid == before[k][j].uuid)
  }

  /**
   * The update never removes a bucket or a record, never changes the uuid
   * at an index, and keeps uuids unique within every bucket.
   */
  lemma {:induction false} UpdateKeepsRecords(o: Outcome, buckets: seq<RemoteBucket>, categories: seq<string>)
    ensures var a := UpdateFrom(o, buckets, categories).addons;
      && KeptAll(o.addons, a)
      && (StoreUnique(o.addons) ==> StoreUnique(a))
    decreases |buckets|
  {
    if |buckets| > 0 {
      var n := |buckets| - 1;
      UpdateKeepsRecords(o, buckets[..n], categories);
      var mid := UpdateFrom(o, buckets[..n], categories).addons;
      var (version, remote) := buckets[n];
      var stored := StoredOrEmpty(mid, version);
      KeepsRecords(stored, version, remote, categories);
      var b := ReconcileBucket(stored, version, remote, categories).bucket;
      assert UpdateFrom(o, buckets, categories).addons == mid[version := b];
    }
  }

  /**
   * With distinct keys and unique stored uuids, after the update every
   * record of a bucket the catalog lists is flagged deleted exactly when no
   * descriptor of that bucket has both its uuid and its name.
   */
  lemma ArchiveDeletedIffUnlisted(addons: map<string, Bucket>, catalog: Catalog, i: int)
    requires DistinctKeys(catalog.addons) && 0 <= i < |catalog.addons|
    requires catalog.addons[i].0 in addons ==> UniqueUuids(addons[catalog.addons[i].0])
    ensures var a := UpdateFrom(Outcome(addons, []), catalog.addons, catalog.categories).addons;
      var (version, remote) := catalog.addons[i];
      version in a && forall j :: 0 <= j < |a[version]| ==>
        (a[version][j].isDeleted <==> !Listed(remote, a[version][j].uuid, a[version][j].name))
  {
    var (version, remote) := catalog.addons[i];
    BucketOutcome(Outcome(addons, []), catalog.addons, catalog.categories, i);
    DeletedIffUnlisted(StoredOrEmpty(addons, version), version, remote, catalog.categories);
  }

  /** Every stored bucket whose key the catalog lists has unique uuids. */
  ghost predicate ListedUnique(addons: map<string, Bucket>, buckets: seq<RemoteBucket>)
  {
    forall i :: 0 <= i < |buckets| && buckets[i].0 in addons ==> UniqueUuids(addons[buckets[i].0])
  }

  /** Every remote bucket has unique uuids. */
  ghost predicate CatalogUnique(buckets: seq<RemoteBucket>)
  {
    forall i :: 0 <= i < |buckets| ==> UniqueRemote(buckets[i].1)
  }

  /**
   * With distinct keys and unique uuids, a second update against the same
   * catalog leaves the archive as the first one left it and requests no
   * download.
   */
  lemma UpdateIdempotent(addons: map<string, Bucket>, catalog: Catalog)
    requires DistinctKeys(catalog.addons) && ListedUnique(addons, catalog.addons) && CatalogUnique(catalog.addons)
    ensures var first := UpdateFrom(Outcome(addons, []), catalog.addons, catalog.categories).addons;
      UpdateFrom(Outcome(first, []), catalog.addons, catalog.categories) == Outcome(first, [])
  {
    var first := UpdateFrom(Outcome(addons, []), catalog.addons, catalog.categories).addons;
    forall i | 0 <= i < |catalog.addons|
      ensures Settled(first, catalog.addons[i], catalog.categories)
    {
      var (version, remote) := catalog.addons[i];
      BucketOutcome(Outcome(addons, []), catalog.addons, catalog.categories, i);
      Idempotent(StoredOrEmpty(addons, version), version, remote, catalog.categories);
    }
    SettledPrefix(first, catalog.addons, catalog.categories);
  }

  /** Reconciling this bucket of `addons` again changes nothing and requests nothing. */
  ghost predicate Settled(addons: map<string, Bucket>, b: RemoteBucket, categories: seq<string>)
  {
    b.0 in addons && ReconcileBucket(addons[b.0], b.0, b.1, categories) == Pass(addons[b.0], [])
  }

  lemma {:induction false} SettledPrefix(addons: map<string, Bucket>, buckets: seq<RemoteBucket>, categories: seq<string>)
    requires forall i :: 0 <= i < |buckets| ==> Settled(addons, buckets[i], categories)
    ensures UpdateFrom(Outcome(addons, []), buckets, categories) == Outcome(addons, [])
    decreases |buckets|
  {
    if |buckets| > 0 {
      var n := |buckets| - 1;
      assert forall i :: 0 <= i < n ==> buckets[..n][i] == buckets[i];
      SettledPrefix(addons, buckets[..n], categories);
      assert UpdateFrom(Outcome(addons, []), buckets, categories)
          == ReconcileKey(Outcome(addons, []), buckets[n].0, buckets[n].1, categories);
      SettledKey(addons, buckets[n], categories);
    }
  }

  lemma SettledKey(addons: map<string, Bucket>, b: RemoteBucket, categories: seq<string>)
    requires Settled(addons, b, categories)
    ensures ReconcileKey(Outcome(addons, []), b.0, b.1, categories) == Outcome(addons, [])
  {
    assert StoredOrEmpty(addons, b.0) == addons[b.0];
    assert addons[b.0 := addons[b.0]] == addons;
  }
}
