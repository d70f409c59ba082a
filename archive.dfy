/**
 * The archive as the update pass holds it in memory: the buckets by version
 * key, updated in place, and the log of download requests issued so far.
 */
module Archive {
  import opened Addon
  import opened Reconcile
  import opened Update

  class AddonArchive {
    var addons: map<string, Bucket>
    var downloads: seq<Download>

    /** The archive as loaded from disk, before any download. */
    constructor (stored: map<string, Bucket>)
      ensures addons == stored && downloads == []
    {
      addons := stored;
      downloads := [];
    }

    /**
     * One version key: create its bucket when missing, run the
     * new/update/undelete loop over the remote descriptors, then the
     * deletion sweep. No other bucket changes.
     */
    method ReconcileVersion(version: string, remote: seq<Descriptor>, categories: seq<string>)
      modifies this
      ensures Outcome(addons, downloads) == ReconcileKey(old(Outcome(addons, downloads)), version, remote, categories)
    {
      if version !in addons {
        addons := addons[version := []];
      }
      CheckNewAndUpdated(version, remote, categories);
      CheckDeleted(version, remote);
    }

    /** The loop over the remote descriptors of one version key. */
    method CheckNewAndUpdated(version: string, remote: seq<Descriptor>, categories: seq<string>)
      requires version in addons
      modifies this
      ensures addons == old(addons)[version := ApplyAll(Pass(old(addons[version]), []), version, remote, categories).bucket]
      ensures downloads == old(downloads) + ApplyAll(Pass(old(addons[version]), []), version, remote, categories).log
    {
      ghost var start := Pass(addons[version], downloads);
      ghost var acc := start;
      var i := 0;
      while i < |remote|
        invariant 0 <= i <= |remote|
        invariant acc == ApplyAll(start, version, remote[..i], categories)
        invariant version in addons && addons == old(addons)[version := acc.bucket]
        invariant downloads == acc.log
      {
        CheckAddon(version, remote[i], categories);
        ApplyAllSnoc(start, version, remote, i, categories);
        acc := Step(acc, version, remote[i], categories);
        i := i + 1;
      }
      assert remote[..i] == remote;
      ApplyAllFromLog(start, version, remote, categories);
    }

    /** One remote descriptor: new add-on, update, undelete, or nothing. */
    method CheckAddon(version: string, addon: Descriptor, categories: seq<string>)
      requires version in addons
      modifies this
      ensures version in addons && addons == old(addons)[version := addons[version]]
      ensures addons[version] == Step(Pass(old(addons[version]), old(downloads)), version, addon, categories).bucket
      ensures downloads == Step(Pass(old(addons[version]), old(downloads)), version, addon, categories).log
    {
      var savedIndex := FindByUuid(addons[version], addon.uuid);
      var rec := FromDescriptor(addon, categories);
      if savedIndex == -1 {
        addons := addons[version := addons[version] + [rec]];
        downloads := downloads + [IconDownload(version, addon)];
        downloads := downloads + [JarDownload(version, addon)];
      } else if addons[version][savedIndex].version != addon.version {
        addons := addons[version := addons[version][savedIndex := rec]];
        downloads := downloads + [JarDownload(version, addon)];
      } else if addons[version][savedIndex].isDeleted {
        addons := addons[version := addons[version][savedIndex := addons[version][savedIndex].(isDeleted := false)]];
      }
    }

    /** The deletion sweep over the bucket of one version key. */
    method CheckDeleted(version: string, remote: seq<Descriptor>)
      requires version in addons
      modifies this`addons
      ensures addons == old(addons)[version := Swept(old(addons[version]), remote)]
    {
      ghost var mid := addons[version];
      var j := 0;
      while j < |addons[version]|
        invariant 0 <= j <= |mid|
        invariant version in addons && addons == old(addons)[version := addons[version]]
        invariant |addons[version]| == |mid|
        invariant forall k :: 0 <= k < j ==> addons[version][k] == Mark(mid[k], remote)
        invariant forall k :: j <= k < |mid| ==> addons[version][k] == mid[k]
      {
        var saved := addons[version][j];
        if !saved.isDeleted && FindByUuidAndName(remote, saved.uuid, saved.name) == -1 {
          addons := addons[version := addons[version][j := saved.(isDeleted := true)]];
        }
        j := j + 1;
      }
      assert addons[version] == Swept(mid, remote);
    }

    /**
     * The update pass: every version key of the catalog, in order. Buckets
     * and records are never removed, and uuids stay unique per bucket.
     */
    method Update(catalog: Catalog)
      modifies this
      ensures Outcome(addons, downloads) == UpdateFrom(old(Outcome(addons, downloads)), catalog.addons, catalog.categories)
      ensures KeptAll(old(addons), addons)
      ensures StoreUnique(old(addons)) ==> StoreUnique(addons)
    {
      var k := 0;
      while k < |catalog.addons|
        invariant 0 <= k <= |catalog.addons|
        invariant Outcome(addons, downloads) == UpdateFrom(old(Outcome(addons, downloads)), catalog.addons[..k], catalog.categories)
      {
        var (version, remote) := catalog.addons[k];
        ReconcileVersion(version, remote, catalog.categories);
        assert catalog.addons[..k + 1][..k] == catalog.addons[..k];
        k := k + 1;
      }
      assert catalog.addons[..k] == catalog.addons;
      UpdateKeepsRecords(old(Outcome(addons, downloads)), catalog.addons, catalog.categories);
    }
  }
}
