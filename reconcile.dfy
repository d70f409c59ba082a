/**
 * The reconciliation of one version bucket, as pure functions: the
 * new/update/undelete pass over the remote descriptors followed by the
 * deletion sweep, and what they guarantee.
 */
module Reconcile {
  import opened Addon

  type Bucket = seq<Record>

  /** The bucket under reconciliation and the downloads requested so far. */
  datatype Pass = Pass(bucket: Bucket, log: seq<Download>)

  /** `bucket.findIndex(i => i.uuid == uuid)`. */
  function FindByUuid(bucket: Bucket, uuid: string): (r: int)
    ensures -1 <= r < |bucket|
    ensures r == -1 <==> forall j :: 0 <= j < |bucket| ==> bucket[j].uuid != uuid
    ensures r >= 0 ==> bucket[r].uuid == uuid && forall j :: 0 <= j < r ==> bucket[j].uuid != uuid
  {
    if |bucket| == 0 then -1
    else if bucket[0].uuid == uuid then 0
    else
      var r := FindByUuid(bucket[1..], uuid);
      assert forall j :: 1 <= j < |bucket| ==> bucket[j] == bucket[1..][j - 1];
      if r == -1 then -1 else r + 1
  }

  /** `remote.findIndex(i => i.uuid == uuid && i.name == name)`. */
  function FindByUuidAndName(remote: seq<Descriptor>, uuid: string, name: string): (r: int)
    ensures -1 <= r < |remote|
    ensures r == -1 <==> !Listed(remote, uuid, name)
    ensures r >= 0 ==> remote[r].uuid == uuid && remote[r].name == name
    ensures r >= 0 ==> forall j :: 0 <= j < r ==> !(remote[j].uuid == uuid && remote[j].name == name)
  {
    if |remote| == 0 then -1
    else if remote[0].uuid == uuid && remote[0].name == name then 0
    else
      var r := FindByUuidAndName(remote[1..], uuid, name);
      assert forall j :: 1 <= j < |remote| ==> remote[j] == remote[1..][j - 1];
      if r == -1 then -1 else r + 1
  }

  /** Some remote descriptor carries both this uuid and this name. */
  ghost predicate Listed(remote: seq<Descriptor>, uuid: string, name: string)
  {
    exists i :: 0 <= i < |remote| && remote[i].uuid == uuid && remote[i].name == name
  }

  function UuidSet(bucket: Bucket): set<string>
  {
    set j | 0 <= j < |bucket| :: bucket[j].uuid
  }

  function RemoteUuids(remote: seq<Descriptor>): set<string>
  {
    set i | 0 <= i < |remote| :: remote[i].uuid
  }

  /** No two records of the bucket share a uuid. */
  ghost predicate UniqueUuids(bucket: Bucket)
  {
    forall i, j :: 0 <= i < j < |bucket| ==> bucket[i].uuid != bucket[j].uuid
  }

  /** No two descriptors of the remote bucket share a uuid. */
  ghost predicate UniqueRemote(remote: seq<Descriptor>)
  {
    forall i, j :: 0 <= i < j < |remote| ==> remote[i].uuid != remote[j].uuid
  }

  /**
   * One remote descriptor: append it when its uuid is unknown (icon and jar
   * requested), overwrite the first record with that uuid when the version
   * differs (jar requested), otherwise clear that record's deleted flag.
   */
  function Step(p: Pass, version: string, d: Descriptor, categories: seq<string>): Pass
  {
    var i := FindByUuid(p.bucket, d.uuid);
    var rec := FromDescriptor(d, categories);
    if i == -1 then
      Pass(p.bucket + [rec], p.log + [IconDownload(version, d), JarDownload(version, d)])
    else if p.bucket[i].version != d.version then
      Pass(p.bucket[i := rec], p.log + [JarDownload(version, d)])
    else if p.bucket[i].isDeleted then
      Pass(p.bucket[i := p.bucket[i].(isDeleted := false)], p.log)
    else
      p
  }

  /** The descriptor loop: `Step` for each descriptor, in catalog order. */
  function ApplyAll(p: Pass, version: string, remote: seq<Descriptor>, categories: seq<string>): Pass
    decreases |remote|
  {
    if |remote| == 0 then p
    else
      var n := |remote| - 1;
      Step(ApplyAll(p, version, remote[..n], categories), version, remote[n], categories)
  }

  /** The sweep's treatment of one record. */
  function Mark(r: Record, remote: seq<Descriptor>): Record
  {
    if r.isDeleted then r
    else if FindByUuidAndName(remote, r.uuid, r.name) == -1 then r.(isDeleted := true)
    else r
  }

  /** The deletion sweep over a whole bucket. */
  function Swept(bucket: Bucket, remote: seq<Descriptor>): Bucket
  {
    seq(|bucket|, j requires 0 <= j < |bucket| => Mark(bucket[j], remote))
  }

  /** The full pass over one bucket: descriptor loop, then sweep. */
  function ReconcileBucket(bucket: Bucket, version: string, remote: seq<Descriptor>, categories: seq<string>): Pass
  {
    var mid := ApplyAll(Pass(bucket, []), version, remote, categories);
    Pass(Swept(mid.bucket, remote), mid.log)
  }

  // ---------------------------------------------------------------------
  // One descriptor

  /** A descriptor whose uuid no record has is appended; icon then jar are requested. */
  lemma StepNew(p: Pass, version: string, d: Descriptor, categories: seq<string>)
    requires forall j :: 0 <= j < |p.bucket| ==> p.bucket[j].uuid != d.uuid
    ensures var q := Step(p, version, d, categories);
      && |q.bucket| == |p.bucket| + 1
      && q.bucket[..|p.bucket|] == p.bucket
      && q.bucket[|p.bucket|] == Record(d.uuid, d.name, d.author, d.version,
           if 1 <= d.category <= |categories| then Some(categories[d.category - 1]) else None, false)
      && q.log == p.log + [
           Download(IconUrl(d.uuid), "./data/addons/mc" + version + "/" + d.uuid + "/icon.png"),
           Download(JarUrl(d.uuid), "./data/addons/mc" + version + "/" + d.uuid + "/" + d.name + "-v" + d.version + ".jar")]
  {
    var rec := FromDescriptor(d, categories);
    assert FindByUuid(p.bucket, d.uuid) == -1;
    assert Step(p, version, d, categories)
        == Pass(p.bucket + [rec], p.log + [IconDownload(version, d), JarDownload(version, d)]);
    assert (p.bucket + [rec])[..|p.bucket|] == p.bucket;
  }

  /**
   * When the first record with the descriptor's uuid has another version, it
   * is overwritten by the descriptor, undeleted; only the jar is requested.
   */
  lemma StepUpdate(p: Pass, version: string, d: Descriptor, categories: seq<string>, j: int)
    requires 0 <= j < |p.bucket| && p.bucket[j].uuid == d.uuid
    requires forall k :: 0 <= k < j ==> p.bucket[k].uuid != d.uuid
    requires p.bucket[j].version != d.version
    ensures var q := Step(p, version, d, categories);
      && |q.bucket| == |p.bucket|
      && q.bucket[j] == Record(d.uuid, d.name, d.author, d.version,
           if 1 <= d.category <= |categories| then Some(categories[d.category - 1]) else None, false)
      && (forall k :: 0 <= k < |p.bucket| && k != j ==> q.bucket[k] == p.bucket[k])
      && q.log == p.log + [Download(JarUrl(d.uuid), DataDir(version, d.uuid) + "/" + d.name + "-v" + d.version + ".jar")]
  {
    assert FindByUuid(p.bucket, d.uuid) == j;
    assert Step(p, version, d, categories)
        == Pass(p.bucket[j := FromDescriptor(d, categories)], p.log + [JarDownload(version, d)]);
  }

  /**
   * When the first record with the descriptor's uuid has the same version,
   * only its deleted flag may change (to false), and nothing is requested.
   */
  lemma StepSameVersion(p: Pass, version: string, d: Descriptor, categories: seq<string>, j: int)
    requires 0 <= j < |p.bucket| && p.bucket[j].uuid == d.uuid
    requires forall k :: 0 <= k < j ==> p.bucket[k].uuid != d.uuid
    requires p.bucket[j].version == d.version
    ensures var q := Step(p, version, d, categories);
      && q.log == p.log
      && |q.bucket| == |p.bucket|
      && !q.bucket[j].isDeleted
      && q.bucket[j] == p.bucket[j].(isDeleted := false)
      && (forall k :: 0 <= k < |p.bucket| && k != j ==> q.bucket[k] == p.bucket[k])
      && (!p.bucket[j].isDeleted ==> q == p)
  {
    assert FindByUuid(p.bucket, d.uuid) == j;
  }

  /** What a step from bucket `b` to bucket `q` for descriptor `d` keeps, whichever case applies. */
  ghost predicate StepKeeps(b: Bucket, q: Bucket, d: Descriptor)
  {
    && |q| == (if d.uuid in UuidSet(b) then |b| else |b| + 1)
    && UuidSet(q) == UuidSet(b) + {d.uuid}
    && (forall j :: 0 <= j < |b| ==> q[j].uuid == b[j].uuid)
    && (forall j :: 0 <= j < |b| && q[j] != b[j] ==> b[j].uuid == d.uuid && !q[j].isDeleted)
    && (|q| > |b| ==> q[|b|].uuid == d.uuid && !q[|b|].isDeleted)
    && (UniqueUuids(b) ==> UniqueUuids(q))
    && (UniqueUuids(b) ==> forall j :: 0 <= j < |q| && q[j].uuid == d.uuid ==> q[j].version == d.version && !q[j].isDeleted)
  }

  /**
   * Every step keeps the uuid at each index, adds the descriptor's uuid,
   * grows the bucket exactly when that uuid was absent, only touches records
   * with that uuid (leaving them live) and keeps uuids unique.
   */
  lemma StepFrame(p: Pass, version: string, d: Descriptor, categories: seq<string>)
    ensures StepKeeps(p.bucket, Step(p, version, d, categories).bucket, d)
  {
    var b := p.bucket;
    var i := FindByUuid(b, d.uuid);
    var rec := FromDescriptor(d, categories);
    if i == -1 {
      assert Step(p, version, d, categories).bucket == b + [rec];
      StepKeepsAppend(b, rec, d);
    } else {
      var r := if b[i].version != d.version then rec else b[i].(isDeleted := false);
      assert b[i := b[i]] == b;
      assert Step(p, version, d, categories).bucket == b[i := r];
      StepKeepsReplace(b, i, r, d);
    }
  }

  lemma StepKeepsAppend(b: Bucket, rec: Record, d: Descriptor)
    requires forall j :: 0 <= j < |b| ==> b[j].uuid != d.uuid
    requires rec.uuid == d.uuid && rec.version == d.version && !rec.isDeleted
    ensures StepKeeps(b, b + [rec], d)
  {
    var q := b + [rec];
    assert q[|b|] == rec;
    assert forall j :: 0 <= j < |b| ==> q[j] == b[j];
    assert d.uuid !in UuidSet(b);
    forall u | u in UuidSet(b) ensures u in UuidSet(q) {
      var j :| 0 <= j < |b| && b[j].uuid == u;
      assert q[j] == b[j];
    }
  }

  lemma StepKeepsReplace(b: Bucket, i: int, r: Record, d: Descriptor)
    requires 0 <= i < |b| && b[i].uuid == d.uuid
    requires r.uuid == d.uuid && r.version == d.version && !r.isDeleted
    ensures StepKeeps(b, b[i := r], d)
  {
    var q := b[i := r];
    assert d.uuid in UuidSet(b);
    forall u | u in UuidSet(b) ensures u in UuidSet(q) {
      var j :| 0 <= j < |b| && b[j].uuid == u;
      assert q[j].uuid == u;
    }
    if UniqueUuids(b) {
      assert forall j :: 0 <= j < |q| && q[j].uuid == d.uuid ==> j == i;
    }
  }

  // ---------------------------------------------------------------------
  // The descriptor loop

  lemma {:induction false} RemoteUuidsPrefix(remote: seq<Descriptor>, n: nat)
    requires 0 < n <= |remote|
    ensures RemoteUuids(remote[..n]) == RemoteUuids(remote[..n - 1]) + {remote[n - 1].uuid}
  {
    var s, t := remote[..n], remote[..n - 1];
    assert forall i :: 0 <= i < |t| ==> t[i] == s[i];
    assert s[n - 1] == remote[n - 1];
    assert forall u :: u in RemoteUuids(s) ==> u in RemoteUuids(t) + {remote[n - 1].uuid};
  }

  /**
   * What the descriptor loop keeps, going from bucket `b` to bucket `m` over
   * descriptors with the uuids `uuids`: no record removed, the uuid at each
   * index kept, records with unlisted uuids untouched, the uuid set grown by
   * exactly `uuids`, uniqueness kept and (with unique uuids) every listed
   * uuid undeleted.
   */
  ghost predicate LoopKeeps(b: Bucket, m: Bucket, uuids: set<string>)
  {
    && |b| <= |m|
    && (forall j :: 0 <= j < |b| ==> m[j].uuid == b[j].uuid)
    && (forall j :: 0 <= j < |b| && b[j].uuid !in uuids ==> m[j] == b[j])
    && UuidSet(m) == UuidSet(b) + uuids
    && (UniqueUuids(b) ==> UniqueUuids(m))
    && (UniqueUuids(b) ==> forall j :: 0 <= j < |m| && m[j].uuid in uuids ==> !m[j].isDeleted)
  }

  /** The descriptor loop keeps `LoopKeeps` for the remote bucket's uuids. */
  lemma {:induction false} ApplyAllFrame(p: Pass, version: string, remote: seq<Descriptor>, categories: seq<string>)
    ensures LoopKeeps(p.bucket, ApplyAll(p, version, remote, categories).bucket, RemoteUuids(remote))
    decreases |remote|
  {
    if |remote| == 0 {
      assert RemoteUuids(remote) == {};
    } else {
      var n := |remote| - 1;
      var d := remote[n];
      var mid := ApplyAll(p, version, remote[..n], categories);
      assert ApplyAll(p, version, remote, categories) == Step(mid, version, d, categories);
      ApplyAllFrame(p, version, remote[..n], categories);
      StepFrame(mid, version, d, categories);
      RemoteUuidsPrefix(remote, |remote|);
      assert remote[..|remote|] == remote;
      LoopKeepsStep(p.bucket, mid.bucket, Step(mid, version, d, categories).bucket, RemoteUuids(remote[..n]), d);
    }
  }

  /** `LoopKeeps` followed by one `StepKeeps` is `LoopKeeps` with that descriptor's uuid added. */
  lemma LoopKeepsStep(b: Bucket, mid: Bucket, q: Bucket, before: set<string>, d: Descriptor)
    requires LoopKeeps(b, mid, before) && StepKeeps(mid, q, d)
    ensures LoopKeeps(b, q, before + {d.uuid})
  {
    if UniqueUuids(b) {
      forall j | 0 <= j < |q| && q[j].uuid in before + {d.uuid}
        ensures !q[j].isDeleted
      {
        if q[j].uuid != d.uuid {
          assert j < |mid|;
          assert q[j] == mid[j];
        }
      }
    }
  }

  /** One more descriptor is one more step. */
  lemma ApplyAllSnoc(p: Pass, version: string, remote: seq<Descriptor>, i: int, categories: seq<string>)
    requires 0 <= i < |remote|
    ensures ApplyAll(p, version, remote[..i + 1], categories)
         == Step(ApplyAll(p, version, remote[..i], categories), version, remote[i], categories)
  {
    assert remote[..i + 1][..i] == remote[..i];
  }

  /** The descriptor loop only appends to the log it starts from. */
  lemma {:induction false} ApplyAllFromLog(p: Pass, version: string, remote: seq<Descriptor>, categories: seq<string>)
    ensures var r, e := ApplyAll(p, version, remote, categories), ApplyAll(Pass(p.bucket, []), version, remote, categories);
      r.bucket == e.bucket && r.log == p.log + e.log
    decreases |remote|
  {
    if |remote| > 0 {
      ApplyAllFromLog(p, version, remote[..|remote| - 1], categories);
    }
  }

  lemma {:induction false} UniqueCard(bucket: Bucket)
    requires UniqueUuids(bucket)
    ensures |UuidSet(bucket)| == |bucket|
    decreases |bucket|
  {
    if |bucket| > 0 {
      var n := |bucket| - 1;
      var init := bucket[..n];
      assert UniqueUuids(init);
      UniqueCard(init);
      assert UuidSet(bucket) == UuidSet(init) + {bucket[n].uuid} by {
        assert forall j :: 0 <= j < n ==> init[j] == bucket[j];
        assert forall u :: u in UuidSet(bucket) ==> u in UuidSet(init) + {bucket[n].uuid};
      }
      assert bucket[n].uuid !in UuidSet(init);
    }
  }

  // ---------------------------------------------------------------------
  // The deletion sweep

  /**
   * The sweep keeps length and every field but the deleted flag; a deleted
   * record stays deleted, and a live one becomes deleted exactly when no
   * remote descriptor has both its uuid and its name.
   */
  lemma SweepOnlyFlags(bucket: Bucket, remote: seq<Descriptor>)
    ensures var s := Swept(bucket, remote);
      && |s| == |bucket|
      && (forall j :: 0 <= j < |s| ==> s[j].(isDeleted := bucket[j].isDeleted) == bucket[j])
      && (forall j :: 0 <= j < |s| && bucket[j].isDeleted ==> s[j].isDeleted)
      && (forall j :: 0 <= j < |s| && !bucket[j].isDeleted ==>
            (s[j].isDeleted <==> !Listed(remote, bucket[j].uuid, bucket[j].name)))
  {
  }

  // ---------------------------------------------------------------------
  // The whole pass over one bucket

  /**
   * The pass never removes a record or changes the uuid at an index, keeps
   * uuids unique, and with unique uuids grows the bucket by exactly the
   * number of distinct remote uuids it did not hold.
   */
  lemma NeverShrinks(bucket: Bucket, version: string, remote: seq<Descriptor>, categories: seq<string>)
    requires UniqueUuids(bucket)
    ensures var r := ReconcileBucket(bucket, version, remote, categories).bucket;
      && |r| == |bucket| + |RemoteUuids(remote) - UuidSet(bucket)|
      && (forall j :: 0 <= j < |bucket| ==> r[j].uuid == bucket[j].uuid)
      && UuidSet(r) == UuidSet(bucket) + RemoteUuids(remote)
      && UniqueUuids(r)
  {
    var m := ApplyAll(Pass(bucket, []), version, remote, categories).bucket;
    ApplyAllFrame(Pass(bucket, []), version, remote, categories);
    SweepKeepsUuids(m, remote);
    UniqueCard(bucket);
    UniqueCard(m);
    DisjointGrowth(UuidSet(bucket), RemoteUuids(remote));
  }

  lemma SweepKeepsUuids(bucket: Bucket, remote: seq<Descriptor>)
    ensures var s := Swept(bucket, remote);
      && |s| == |bucket|
      && (forall j :: 0 <= j < |s| ==> s[j].uuid == bucket[j].uuid && s[j].name == bucket[j].name)
      && UuidSet(s) == UuidSet(bucket)
      && (UniqueUuids(bucket) ==> UniqueUuids(s))
  {
    var s := Swept(bucket, remote);
    forall j | 0 <= j < |s| ensures s[j].uuid == bucket[j].uuid && s[j].name == bucket[j].name {
      assert s[j] == Mark(bucket[j], remote);
    }
    forall u | u in UuidSet(bucket) ensures u in UuidSet(s) {
      var j :| 0 <= j < |bucket| && bucket[j].uuid == u;
      assert s[j].uuid == u;
    }
  }

  lemma DisjointGrowth(a: set<string>, b: set<string>)
    ensures |a + b| == |a| + |b - a|
  {
    assert a + b == a + (b - a);
    assert a * (b - a) == {};
  }

  /**
   * Whatever the buckets hold, the pass keeps every record at its index with
   * its uuid, and never makes uuids collide.
   */
  lemma KeepsRecords(bucket: Bucket, version: string, remote: seq<Descriptor>, categories: seq<string>)
    ensures var r := ReconcileBucket(bucket, version, remote, categories).bucket;
      && |bucket| <= |r|
      && (forall j :: 0 <= j < |bucket| ==> r[j].uuid == bucket[j].uuid)
      && (UniqueUuids(bucket) ==> UniqueUuids(r))
  {
    var m := ApplyAll(Pass(bucket, []), version, remote, categories).bucket;
    ApplyAllFrame(Pass(bucket, []), version, remote, categories);
    SweepKeepsUuids(m, remote);
  }

  /**
   * With unique uuids, after the pass a record is flagged deleted exactly
   * when no remote descriptor matches it on both uuid and name.
   */
  lemma DeletedIffUnlisted(bucket: Bucket, version: string, remote: seq<Descriptor>, categories: seq<string>)
    requires UniqueUuids(bucket)
    ensures var r := ReconcileBucket(bucket, version, remote, categories).bucket;
      forall j :: 0 <= j < |r| ==> (r[j].isDeleted <==> !Listed(remote, r[j].uuid, r[j].name))
  {
    var m := ApplyAll(Pass(bucket, []), version, remote, categories).bucket;
    var r := ReconcileBucket(bucket, version, remote, categories).bucket;
    ApplyAllFrame(Pass(bucket, []), version, remote, categories);
    SweepOnlyFlags(m, remote);
    forall j | 0 <= j < |r| ensures r[j].isDeleted <==> !Listed(remote, r[j].uuid, r[j].name) {
      assert r[j].uuid == m[j].uuid && r[j].name == m[j].name;
    }
  }

  // ---------------------------------------------------------------------
  // Idempotence

  /**
   * With unique uuids on both sides, after the descriptor loop every record
   * whose uuid is listed remotely carries the listed version.
   */
  lemma {:induction false} ApplyAllVersions(p: Pass, version: string, remote: seq<Descriptor>, categories: seq<string>)
    requires UniqueUuids(p.bucket) && UniqueRemote(remote)
    ensures CarriesVersions(ApplyAll(p, version, remote, categories).bucket, remote)
    decreases |remote|
  {
    if |remote| > 0 {
      var n := |remote| - 1;
      var d := remote[n];
      var mid := ApplyAll(p, version, remote[..n], categories);
      var m := ApplyAll(p, version, remote, categories).bucket;
      assert m == Step(mid, version, d, categories).bucket;
      assert UniqueRemote(remote[..n]);
      ApplyAllVersions(p, version, remote[..n], categories);
      ApplyAllUnique(p, version, remote[..n], categories);
      StepFrame(mid, version, d, categories);
      assert forall i :: 0 <= i < n ==> remote[..n][i].uuid != d.uuid;
      StepVersions(mid.bucket, m, d, remote[..n]);
      assert remote[..n] + [d] == remote;
    }
  }

  lemma ApplyAllUnique(p: Pass, version: string, remote: seq<Descriptor>, categories: seq<string>)
    requires UniqueUuids(p.bucket)
    ensures UniqueUuids(ApplyAll(p, version, remote, categories).bucket)
  {
    ApplyAllFrame(p, version, remote, categories);
  }

  /** Every record of `m` whose uuid a descriptor of `remote` has carries that descriptor's version. */
  ghost predicate CarriesVersions(m: Bucket, remote: seq<Descriptor>)
  {
    forall i, j :: 0 <= i < |remote| && 0 <= j < |m| && m[j].uuid == remote[i].uuid ==> m[j].version == remote[i].version
  }

  /** One step of `ApplyAllVersions`: the records of earlier descriptors are untouched, the stepped one carries `d`'s version. */
  lemma StepVersions(b: Bucket, q: Bucket, d: Descriptor, prior: seq<Descriptor>)
    requires StepKeeps(b, q, d) && UniqueUuids(b)
    requires CarriesVersions(b, prior)
    requires forall i :: 0 <= i < |prior| ==> prior[i].uuid != d.uuid
    ensures CarriesVersions(q, prior + [d])
  {
    var r := prior + [d];
    forall i, j | 0 <= i < |r| && 0 <= j < |q| && q[j].uuid == r[i].uuid
      ensures q[j].version == r[i].version
    {
      if i < |prior| {
        assert r[i] == prior[i];
        assert j < |b|;
        assert q[j] == b[j];
      }
    }
  }

  /** The bucket with the deleted flag cleared on every record whose uuid is in `uuids`. */
  function Undeleted(bucket: Bucket, uuids: set<string>): Bucket
  {
    seq(|bucket|, j requires 0 <= j < |bucket| =>
      if bucket[j].uuid in uuids then bucket[j].(isDeleted := false) else bucket[j])
  }

  /**
   * Against a bucket that already holds every remote uuid with the remote
   * version, the descriptor loop requests nothing and only clears the
   * deleted flags of the listed uuids.
   */
  lemma {:induction false} ApplyAllSettled(bucket: Bucket, version: string, remote: seq<Descriptor>, categories: seq<string>)
    requires UniqueUuids(bucket)
    requires RemoteUuids(remote) <= UuidSet(bucket)
    requires CarriesVersions(bucket, remote)
    ensures ApplyAll(Pass(bucket, []), version, remote, categories) == Pass(Undeleted(bucket, RemoteUuids(remote)), [])
    decreases |remote|
  {
    if |remote| == 0 {
      assert Undeleted(bucket, {}) == bucket;
    } else {
      var n := |remote| - 1;
      var d := remote[n];
      RemoteUuidsPrefix(remote, |remote|);
      assert remote[..|remote|] == remote;
      var before := RemoteUuids(remote[..n]);
      forall i, j | 0 <= i < |remote[..n]| && 0 <= j < |bucket| && bucket[j].uuid == remote[..n][i].uuid
        ensures bucket[j].version == remote[..n][i].version
      {
        assert remote[..n][i] == remote[i];
      }
      ApplyAllSettled(bucket, version, remote[..n], categories);
      assert ApplyAll(Pass(bucket, []), version, remote, categories)
          == Step(Pass(Undeleted(bucket, before), []), version, d, categories);
      SettledStep(bucket, before, version, d, categories);
    }
  }

  /** One step of `ApplyAllSettled`: the matching record keeps its version, so only its flag is cleared. */
  lemma SettledStep(bucket: Bucket, before: set<string>, version: string, d: Descriptor, categories: seq<string>)
    requires UniqueUuids(bucket)
    requires d.uuid in UuidSet(bucket)
    requires forall j :: 0 <= j < |bucket| && bucket[j].uuid == d.uuid ==> bucket[j].version == d.version
    ensures Step(Pass(Undeleted(bucket, before), []), version, d, categories)
         == Pass(Undeleted(bucket, before + {d.uuid}), [])
  {
    var c := Undeleted(bucket, before);
    var k :| 0 <= k < |bucket| && bucket[k].uuid == d.uuid;
    assert forall j :: 0 <= j < |c| ==> c[j].uuid == bucket[j].uuid;
    StepSameVersion(Pass(c, []), version, d, categories, k);
    var q := Step(Pass(c, []), version, d, categories);
    var after := Undeleted(bucket, before + {d.uuid});
    assert forall j :: 0 <= j < |c| ==> q.bucket[j] == after[j];
  }

  /**
   * Running the pass a second time with the same remote bucket changes
   * nothing and requests no download, when uuids are unique in the stored
   * and in the remote bucket.
   */
  lemma Idempotent(bucket: Bucket, version: string, remote: seq<Descriptor>, categories: seq<string>)
    requires UniqueUuids(bucket) && UniqueRemote(remote)
    ensures var first := ReconcileBucket(bucket, version, remote, categories).bucket;
      ReconcileBucket(first, version, remote, categories) == Pass(first, [])
  {
    var first := ReconcileBucket(bucket, version, remote, categories).bucket;
    FirstPassSettles(bucket, version, remote, categories);
    ApplyAllSettled(first, version, remote, categories);
    var u := Undeleted(first, RemoteUuids(remote));
    forall j | 0 <= j < |first| ensures Mark(u[j], remote) == first[j] {
      if first[j].uuid !in RemoteUuids(remote) {
        assert !Listed(remote, first[j].uuid, first[j].name);
      }
    }
    assert Swept(u, remote) == first;
  }

  /**
   * After one pass, the bucket meets what `ApplyAllSettled` needs, and its
   * deleted flags already say which records are unlisted.
   */
  lemma FirstPassSettles(bucket: Bucket, version: string, remote: seq<Descriptor>, categories: seq<string>)
    requires UniqueUuids(bucket) && UniqueRemote(remote)
    ensures var first := ReconcileBucket(bucket, version, remote, categories).bucket;
      && UniqueUuids(first)
      && RemoteUuids(remote) <= UuidSet(first)
      && CarriesVersions(first, remote)
      && forall j :: 0 <= j < |first| ==> (first[j].isDeleted <==> !Listed(remote, first[j].uuid, first[j].name))
  {
    var m := ApplyAll(Pass(bucket, []), version, remote, categories).bucket;
    ApplyAllFrame(Pass(bucket, []), version, remote, categories);
    ApplyAllVersions(Pass(bucket, []), version, remote, categories);
    SweepOnlyFlags(m, remote);
    SweepKeepsUuids(m, remote);
    DeletedIffUnlisted(bucket, version, remote, categories);
  }

  // ---------------------------------------------------------------------
  // Records after the whole pass

  /** The descriptor loop over `xs + ys` is the loop over `ys` started where the loop over `xs` ends. */
  lemma {:induction false} ApplyAllAppend(p: Pass, version: string, xs: seq<Descriptor>, ys: seq<Descriptor>, categories: seq<string>)
    ensures ApplyAll(p, version, xs + ys, categories) == ApplyAll(ApplyAll(p, version, xs, categories), version, ys, categories)
    decreases |ys|
  {
    if |ys| == 0 {
      assert xs + ys == xs;
    } else {
      var n := |ys| - 1;
      ApplyAllAppend(p, version, xs, ys[..n], categories);
      assert (xs + ys)[..|xs + ys| - 1] == xs + ys[..n];
      assert (xs + ys)[|xs + ys| - 1] == ys[n];
    }
  }

  /**
   * With unique remote uuids, the record descriptor `i`'s step leaves at
   * index `j` with that descriptor's uuid is untouched by the later steps.
   */
  lemma LaterStepsKeep(p: Pass, version: string, remote: seq<Descriptor>, categories: seq<string>, i: int, j: int)
    requires UniqueRemote(remote) && 0 <= i < |remote|
    requires 0 <= j < |ApplyAll(p, version, remote[..i + 1], categories).bucket|
    requires ApplyAll(p, version, remote[..i + 1], categories).bucket[j].uuid == remote[i].uuid
    ensures j < |ApplyAll(p, version, remote, categories).bucket|
    ensures ApplyAll(p, version, remote, categories).bucket[j] == ApplyAll(p, version, remote[..i + 1], categories).bucket[j]
  {
    var s := ApplyAll(p, version, remote[..i + 1], categories);
    var rest := remote[i + 1..];
    ApplyAllAppend(p, version, remote[..i + 1], rest, categories);
    assert remote[..i + 1] + rest == remote;
    assert forall t :: 0 <= t < |rest| ==> rest[t] == remote[i + 1 + t];
    assert remote[i].uuid !in RemoteUuids(rest);
    ApplyAllFrame(s, version, rest, categories);
  }

  /** A live record that a descriptor matches on uuid and name passes the sweep unchanged. */
  lemma SweepKeepsListed(m: Bucket, remote: seq<Descriptor>, j: int, i: int)
    requires 0 <= j < |m| && !m[j].isDeleted
    requires 0 <= i < |remote| && remote[i].uuid == m[j].uuid && remote[i].name == m[j].name
    ensures j < |Swept(m, remote)| && Swept(m, remote)[j] == m[j]
  {
    assert Listed(remote, m[j].uuid, m[j].name);
  }

  /**
   * With unique remote uuids, a descriptor whose uuid the stored bucket
   * lacks ends the whole pass as a record appended past the old bucket,
   * equal to its own fields with the category resolved and not deleted.
   */
  lemma NewAfterPass(bucket: Bucket, version: string, remote: seq<Descriptor>, categories: seq<string>, i: int)
    requires UniqueRemote(remote) && 0 <= i < |remote|
    requires remote[i].uuid !in UuidSet(bucket)
    ensures var r := ReconcileBucket(bucket, version, remote, categories).bucket;
      exists j :: |bucket| <= j < |r| && r[j] == FromDescriptor(remote[i], categories)
  {
    var p := Pass(bucket, []);
    var d := remote[i];
    var mid := ApplyAll(p, version, remote[..i], categories);
    ApplyAllFrame(p, version, remote[..i], categories);
    assert forall k :: 0 <= k < i ==> remote[..i][k].uuid != d.uuid;
    assert d.uuid !in RemoteUuids(remote[..i]);
    assert d.uuid !in UuidSet(mid.bucket);
    StepNew(mid, version, d, categories);
    ApplyAllSnoc(p, version, remote, i, categories);
    var j := |mid.bucket|;
    assert ApplyAll(p, version, remote[..i + 1], categories).bucket[j] == FromDescriptor(d, categories);
    LaterStepsKeep(p, version, remote, categories, i, j);
    var m := ApplyAll(p, version, remote, categories).bucket;
    SweepKeepsListed(m, remote, j, i);
  }

  /**
   * With unique uuids on both sides, a stored record whose descriptor
   * carries another version ends the whole pass overwritten, at its own
   * index, by the descriptor's fields with the category resolved and not
   * deleted.
   */
  lemma UpdatedAfterPass(bucket: Bucket, version: string, remote: seq<Descriptor>, categories: seq<string>, i: int, k: int)
    requires UniqueRemote(remote) && UniqueUuids(bucket) && 0 <= i < |remote| && 0 <= k < |bucket|
    requires bucket[k].uuid == remote[i].uuid && bucket[k].version != remote[i].version
    ensures var r := ReconcileBucket(bucket, version, remote, categories).bucket;
      k < |r| && r[k] == FromDescriptor(remote[i], categories)
  {
    var p := Pass(bucket, []);
    var d := remote[i];
    var mid := ApplyAll(p, version, remote[..i], categories);
    ApplyAllFrame(p, version, remote[..i], categories);
    assert forall t :: 0 <= t < i ==> remote[..i][t].uuid != d.uuid;
    assert d.uuid !in RemoteUuids(remote[..i]);
    assert mid.bucket[k] == bucket[k];
    assert forall t :: 0 <= t < k ==> mid.bucket[t].uuid != d.uuid;
    StepUpdate(mid, version, d, categories, k);
    ApplyAllSnoc(p, version, remote, i, categories);
    assert ApplyAll(p, version, remote[..i + 1], categories).bucket[k] == FromDescriptor(d, categories);
    LaterStepsKeep(p, version, remote, categories, i, k);
    var m := ApplyAll(p, version, remote, categories).bucket;
    SweepKeepsListed(m, remote, k, i);
  }
}
