# LabyMod add-on archive: the update pass, in Dafny

This project models the update pass of the LabyMod add-on archiver
(`src/main.js`) and proves what it guarantees. The tool fetches the remote
add-on catalog and keeps a local archive. Both are grouped into version
buckets (one per Minecraft version key). For every version key listed by the
catalog, the pass does four things:

- it creates the stored bucket when it is missing;
- it walks the remote descriptors in catalog order. A descriptor whose uuid is
  unknown is appended, and its icon and jar are requested. A descriptor whose
  stored record has another version overwrites that record, and its jar is
  requested. A descriptor whose record has the same version only clears that
  record's deleted flag;
- it sweeps the bucket. Every record not yet deleted that no remote
  descriptor matches on both uuid and name is flagged deleted. Records are
  never removed;
- nothing else changes: buckets for keys the catalog does not list are left alone.

Files and modules:

- `js_string.dfy` (`JsString`): `String.prototype.replace` with a string
  pattern, as the pass calls it to build its download URLs
  (`src/main.js:55-56`, `61`). `IndexOf` is the first-occurrence search
  inside `replace`; only that occurrence is replaced, and the `$$`, `$&`,
  `` $` `` and `$'` patterns in the replacement are expanded.
- `addon.dfy` (`Addon`): the remote `Descriptor`, the stored `Record`, the
  `Download` request, the two URL templates, category resolution, and the data
  directory and file paths.
- `reconcile.dfy` (`Reconcile`): one bucket as pure functions (`Step`,
  `ApplyAll`, `Swept`, `ReconcileBucket`) and the lemmas about them.
- `update.dfy` (`Update`): the loop over version keys (`UpdateFrom`) and the
  lemmas about the whole archive.
- `archive.dfy` (`Archive`): the class `AddonArchive`. It holds the stored
  buckets as a `map` field and the download log as a `seq` field. Its methods
  update both in place with the source's loops, and each method is proved
  equal to the pure specification.

The model stays close to the code where the code and its design description
differ:

- Category index: an out-of-range 1-based index is not rejected. The lookup
  gives JavaScript's `undefined` (here `None`), and the descriptor is still
  stored (`src/main.js:48`).
- Data directory: the directory is created only for a new add-on
  (`src/main.js:54`), not on update.
- Failed downloads: these are logged and dropped (`src/main.js:83-85`), so a
  download appears in the model only as a request.
- Archive file: it is written directly with `writeFile` (`src/main.js:77`),
  not through an atomic replace.

Modelling choices:

- The catalog is a sequence of (version key, descriptors) pairs, in the order
  `Object.keys` gives them.
- A JSON object cannot hold the same key twice, so the lemmas about the whole
  archive assume distinct keys.
- `findIndex` is modelled by two first-order recursive functions, each with
  the predicate the source passes in.
- Versions, uuids and names are compared as plain strings. The loose `==` and
  `!=` in the source compare strings here.

## Model

| member | source | states |
|---|---|---|
| JsString.IndexOf | src/main.js:55-56 | the result is -1 exactly when the pattern does not occur; otherwise it is an occurrence with no earlier one |
| JsString.Substitute | src/main.js:55-56 | a replacement string without `$` is inserted unchanged |
| JsString.Replace | src/main.js:55-56 | a string without the pattern is returned unchanged |
| JsString.ReplaceFirstOccurrence | src/main.js:55-56 | in `p + pat + q`, where the pattern's first character does not occur in `p`, the match found is the one after `p`, and the expanded replacement takes its place (verbatim when it holds no `$`) |
| JsString.SubstituteMatch | src/main.js:55 | `$&` in the replacement stands for the matched text |
| Addon.IconUrlOfUuid | src/main.js:55 | for a uuid without `$`, the icon URL is `https://dl.labymod.net/latest/addons/<uuid>/icon.png` |
| Addon.JarUrlOfUuid | src/main.js:56 | for a uuid without `$`, the jar URL is `https://dl.labymod.net/latest/?file=<uuid>&a=1` |
| Addon.IconUrlExpandsMatch | src/main.js:55 | a uuid `$&` puts the matched `%s` back, so the icon URL stays the raw template |
| Addon.CategoryLabel | src/main.js:48 | definition of `categories[index - 1]`, `None` outside the list; its effect on stored records is stated in `Reconcile.StepNew` and `Reconcile.StepUpdate` |
| Addon.FromDescriptor | src/main.js:47-48 | definition of the record stored for a descriptor (category resolved, not deleted); stated in `Reconcile.StepNew` and `Reconcile.StepUpdate` |
| Addon.DataDir | src/main.js:45 | definition of the data directory `./data/addons/mc<version>/<uuid>`; the resulting paths are stated in `Reconcile.StepNew` |
| Addon.IconUrl | src/main.js:55 | definition `ADDON_ICON_URL.replace('%s', uuid)`; its value is stated in `Addon.IconUrlOfUuid` and `Addon.IconUrlExpandsMatch` |
| Addon.JarUrl | src/main.js:56 | definition `ADDON_DOWNLOAD_URL.replace('%s', uuid)`; its value is stated in `Addon.JarUrlOfUuid` |
| Addon.IconDownload | src/main.js:55 | definition of the icon request; stated in `Reconcile.StepNew` |
| Addon.JarDownload | src/main.js:56 | definition of the jar request; stated in `Reconcile.StepNew` and `Reconcile.StepUpdate` |
| Reconcile.FindByUuid | src/main.js:43 | -1 exactly when no record has the uuid; otherwise the first index whose record has it |
| Reconcile.FindByUuidAndName | src/main.js:71 | -1 exactly when no descriptor has both the uuid and the name; otherwise the first index of one that has both |
| Reconcile.Step | src/main.js:43-64 | definition of one descriptor's case split; its three cases are stated in `Reconcile.StepNew`, `Reconcile.StepUpdate`, `Reconcile.StepSameVersion`, and its frame in `Reconcile.StepFrame` |
| Reconcile.ApplyAll | src/main.js:42-65 | definition of the descriptor loop as `Step` over the descriptors in order; stated in `Reconcile.ApplyAllFrame`, `Reconcile.ApplyAllVersions` and `Reconcile.ApplyAllSettled` |
| Reconcile.Mark | src/main.js:70-74 | definition of the sweep's treatment of one record; stated in `Reconcile.SweepOnlyFlags` |
| Reconcile.Swept | src/main.js:69-75 | definition of the sweep over a whole bucket; stated in `Reconcile.SweepOnlyFlags` and `Reconcile.SweepKeepsUuids` |
| Reconcile.ReconcileBucket | src/main.js:42-75 | definition of the descriptor loop followed by the sweep; stated in `Reconcile.KeepsRecords`, `Reconcile.NeverShrinks`, `Reconcile.DeletedIffUnlisted` and `Reconcile.Idempotent` |
| Reconcile.StepNew | src/main.js:47-56 | when no record has the uuid: the descriptor is appended with its category resolved and not deleted, earlier records are unchanged, and exactly two requests are logged, the icon to `./data/addons/mc<version>/<uuid>/icon.png` and then the jar to `.../<name>-v<version>.jar` |
| Reconcile.StepUpdate | src/main.js:57-61 | when the first record with the uuid has another version: that index is overwritten by the descriptor (not deleted), the length and every other index are unchanged, and only the jar request is logged |
| Reconcile.StepSameVersion | src/main.js:62-64 | when the first record with the uuid has the same version: only its deleted flag becomes false, no other field or index changes, no request is logged, and a live record leaves everything unchanged |
| Reconcile.StepFrame | src/main.js:43-64 | each step keeps the uuid at every existing index, adds the descriptor's uuid to the uuid set, grows the bucket by one exactly when the uuid was absent, only touches records with the descriptor's uuid (leaving them live), and keeps uuids unique |
| Reconcile.ApplyAllFrame | src/main.js:42-65 | the descriptor loop never shrinks the bucket or changes a uuid at an index; it leaves records with unlisted uuids untouched; its uuid set is the old set plus the remote uuids; with unique uuids, it keeps them unique and leaves every listed uuid undeleted |
| Reconcile.SweepOnlyFlags | src/main.js:69-75 | the sweep keeps the length and every field except the deleted flag; deleted records stay deleted; a live record becomes deleted exactly when no descriptor has both its uuid and its name |
| Reconcile.SweepKeepsUuids | src/main.js:69-75 | the sweep keeps every uuid and name and the uuid set, and keeps uuids unique |
| Reconcile.KeepsRecords | src/main.js:42-75 | the whole pass never removes a record or changes the uuid at an index, and keeps uuids unique |
| Reconcile.NeverShrinks | src/main.js:42-75 | with unique uuids, the bucket grows by exactly the number of distinct remote uuids it did not hold, and its uuids become the old ones plus the remote ones |
| Reconcile.DeletedIffUnlisted | src/main.js:42-75 | with unique uuids, after the pass a record is deleted exactly when no remote descriptor matches it on both uuid and name |
| Reconcile.ApplyAllVersions | src/main.js:57-59 | with unique uuids on both sides, after the descriptor loop every record with a listed uuid carries the listed version |
| Reconcile.ApplyAllSettled | src/main.js:42-65 | against a bucket with unique uuids that already holds every remote uuid at the remote version, the descriptor loop logs nothing and only clears the flags of the listed uuids |
| Reconcile.FirstPassSettles | src/main.js:42-75 | with unique uuids, after one pass uuids stay unique, every remote uuid is held at the remote version, and a record is deleted exactly when no descriptor matches it on uuid and name |
| Reconcile.NewAfterPass | src/main.js:42-75 | with unique remote uuids, a descriptor whose uuid the stored bucket lacks ends the whole pass as a record past the old bucket that equals its fields, with the category resolved and not deleted: the later steps and the sweep leave it alone |
| Reconcile.UpdatedAfterPass | src/main.js:42-75 | with unique uuids on both sides, a stored record whose descriptor has another version ends the whole pass, at its own index, equal to the descriptor's fields with the category resolved and not deleted |
| Reconcile.Idempotent | src/main.js:42-75 | with unique uuids in the stored and in the remote bucket, a second pass leaves the bucket as the first pass left it and logs no download |
| Update.StoredOrEmpty | src/main.js:36-38 | definition of the stored bucket, or the empty one the pass creates; stated in `Update.BucketOutcome` |
| Update.ReconcileKey | src/main.js:36-75 | definition of one version key's body; stated in `Update.UntouchedBuckets` and `Update.BucketOutcome` |
| Update.UpdateFrom | src/main.js:35-76 | definition of the loop over version keys; stated in `Update.UntouchedBuckets`, `Update.BucketOutcome`, `Update.UpdateKeepsRecords` and `Update.UpdateIdempotent` |
| Update.UntouchedBuckets | src/main.js:35-38 | afterwards the archive's keys are the old keys plus the remote keys, and every bucket whose key the catalog does not list is unchanged |
| Update.BucketOutcome | src/main.js:35-76 | with distinct keys, each listed key's bucket is the pass applied to its stored bucket, or to the empty bucket when there was none |
| Update.UpdateKeepsRecords | src/main.js:35-76 | no bucket or record is ever removed, uuids at indices never change, and uuids stay unique in every bucket |
| Update.ArchiveDeletedIffUnlisted | src/main.js:35-76 | with distinct keys, for a listed key whose stored bucket (if any) has unique uuids: after the update, a record of that key's bucket is deleted exactly when no descriptor of that key matches it on uuid and name |
| Update.UpdateIdempotent | src/main.js:34-77 | with distinct keys, unique uuids in every remote bucket and in every stored bucket the catalog lists, a second update with the same catalog leaves the whole archive unchanged and logs no download |
| Archive.AddonArchive.constructor | src/main.js:31 | the archive starts as loaded, with no download requested |
| Archive.AddonArchive.CheckAddon | src/main.js:43-64 | one descriptor changes only its version's bucket and the log, exactly as `Step` says |
| Archive.AddonArchive.CheckNewAndUpdated | src/main.js:42-65 | the descriptor loop leaves the bucket and the log as `ApplyAll` says, and changes no other bucket |
| Archive.AddonArchive.CheckDeleted | src/main.js:69-75 | the sweep leaves the bucket as `Swept` says, changes no other bucket, and does not touch the log |
| Archive.AddonArchive.ReconcileVersion | src/main.js:36-75 | one version key creates the bucket when missing, then runs the descriptor loop and the sweep, as `ReconcileKey` says |
| Archive.AddonArchive.Update | src/main.js:35-76 | the pass over all version keys ends as `UpdateFrom` says; buckets and records are never removed, and unique uuids stay unique |

## Left out

- Logging: the winston logger and every log call carry no state the pass depends on.
- Filesystem bootstrap: creating `./data`, `./data/addons` and the first `archive.json` (`src/main.js:22-30`), and the `mkdir` of a new add-on's directory (`src/main.js:54`), are filesystem I/O. If the `mkdir` fails, the whole pass is rejected; that is not modelled.
- JSON persistence: reading and parsing `archive.json` and writing it back (`src/main.js:31`, `77`) are I/O. The archive is an in-memory map passed to the constructor.
- HTTP: fetching the catalog and streaming a download (`src/main.js:34`, `80-86`) are network I/O and asynchronous. A download is modelled as a `(url, path)` request appended to the log. Its outcome, the swallowed error, and the unawaited write stream are not modelled.
- Aliasing: the source pushes the remote descriptor object itself into the archive and mutates it (`src/main.js:47-48`, the `push` at `52` and the overwrite at `59`). The model uses values. The sweep reads only `uuid` and `name` from descriptors, so the result is the same.
- Extra JSON fields: descriptor fields other than uuid, name, author, version and category are copied by the source along with the object. The model does not carry them.
- JavaScript value types: versions, uuids and names are strings, and the category index is an integer. Loose equality between values of different JSON types, other non-integer category indices, and a missing `isDeleted` on old records are not modelled.
- StoredOrEmpty, ReconcileVersion: the source creates a bucket when `archiveFile.addons[version]` is falsy (`src/main.js:36`), not when the key is absent. A catalog key that names an inherited `Object.prototype` member (`constructor`, `toString`, `__proto__`) finds a truthy non-array value, so no bucket is created and the `findIndex` at line 43 (or the `forEach` at line 69) throws; the pass then rejects and the archive is never written. The model treats every key as a plain map key, creates an empty bucket and carries on.
- Key order: the order of `Object.keys` (integer-like keys ascending first) is taken as given by the catalog's sequence of buckets, not computed.
