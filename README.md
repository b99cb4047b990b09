# File manager metadata sync, modelled in Dafny

This project models the backend of a small file-management service. The
service keeps files as objects in an S3 bucket (`lista5filesmanager`,
region `us-east-1`). It also keeps a local SQLite `File` table of
`(id, name, url)` records, where `url` is a presigned read URL. The model covers:

- **`sync_db_with_s3`**, which runs on every `GET /get_files`. It lists the
  bucket, indexes the table by name and then makes three changes. It inserts
  a record for each listed key that has none. It re-signs the URL of each
  record whose name is still listed. It deletes each record whose name is no
  longer listed. Then it commits.
- **The handlers** for upload, rename, delete, download and list, as
  operations on the table and the bucket. This includes how a key is derived
  from a file name and a custom name (upload) or from the old key and a new
  base name (rename).
- **The S3 gateway** (`backend/s3_utils.py`): the public-URL format, the
  listing conversion, the head-bucket error dispatch, uploads with a default
  object name, and rename as copy-then-delete.

Layout, one module per file:

| file | module | models |
|---|---|---|
| `results.dfy` | `Results` | Option / Result / Outcome in place of exceptions and 404s |
| `strings.dfy` | `Strings` | `str.split`, `sep.join`, `split(sep)[-1]` |
| `s3_utils.dfy` | `S3Utils` | the gateway; class `Bucket` holds the bucket's objects |
| `naming.dfy` | `Naming` | key derivation on upload and rename |
| `reconcile.dfy` | `Reconcile` | one sync pass as functions (`Synced`), and its properties |
| `file_table.dfy` | `FileTable` | class `Table` (the `File` table) and `Table.Sync`, the imperative pass proved equal to `Synced` |
| `server.dfy` | `Server` | the request handlers |

The presigned-URL generator is a parameter `sign: string -> string`: an
opaque function of the key, fixed for one pass. Where the provider can
refuse a call, a parameter says whether it does. Examples are a refused copy
or delete, missing credentials, and the head-bucket reply.

## How the sync pass is modelled

`Reconcile.Synced(rows, keys, sign)` is the table after one committed pass.
Here `rows` are the records in query order (ascending id) and `keys` are
the listed keys. `{file.name: file for file in db_files}` keeps only the
last record for each name. This model calls that record the name's
*representative* (`IsRep`). Only representatives are re-signed or deleted.
The table has no uniqueness constraint on `name` (backend/server.py:17), and
upload never checks for an existing name (backend/server.py:73-74). So a
table can hold duplicates. An earlier duplicate is then never refreshed and
never deleted (`StaleDuplicateSurvivesDeletion`, `StaleDuplicateNotResigned`).

A user of the service would expect one record per object. After a pass,
the record names should equal the store's keys. After deleting a file and
listing again, its name should be gone. The code keeps these promises only
while record names are unique, and nothing keeps them unique. The model
follows the code:
- Convergence (`SyncConverges`), idempotence (`SyncSecondPassOnlyResigns`,
  `SyncIdempotentOnNames`) and delete-then-list (`DeleteThenList`) are proved
  under `UniqueNames`.
- `StaleDuplicateSurvivesDeletion` and `DeleteThenListWithDuplicates` give
  the counterexamples without it.

Renaming a file to the base name it already has (`b.txt` to `b`) copies the
object onto its own key and then deletes that key. The handler reports
success, but the record now names an object that is gone
(`RenameToOwnNameLosesObject`). Real S3 refuses such a copy. The model
leaves that refusal to the `copyRefused` parameter.

Inserted records get ids `MaxId + 1, MaxId + 2, …` in listing order. This is
SQLite's rowid rule for a table without `AUTOINCREMENT`. SQLAlchemy flushes
the inserts before the deletes, so the ids are counted from the table as it
was before the pass.

## Model

| member | source | states |
|---|---|---|
| `Strings.Split` | backend/server.py:61 | `split('.')` gives at least one piece, and no piece contains the separator |
| `Strings.SplitThenJoin` | backend/server.py:61 | joining the pieces of a split with the separator rebuilds the original string |
| `Strings.JoinThenSplit` | backend/server.py:61 | splitting separator-free pieces joined by the separator gives the same pieces back |
| `Strings.LastPart` | backend/server.py:61 | `split(sep)[-1]` has no separator, is a suffix, and is either the whole string or preceded by a separator |
| `Strings.LastPartUnique` | backend/server.py:83 | those three properties single out `split(sep)[-1]`: any suffix that has them equals it |
| `Strings.LastPartAfterSeparator` | backend/server.py:84 | in `a + sep + b` with separator-free `b`, the last piece is `b`, whatever `a` is |
| `Strings.LastPartOfPiece` | backend/server.py:61 | a string without the separator is its own last piece |
| `Naming.Extension` | backend/server.py:61 | the extension is the text after the last dot, or the whole name when it has no dot |
| `Naming.ExtensionOfDotted` | backend/server.py:62 | `base + "." + ext` has extension `ext` for every base |
| `Naming.HasCustomName` | backend/server.py:60 | the truth test on the optional `customName` field: present and non-empty |
| `Naming.UploadKey` | backend/server.py:60-64 | with a non-empty custom name the key is that name, a dot and the original extension, and keeps that extension; with no name or an empty one it is the file name unchanged |
| `Naming.UploadKeyNoDot` | backend/server.py:60-62 | a file name without a dot becomes the whole extension: `README` with `x` gives `x.README` |
| `Naming.UploadKeyNoCustomName` | backend/server.py:63-64 | an absent or empty custom name keeps `report.pdf` |
| `Naming.UploadKeyLastPieceOnly` | backend/server.py:61-62 | only the last piece is kept: `archive.tar.gz` with `backup` gives `backup.gz` |
| `Naming.UploadKeyOfDotted` | backend/server.py:60-62 | for any stem and a dot-free extension, a non-empty custom name replaces everything before the last dot |
| `Naming.RenameKey` | backend/server.py:83-84 | the new key is the new base, a dot and the old key's extension, and has the old extension |
| `Naming.RenameKeyTwice` | backend/server.py:83-84 | renaming to `b1` and then to `b2` gives the same key as renaming straight to `b2` |
| `Naming.RenameKeyExamples` | backend/server.py:83-84 | `a.tar.gz` with `b` gives `b.gz`; `a.txt` gives `b.txt`; `b.txt` with `b` gives `b.txt` again |
| `S3Utils.PublicUrl` | backend/s3_utils.py:35 | the public URL is exactly `https://` + bucket + `.s3.` + region + `.amazonaws.com/` + key |
| `S3Utils.KeyOfUrl` | backend/s3_utils.py:45 | a key recovered from a URL rebuilds that URL |
| `S3Utils.PublicUrlRoundTrip` | backend/s3_utils.py:66 | the key recovered from a key's public URL is that key |
| `S3Utils.PublicUrlInjective` | backend/s3_utils.py:45 | distinct keys have distinct public URLs |
| `S3Utils.ListFiles` | backend/s3_utils.py:41-47 | one entry per listed key, in order; each entry's URL is that key's public URL, from which `KeyOfUrl` recovers the key; a refused listing raises `ListFailed` |
| `S3Utils.ListFilesEmptyBucket` | backend/s3_utils.py:45 | a response without `Contents` gives an empty list |
| `S3Utils.ContentsOf` | backend/s3_utils.py:45 | `response.get('Contents', [])`: the listed keys, or none when the response has no `Contents` |
| `S3Utils.ObjectKey` | backend/s3_utils.py:31-32 | a given object name is the key; without one, the key has no `/`, is a suffix of the path, and is either the whole path or follows the path's last `/` |
| `S3Utils.ObjectKeyExample` | backend/s3_utils.py:31-32 | `uploads/report.pdf` without an object name is stored as `report.pdf` |
| `S3Utils.Basename` | backend/s3_utils.py:32 | `os.path.basename` as the text after the path's last `/`; its properties are stated on `ObjectKey` |
| `S3Utils.BucketCheck` | backend/s3_utils.py:13-27 | success when head succeeds, or on `404` when creation succeeds; a refused creation fails with `BucketCreateFailed`; `403` is `BucketForbidden`; any other code is `BucketUnexpected` |
| `S3Utils.HeadBucket` | backend/s3_utils.py:14 | the reply `head_bucket` gives: `403` without permission, `404` for a missing bucket, otherwise success |
| `S3Utils.BucketCheckOfProvider` | backend/s3_utils.py:13-27 | against such a provider the check passes exactly when access is permitted and the bucket exists or can be created; it is `BucketForbidden` exactly when access is refused; it is `BucketCreateFailed` exactly for a refused creation of a missing bucket; it is never `BucketUnexpected` |
| `S3Utils.Bucket.CreateIfNotExists` | backend/s3_utils.py:11-27 | reports `BucketCheck`; the bucket is created only on a `404` with creation accepted; objects never change; when the reply comes from the bucket's own state with access permitted, a pass leaves the bucket existing |
| `S3Utils.Bucket.UploadFile` | backend/s3_utils.py:29-39 | on success, stores the data under the object name (else under the path's base name) and returns its public URL; missing credentials and client errors change nothing |
| `S3Utils.Bucket.CopyObject` | backend/s3_utils.py:63 | succeeds exactly when the source exists and the call is accepted, and then puts the source's object under the destination |
| `S3Utils.Bucket.DeleteObject` | backend/s3_utils.py:65 | an accepted delete removes the key, and an absent key is no error |
| `S3Utils.Bucket.RenameFile` | backend/s3_utils.py:59-68 | copy then delete; the bucket ends as `AfterRename` says and the result is `RenameResult`, with the first failure raised and nothing undone |
| `S3Utils.AfterRename` | backend/s3_utils.py:61-68 | the objects after a rename: unchanged when the source is missing or the copy is refused; with a copy under the new key when only the delete is refused; otherwise the copy is made and the source deleted |
| `S3Utils.RenameResult` | backend/s3_utils.py:61-68 | the rename reports the new key's public URL when the source exists and both calls are accepted, and `RenameFailed` otherwise |
| `S3Utils.RenameMovesObject` | backend/s3_utils.py:63-66 | a successful rename between distinct keys puts the object under the new key, removes the old key and leaves every other key alone |
| `S3Utils.RenameOntoItselfDestroys` | backend/s3_utils.py:63-65 | renaming a key onto itself reports success and the object is gone |
| `S3Utils.RenameHalfDone` | backend/s3_utils.py:63-68 | if the copy succeeds and the delete fails, both keys hold the object and `RenameFailed` is raised |
| `Reconcile.NextId` | backend/server.py:41-42 | an inserted record's id is larger than every id in the table |
| `Reconcile.MaxId` | backend/server.py:41-42 | the largest id in the table, 0 for an empty table; no id exceeds it |
| `Reconcile.FirstOccurrences` | backend/server.py:31 | the store dictionary's keys are the listed keys, each once |
| `Reconcile.Missing` | backend/server.py:38-42 | the names set aside for insertion are the listed names that have no record, each once |
| `Reconcile.IsRep` | backend/server.py:35 | the record `{file.name: file for file in db_files}` keeps for a name is the last one with that name in query order |
| `Reconcile.RefreshAt` | backend/server.py:43-46 | a record after the first loop keeps its id and name; it gets its name's signed URL exactly when it is its name's representative and the name is listed |
| `Reconcile.Refreshed` | backend/server.py:43-46 | the table after the first loop, position by position |
| `Reconcile.Doomed` | backend/server.py:48-51 | the positions the second loop deletes: representatives of names the store no longer lists |
| `Reconcile.Kept` | backend/server.py:43-51 | the records that survive the pass, updated where the pass updates them, in their old order |
| `Reconcile.Numbered` | backend/server.py:41-42 | the inserted records, with consecutive ids from the first free one and each key's signed URL |
| `Reconcile.Added` | backend/server.py:38-42 | the inserted records' names are exactly the listed keys with no record; each gets the key's signed URL and a fresh id; names are unique and ids ascending |
| `Reconcile.Synced` | backend/server.py:29-53 | the table after one committed pass: the kept records followed by the added ones; its names are old names or listed keys. `FileTable.Table.Sync` is proved to compute it, and every `Sync*` lemma below is stated about it |
| `Reconcile.SyncedAscending` | backend/server.py:53 | after the commit, ids still ascend in query order; inserted records come after the kept ones |
| `Reconcile.SyncCoversListing` | backend/server.py:38-42 | after a pass every listed key has at least one record |
| `Reconcile.SyncAddsOnlyMissing` | backend/server.py:38-42 | every record with a new id is for a listed key that had no record, has a fresh id and the key's signed URL; no key gets two |
| `Reconcile.SyncResignsRepresentative` | backend/server.py:43-46 | the representative of a listed name keeps its id and name and gets the name's signed URL |
| `Reconcile.SyncDeletesDeparted` | backend/server.py:48-51 | the representative of a name the store no longer lists is deleted: no record keeps its id |
| `Reconcile.SyncKeepsListed` | backend/server.py:48-51 | no record whose name is listed is deleted |
| `Reconcile.SyncLeavesShadowed` | backend/server.py:35-51 | a record shadowed by a later record with the same name stays exactly as it was |
| `Reconcile.SyncConverges` | backend/server.py:29-53 | with unique names, after a pass the record names equal the listed keys and are still unique |
| `Reconcile.ResignAll` | backend/server.py:43-46 | re-signing every record keeps positions, ids and names and gives every record its name's signed URL |
| `Reconcile.SyncOnConverged` | backend/server.py:38-51 | on a table that already matches the listing with unique names, a pass inserts and deletes nothing and only re-signs |
| `Reconcile.SyncSecondPassOnlyResigns` | backend/server.py:29-53 | with unique names, a second pass over the same listing only re-signs every record of the first pass's result |
| `Reconcile.SyncIdempotentOnNames` | backend/server.py:29-53 | with unique names and an unchanged store, a second pass keeps the same names and ids |
| `Reconcile.StaleDuplicateSurvivesDeletion` | backend/server.py:35-51 | with two records named `a.txt` and an empty listing, a record named `a.txt` remains, so names do not converge |
| `Reconcile.StaleDuplicateNotResigned` | backend/server.py:35-46 | of two records named `a.txt`, only the later one is re-signed; the earlier keeps its old URL |
| `Reconcile.DeleteThenList` | backend/server.py:97-106 | with unique names, after a record is deleted and its key is gone from the listing, the next pass leaves no record with that name |
| `Reconcile.DeleteThenListWithDuplicates` | backend/server.py:97-106 | with three records named `a`, deleting the last and listing a store without `a` still leaves a record named `a` |
| `Reconcile.UploadThenList` | backend/server.py:72-75 | the record an upload appends survives the next pass whose listing holds its key: same id, the key's signed URL |
| `Reconcile.AppendShadowsDuplicates` | backend/server.py:73-74 | uploading a name that already exists turns every earlier record with that name into a shadowed duplicate |
| `FileTable.Find` | backend/server.py:82 | lookup by id finds a position holding that id, or reports that no record has it |
| `FileTable.FindUnique` | backend/server.py:16 | with ascending ids, lookup finds the one position that holds the id |
| `FileTable.RemoveExactlyOne` | backend/server.py:105 | deleting one record removes exactly its id and keeps every other record |
| `FileTable.StoreIndex` | backend/server.py:30-31 | the store dictionary holds exactly the listed keys and yields them in first-occurrence order |
| `FileTable.NameIndex` | backend/server.py:34-35 | the name dictionary maps every name in the table to the last record with that name |
| `FileTable.ResignOrCollect` | backend/server.py:38-46 | the first loop re-signs exactly the representatives of listed names and collects exactly the listed names with no record |
| `FileTable.Departed` | backend/server.py:48-51 | the second loop marks exactly the representatives of names that are no longer listed |
| `FileTable.Table.constructor` | backend/server.py:20-21 | a new table is empty |
| `FileTable.Table.Insert` | backend/server.py:73-75 | adding a record appends it with the next id |
| `FileTable.Table.Update` | backend/server.py:91-93 | renaming a record changes only its name and url; its id stays |
| `FileTable.Table.Remove` | backend/server.py:105-106 | deleting a record removes exactly that position |
| `FileTable.Table.Sync` | backend/server.py:29-53 | the committed table is `Synced` of the old table and the listed keys, and ids still ascend |
| `Server.UploadFile` | backend/server.py:55-77 | stores the object under the derived key, then always appends a new record with that name and a signed URL, even if the name exists; a failed store write changes nothing |
| `Server.JoinPath` | backend/server.py:66 | `os.path.join` of two components, where an absolute second component discards the first |
| `Server.UploadPathNamesKey` | backend/server.py:66-69 | for a key without `/`, the saved file's path defaults to that same key as object name |
| `Server.RenameFile` | backend/server.py:79-95 | an unknown id is `NotFound` and changes nothing; otherwise the bucket ends as `AfterRename`; on success the record keeps its id and gets the new key and its signed URL, and that key holds an object exactly when it differs from the old one; on failure the table is unchanged |
| `Server.RenameToOwnNameLosesObject` | backend/server.py:83-87 | when the new key equals the old one, the rename reports success and the object under that key is gone |
| `Server.RenameToOwnNameExample` | backend/server.py:83-87 | `b.txt` renamed to `b` loses its object |
| `Server.DeleteFile` | backend/server.py:97-108 | an unknown id is `NotFound` and changes nothing; otherwise the object is deleted, then exactly that record; a refused delete changes nothing |
| `Server.DownloadFile` | backend/server.py:117-120 | returns the URL stored with the record that has the id, not a fresh one; `NotFound` exactly when no record has the id |
| `Server.GetFiles` | backend/server.py:110-115 | a refused listing raises `ListFailed` and changes nothing; otherwise the table becomes `Synced` of the listed keys and is returned in query order |
| `Server.GetFilesMatchesBucket` | backend/server.py:110-115 | when the listing names exactly the bucket's objects and names are unique, after listing there is one record per object |

## Left out

- Flask routing, form parsing and JSON responses: each handler is an operation on the table and the bucket. A missing `file` or `name` form field (HTTP 400) is not modelled.
- SQLAlchemy sessions and SQLite persistence: a commit is one atomic assignment to `Table.rows`. Commit failures are not modelled. The `String(120)` and `String(200)` column limits are not modelled, because SQLite does not enforce them.
- Query order: `File.query.all()` has no `ORDER BY`. The model assumes SQLite's usual rowid order, which is ascending id.
- Saving the upload into the local `uploads` folder, and creating that folder: file-system I/O.
- boto3 itself: credentials, the network, signature contents and expiry times. The signer is the parameter `sign`. Provider refusals are parameters. A failure of `generate_presigned_url` is not modelled; the signer is total.
- Listing pagination: one `list_objects_v2` call returns at most 1000 keys. The listing response is a parameter, so a truncated listing is just a shorter one.
- Provider-specific rules: S3 refuses a `LocationConstraint` of `us-east-1`, and refuses to copy an object onto itself without a metadata change. These are not derived from the bucket state. They appear only as the `createRefused` and `copyRefused` parameters.
- The startup call `create_bucket_if_not_exists(BUCKET_NAME)` (backend/server.py:27) is the same operation as `S3Utils.Bucket.CreateIfNotExists`. It is not modelled separately.
- Concurrent requests racing with a sync pass: the code has no locking, and the model covers one request at a time.
- The browser front end (`frontend/script.js`).
