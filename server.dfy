/** The request handlers of backend/server.py as operations on the `File`
    table and the bucket. Each handler works on the store first and on the
    table second, with no rollback between the two. The signer and the
    provider's failures are parameters; HTTP parsing and JSON encoding are
    not modelled. */
module Server {
  import opened Results
  import opened Reconcile
  import opened FileTable
  import opened S3Utils
  import Naming
  import Strings

  /** What a handler reports instead of its JSON result: a 404 from
      `get_or_404`, or an exception raised by the gateway. */
  datatype Error = NotFound | Store(cause: StoreError)

  const UploadFolder: string := "uploads"

  /** `os.path.join(dir, name)` for two components: an absolute `name`
      discards `dir`. */
  function JoinPath(dir: string, name: string): string {
    if |name| > 0 && name[0] == '/' then name
    else if dir == [] || dir[|dir| - 1] == '/' then dir + name
    else dir + "/" + name
  }

  /** The upload handler passes the key as the object name; for a key
      without '/' that is also the name the gateway would default to for
      the saved file's path. */
  lemma UploadPathNamesKey(key: Key)
    requires '/' !in key
    ensures ObjectKey(JoinPath(UploadFolder, key), None) == key
  {
    assert JoinPath(UploadFolder, key) == "uploads" + ['/'] + key;
    Strings.LastPartAfterSeparator("uploads", key, '/');
  }

  /** `POST /upload`: derive the key, store the object under it, then
      always append a new record, even when a record with that name
      already exists. */
  method UploadFile(table: Table, bucket: Bucket, fileName: string, customName: Option<string>,
                    data: Blob, fault: UploadFault, sign: Signer)
    returns (r: Result<FileRecord, Error>)
    requires table.Valid()
    modifies table, bucket
    ensures table.Valid()
    ensures bucket.bucketExists == old(bucket.bucketExists)
    ensures var key := Naming.UploadKey(fileName, customName);
      if fault == NoFault then
        && bucket.objects == old(bucket.objects)[key := data]
        && r == Ok(FileRecord(NextId(old(table.rows)), key, sign(key)))
        && table.rows == old(table.rows) + [r.value]
      else
        && bucket.objects == old(bucket.objects)
        && table.rows == old(table.rows)
        && r == Err(Store(if fault == NoCredentials then CredentialsMissing else UploadFailed))
  {
    var key := Naming.UploadKey(fileName, customName);
    var path := JoinPath(UploadFolder, key);
    var stored := bucket.UploadFile(path, Some(key), data, fault);
    if stored.Err? {
      return Err(Store(stored.error));
    }
    var rec := table.Insert(key, sign(key));
    r := Ok(rec);
  }

  /** `PUT /rename/<id>`: look the record up, move the object to the new
      key, then give the record the new name and a URL signed for it. */
  method RenameFile(table: Table, bucket: Bucket, id: nat, newBase: string,
                    copyRefused: bool, deleteRefused: bool, sign: Signer)
    returns (r: Result<FileRecord, Error>)
    requires table.Valid()
    modifies table, bucket
    ensures table.Valid()
    ensures bucket.bucketExists == old(bucket.bucketExists)
    ensures Find(old(table.rows), id).None? ==>
      r == Err(NotFound) && table.rows == old(table.rows) && bucket.objects == old(bucket.objects)
    ensures Find(old(table.rows), id).Some? ==>
      var i := Find(old(table.rows), id).value;
      var oldKey := old(table.rows)[i].name;
      var newKey := Naming.RenameKey(oldKey, newBase);
      && bucket.objects == AfterRename(old(bucket.objects), oldKey, newKey, copyRefused, deleteRefused)
      && if RenameResult(bucket.name, old(bucket.objects), oldKey, newKey, copyRefused, deleteRefused).Ok?
         then r == Ok(FileRecord(id, newKey, sign(newKey))) && table.rows == old(table.rows)[i := r.value]
         else r == Err(Store(RenameFailed)) && table.rows == old(table.rows)
    ensures r.Ok? ==> (r.value.name in bucket.objects <==> r.value.name != old(table.rows)[Find(old(table.rows), id).value].name)
  {
    var found := Find(table.rows, id);
    if found.None? {
      return Err(NotFound);
    }
    var i := found.value;
    var oldKey := table.rows[i].name;
    var newKey := Naming.RenameKey(oldKey, newBase);
    var moved := bucket.RenameFile(oldKey, newKey, copyRefused, deleteRefused);
    if moved.Err? {
      return Err(Store(moved.error));
    }
    table.Update(i, newKey, sign(newKey));
    r := Ok(table.rows[i]);
  }

  /** `DELETE /delete/<id>`: look the record up, delete its object, then
      delete the record. */
  method DeleteFile(table: Table, bucket: Bucket, id: nat, deleteRefused: bool)
    returns (r: Outcome<Error>)
    requires table.Valid()
    modifies table, bucket
    ensures table.Valid()
    ensures bucket.bucketExists == old(bucket.bucketExists)
    ensures Find(old(table.rows), id).None? ==>
      r == Fail(NotFound) && table.rows == old(table.rows) && bucket.objects == old(bucket.objects)
    ensures Find(old(table.rows), id).Some? ==>
      var i := Find(old(table.rows), id).value;
      if deleteRefused then
        r == Fail(Store(DeleteFailed)) && table.rows == old(table.rows) && bucket.objects == old(bucket.objects)
      else
        && r == Pass
        && bucket.objects == old(bucket.objects) - {old(table.rows)[i].name}
        && table.rows == old(table.rows)[..i] + old(table.rows)[i + 1..]
        && Ids(table.rows) == Ids(old(table.rows)) - {id}
  {
    var found := Find(table.rows, id);
    if found.None? {
      return Fail(NotFound);
    }
    var i := found.value;
    var deleted := bucket.DeleteObject(table.rows[i].name, deleteRefused);
    if !deleted {
      return Fail(Store(DeleteFailed));
    }
    RemoveExactlyOne(table.rows, i);
    table.Remove(i);
    r := Pass;
  }

  /** `GET /download/<id>`: the URL stored with the record, as it is; it
      is not signed again. */
  method DownloadFile(table: Table, id: nat) returns (r: Result<string, Error>)
    requires table.Valid()
    ensures r.Err? <==> id !in Ids(table.rows)
    ensures r.Err? ==> r.error == NotFound
    ensures r.Ok? ==> exists i :: 0 <= i < |table.rows| && table.rows[i].id == id && table.rows[i].url == r.value
  {
    var found := Find(table.rows, id);
    if found.None? {
      r := Err(NotFound);
      forall x | x in table.rows ensures x.id != id {
        var k :| 0 <= k < |table.rows| && table.rows[k] == x;
      }
    } else {
      r := Ok(table.rows[found.value].url);
      assert table.rows[found.value] in table.rows;
    }
  }

  /** `GET /get_files`: list the bucket, run one reconciliation pass, and
      return every record in query order. */
  method GetFiles(table: Table, response: ListResponse, sign: Signer)
    returns (r: Result<seq<FileRecord>, Error>)
    requires table.Valid()
    modifies table
    ensures table.Valid()
    ensures response.ListRefused? ==> r == Err(Store(ListFailed)) && table.rows == old(table.rows)
    ensures response.Listed? ==>
      table.rows == Synced(old(table.rows), ContentsOf(response), sign) && r == Ok(table.rows)
  {
    var listing := ListFiles(BucketName, response);
    if listing.Err? {
      return Err(Store(listing.error));
    }
    table.Sync(listing.value, sign);
    r := Ok(table.rows);
  }

  /** When the listing names exactly the bucket's objects and record names
      are unique, listing the files leaves one record per object. */
  lemma GetFilesMatchesBucket(rows: seq<FileRecord>, response: ListResponse, objects: map<Key, Blob>, sign: Signer)
    requires UniqueNames(rows)
    requires response.Listed? && Elems(ContentsOf(response)) == objects.Keys
    ensures Names(Synced(rows, ContentsOf(response), sign)) == objects.Keys
    ensures UniqueNames(Synced(rows, ContentsOf(response), sign))
  {
    SyncConverges(rows, ContentsOf(response), sign);
  }

  /** Renaming a record to the base name it already has (`b.txt` to `b`)
      targets its own key: the copy and the delete both succeed, so the
      handler reports success and the record keeps the name, but the
      object under that name is gone. */
  lemma RenameToOwnNameLosesObject(bucketName: string, objects: map<Key, Blob>, oldKey: Key, newBase: string)
    requires oldKey in objects && Naming.RenameKey(oldKey, newBase) == oldKey
    ensures var newKey := Naming.RenameKey(oldKey, newBase);
      && RenameResult(bucketName, objects, oldKey, newKey, false, false) == Ok(PublicUrl(bucketName, oldKey))
      && oldKey !in AfterRename(objects, oldKey, newKey, false, false)
  {
    RenameOntoItselfDestroys(bucketName, objects, oldKey);
  }

  /** The case above happens: `b.txt` renamed to `b` is renamed onto itself. */
  lemma RenameToOwnNameExample(bucketName: string, objects: map<Key, Blob>)
    requires "b.txt" in objects
    ensures "b.txt" !in AfterRename(objects, "b.txt", Naming.RenameKey("b.txt", "b"), false, false)
  {
    Naming.RenameKeyExamples();
    RenameToOwnNameLosesObject(bucketName, objects, "b.txt", "b");
  }
}
