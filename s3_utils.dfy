/** The object-store gateway of backend/s3_utils.py, against an abstract
    bucket: a flag saying whether the bucket exists and a map from object
    key to object bytes. The provider's answers that the code branches on
    (the head-bucket reply, a refused call, missing credentials) are
    parameters of the operations. */
module S3Utils {
  import opened Results
  import Strings

  const BucketName: string := "lista5filesmanager"
  const Region: string := "us-east-1"

  type Key = string
  type Blob = seq<bv8>

  /** The errors the gateway raises, one per `raise` in backend/s3_utils.py,
      and `DeleteFailed` for the `ClientError` that `delete_object` lets
      through unwrapped in the delete handler. */
  datatype StoreError =
    | BucketCreateFailed   // "Could not create bucket"
    | BucketForbidden      // head-bucket answered 403
    | BucketUnexpected     // head-bucket answered any other error code
    | CredentialsMissing   // NoCredentialsError on upload
    | UploadFailed         // ClientError on upload
    | ListFailed           // ClientError on listing
    | RenameFailed         // ClientError on copy or delete during rename
    | DeleteFailed         // ClientError on a plain delete

  // ---------------------------------------------------------------------
  // Public URLs

  function UrlPrefix(bucket: string): string {
    "https://" + bucket + ".s3." + Region + ".amazonaws.com/"
  }

  /** The non-expiring public address of `key` in `bucket`. */
  function PublicUrl(bucket: string, key: Key): (url: string)
    ensures url == "https://" + bucket + ".s3." + Region + ".amazonaws.com/" + key
  {
    UrlPrefix(bucket) + key
  }

  /** Recovers the key from a public URL of `bucket`, if `url` is one. */
  function KeyOfUrl(bucket: string, url: string): (key: Option<Key>)
    ensures key.Some? ==> PublicUrl(bucket, key.value) == url
  {
    var p := UrlPrefix(bucket);
    if |p| <= |url| && url[..|p|] == p then Some(url[|p|..]) else None
  }

  /** Every public URL names exactly the key it was made from. */
  lemma PublicUrlRoundTrip(bucket: string, key: Key)
    ensures KeyOfUrl(bucket, PublicUrl(bucket, key)) == Some(key)
  {
    var p := UrlPrefix(bucket);
    assert (p + key)[..|p|] == p;
    assert (p + key)[|p|..] == key;
  }

  /** Distinct keys have distinct public URLs. */
  lemma PublicUrlInjective(bucket: string, k1: Key, k2: Key)
    requires PublicUrl(bucket, k1) == PublicUrl(bucket, k2)
    ensures k1 == k2
  {
    PublicUrlRoundTrip(bucket, k1);
    PublicUrlRoundTrip(bucket, k2);
  }

  // ---------------------------------------------------------------------
  // Listing

  /** One item of a listing: `{'name': Key, 'url': public URL}`. */
  datatype Entry = Entry(name: Key, url: string)

  /** What `list_objects_v2` answered: a response whose `Contents` may be
      missing (an empty bucket), or a ClientError. */
  datatype ListResponse = Listed(contents: Option<seq<Key>>) | ListRefused

  function ListedKeys(entries: seq<Entry>): (keys: seq<Key>)
    ensures |keys| == |entries|
    ensures forall i :: 0 <= i < |entries| ==> keys[i] == entries[i].name
  {
    seq(|entries|, i requires 0 <= i < |entries| => entries[i].name)
  }

  function ContentsOf(response: ListResponse): seq<Key>
    requires response.Listed?
  {
    match response.contents
    case Some(keys) => keys
    case None => []
  }

  /** `list_files_in_s3`: one entry per listed key, in order, each carrying
      the key's public URL; a refused listing raises. */
  function ListFiles(bucket: string, response: ListResponse): (r: Result<seq<Entry>, StoreError>)
    ensures r.Err? <==> response.ListRefused?
    ensures r.Err? ==> r.error == ListFailed
    ensures r.Ok? ==> ListedKeys(r.value) == ContentsOf(response)
    ensures r.Ok? ==> forall i :: 0 <= i < |r.value| ==> r.value[i].url == PublicUrl(bucket, r.value[i].name)
    ensures r.Ok? ==> forall i :: 0 <= i < |r.value| ==>
                        KeyOfUrl(bucket, r.value[i].url) == Some(r.value[i].name)
  {
    match response
    case ListRefused => Err(ListFailed)
    case Listed(_) =>
      var keys := ContentsOf(response);
      var entries := seq(|keys|, i requires 0 <= i < |keys| => Entry(keys[i], PublicUrl(bucket, keys[i])));
      assert forall i :: 0 <= i < |keys| ==> KeyOfUrl(bucket, entries[i].url) == Some(keys[i]) by {
        forall i | 0 <= i < |keys| { PublicUrlRoundTrip(bucket, keys[i]); }
      }
      Ok(entries)
  }

  /** A listing without `Contents` is an empty list, not an error. */
  lemma ListFilesEmptyBucket(bucket: string)
    ensures ListFiles(bucket, Listed(None)) == Ok([])
  {
    var r := ListFiles(bucket, Listed(None));
    assert |ListedKeys(r.value)| == 0;
  }

  // ---------------------------------------------------------------------
  // Default object name

  /** `os.path.basename`: the part of a path after its last '/'. */
  function Basename(path: string): string {
    Strings.LastPart(path, '/')
  }

  /** The key an upload is stored under: the given object name, or else the
      part of the local path after its last '/'. */
  function ObjectKey(localPath: string, objectName: Option<Key>): (key: Key)
    ensures objectName.Some? ==> key == objectName.value
    ensures objectName.None? ==>
      && '/' !in key
      && |key| <= |localPath| && localPath[|localPath| - |key|..] == key
      && (|key| == |localPath| || localPath[|localPath| - |key| - 1] == '/')
  {
    match objectName
    case Some(k) => k
    case None => Basename(localPath)
  }

  /** An upload from `uploads/report.pdf` without an object name is stored
      as `report.pdf`. */
  lemma ObjectKeyExample()
    ensures ObjectKey("uploads/report.pdf", None) == "report.pdf"
  {
    assert "uploads/report.pdf" == "uploads" + ['/'] + "report.pdf";
    Strings.LastPartAfterSeparator("uploads", "report.pdf", '/');
  }

  // ---------------------------------------------------------------------
  // Bucket check

  /** The provider's answer to `head_bucket`. */
  datatype HeadReply = HeadOk | HeadError(code: string)

  /** The reply a provider gives: 403 without permission, 404 when the
      bucket is missing. */
  function HeadBucket(bucketExists: bool, permitted: bool): HeadReply {
    if !permitted then HeadError("403") else if bucketExists then HeadOk else HeadError("404")
  }

  /** What `create_bucket_if_not_exists` reports for a head reply, given
      whether a `create_bucket` call would be refused. */
  function BucketCheck(reply: HeadReply, createRefused: bool): (r: Outcome<StoreError>)
    ensures r == Pass <==> reply == HeadOk || (reply == HeadError("404") && !createRefused)
    ensures r == Fail(BucketCreateFailed) <==> reply == HeadError("404") && createRefused
    ensures r == Fail(BucketForbidden) <==> reply == HeadError("403")
    ensures r == Fail(BucketUnexpected) <==> reply.HeadError? && reply.code != "404" && reply.code != "403"
  {
    match reply
    case HeadOk => Pass
    case HeadError(code) =>
      if code == "404" then (if createRefused then Fail(BucketCreateFailed) else Pass)
      else if code == "403" then Fail(BucketForbidden)
      else Fail(BucketUnexpected)
  }

  /** Against a provider that answers as `HeadBucket` does, the check
      passes exactly when access is permitted and the bucket exists or can
      be created, fails as forbidden exactly when access is refused, and
      never reports an unexpected code. */
  lemma BucketCheckOfProvider(bucketExists: bool, permitted: bool, createRefused: bool)
    ensures var r := BucketCheck(HeadBucket(bucketExists, permitted), createRefused);
      && (r == Pass <==> permitted && (bucketExists || !createRefused))
      && (r == Fail(BucketForbidden) <==> !permitted)
      && (r == Fail(BucketCreateFailed) <==> permitted && !bucketExists && createRefused)
      && r != Fail(BucketUnexpected)
  {
  }

  // ---------------------------------------------------------------------
  // Rename as copy-then-delete

  /** The objects after `rename_file_in_s3`: the copy happens when the
      source exists and the provider accepts it; the delete follows only
      a successful copy. */
  function AfterRename(objects: map<Key, Blob>, src: Key, dst: Key, copyRefused: bool, deleteRefused: bool): map<Key, Blob> {
    if src !in objects || copyRefused then objects
    else if deleteRefused then objects[dst := objects[src]]
    else objects[dst := objects[src]] - {src}
  }

  function RenameResult(bucket: string, objects: map<Key, Blob>, src: Key, dst: Key, copyRefused: bool, deleteRefused: bool): Result<string, StoreError> {
    if src !in objects || copyRefused || deleteRefused then Err(RenameFailed)
    else Ok(PublicUrl(bucket, dst))
  }

  /** A successful rename between distinct keys moves the object and
      touches nothing else. */
  lemma RenameMovesObject(bucket: string, objects: map<Key, Blob>, src: Key, dst: Key)
    requires src in objects && src != dst
    ensures RenameResult(bucket, objects, src, dst, false, false) == Ok(PublicUrl(bucket, dst))
    ensures var after := AfterRename(objects, src, dst, false, false);
      && dst in after && after[dst] == objects[src]
      && src !in after
      && forall k :: k != src && k != dst ==> (k in after <==> k in objects) && (k in objects ==> after[k] == objects[k])
  {
  }

  /** Renaming a key onto itself reports success and destroys the object. */
  lemma RenameOntoItselfDestroys(bucket: string, objects: map<Key, Blob>, k: Key)
    requires k in objects
    ensures RenameResult(bucket, objects, k, k, false, false).Ok?
    ensures AfterRename(objects, k, k, false, false).Keys == objects.Keys - {k}
  {
  }

  /** A copy that succeeds followed by a delete that fails leaves the object
      under both keys and reports an error. */
  lemma RenameHalfDone(bucket: string, objects: map<Key, Blob>, src: Key, dst: Key)
    requires src in objects
    ensures RenameResult(bucket, objects, src, dst, false, true) == Err(RenameFailed)
    ensures var after := AfterRename(objects, src, dst, false, true);
      src in after && dst in after && after[dst] == objects[src]
  {
  }

  // ---------------------------------------------------------------------
  // The bucket

  /** How a `upload_file` call ends. */
  datatype UploadFault = NoFault | NoCredentials | UploadRefused

  class Bucket {
    const name: string
    var bucketExists: bool
    var objects: map<Key, Blob>

    constructor (name: string, bucketExists: bool, objects: map<Key, Blob>)
      ensures this.name == name && this.bucketExists == bucketExists && this.objects == objects
    {
      this.name := name;
      this.bucketExists := bucketExists;
      this.objects := objects;
    }

    /** `create_bucket_if_not_exists`: nothing happens when the head request
        succeeds; a 404 creates the bucket; 403 and any other code raise. */
    method CreateIfNotExists(reply: HeadReply, createRefused: bool) returns (r: Outcome<StoreError>)
      modifies this
      ensures r == BucketCheck(reply, createRefused)
      ensures bucketExists == (old(bucketExists) || (reply == HeadError("404") && !createRefused))
      ensures reply == HeadBucket(old(bucketExists), true) && r == Pass ==> bucketExists
      ensures objects == old(objects)
    {
      match reply {
        case HeadOk =>
          r := Pass;
        case HeadError(code) =>
          if code == "404" {
            if createRefused {
              r := Fail(BucketCreateFailed);
            } else {
              bucketExists := true;
              r := Pass;
            }
          } else if code == "403" {
            r := Fail(BucketForbidden);
          } else {
            r := Fail(BucketUnexpected);
          }
      }
    }

    /** `upload_file_to_s3`: stores `data` under the object name, or under
        the local path's base name when none is given, and returns the
        key's public URL. */
    method UploadFile(localPath: string, objectName: Option<Key>, data: Blob, fault: UploadFault)
      returns (r: Result<string, StoreError>)
      modifies this
      ensures bucketExists == old(bucketExists)
      ensures fault == NoFault ==>
        var key := ObjectKey(localPath, objectName);
        objects == old(objects)[key := data] && r == Ok(PublicUrl(name, key))
      ensures fault == NoCredentials ==> objects == old(objects) && r == Err(CredentialsMissing)
      ensures fault == UploadRefused ==> objects == old(objects) && r == Err(UploadFailed)
    {
      var key := ObjectKey(localPath, objectName);
      match fault {
        case NoFault =>
          objects := objects[key := data];
          r := Ok(PublicUrl(name, key));
        case NoCredentials =>
          r := Err(CredentialsMissing);
        case UploadRefused =>
          r := Err(UploadFailed);
      }
    }

    /** `copy_object`: fails when the source is missing or the provider
        refuses. */
    method CopyObject(src: Key, dst: Key, refused: bool) returns (ok: bool)
      modifies this
      ensures bucketExists == old(bucketExists)
      ensures ok == (src in old(objects) && !refused)
      ensures objects == if ok then old(objects)[dst := old(objects)[src]] else old(objects)
    {
      ok := src in objects && !refused;
      if ok {
        objects := objects[dst := objects[src]];
      }
    }

    /** `delete_object`: deleting an absent key succeeds and changes nothing. */
    method DeleteObject(key: Key, refused: bool) returns (ok: bool)
      modifies this
      ensures bucketExists == old(bucketExists)
      ensures ok == !refused
      ensures objects == if ok then old(objects) - {key} else old(objects)
    {
      ok := !refused;
      if ok {
        objects := objects - {key};
      }
    }

    /** `rename_file_in_s3`: copy to the new key, then delete the old one;
        the first failure is raised and nothing is undone. */
    method RenameFile(oldKey: Key, newKey: Key, copyRefused: bool, deleteRefused: bool)
      returns (r: Result<string, StoreError>)
      modifies this
      ensures bucketExists == old(bucketExists)
      ensures objects == AfterRename(old(objects), oldKey, newKey, copyRefused, deleteRefused)
      ensures r == RenameResult(name, old(objects), oldKey, newKey, copyRefused, deleteRefused)
    {
      var copied := CopyObject(oldKey, newKey, copyRefused);
      if !copied {
        return Err(RenameFailed);
      }
      var deleted := DeleteObject(oldKey, deleteRefused);
      if !deleted {
        return Err(RenameFailed);
      }
      r := Ok(PublicUrl(name, newKey));
    }
  }
}
