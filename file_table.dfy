/** The `File` table of backend/server.py as a mutable object: its rows in
    query order, the primary-key lookup `get_or_404` relies on, the row
    changes the handlers commit, and `sync_db_with_s3` written as the
    source writes it (two dictionaries, an update loop, a delete loop, one
    commit). */
module FileTable {
  import opened Results
  import opened Reconcile
  import S3Utils

  /** `File.query.get(id)`: the position of the record with that id. */
  function Find(rows: seq<FileRecord>, id: nat): (r: Option<nat>)
    ensures r.Some? ==> r.value < |rows| && rows[r.value].id == id
    ensures r.None? ==> forall i :: 0 <= i < |rows| ==> rows[i].id != id
    decreases |rows|
  {
    if rows == [] then None
    else if rows[|rows| - 1].id == id then Some(|rows| - 1)
    else Find(rows[..|rows| - 1], id)
  }

  /** In a table with ascending ids, only one position holds a given id. */
  lemma FindUnique(rows: seq<FileRecord>, id: nat, i: nat)
    requires Ascending(rows)
    requires i < |rows| && rows[i].id == id
    ensures Find(rows, id) == Some(i)
  {
  }

  /** Deleting the record at one position removes exactly its id and keeps
      every other record. */
  lemma RemoveExactlyOne(rows: seq<FileRecord>, i: nat)
    requires Ascending(rows) && i < |rows|
    ensures Ids(rows[..i] + rows[i + 1..]) == Ids(rows) - {rows[i].id}
    ensures forall j :: 0 <= j < |rows| && j != i ==> rows[j] in rows[..i] + rows[i + 1..]
  {
    var rest := rows[..i] + rows[i + 1..];
    forall j | 0 <= j < |rows| && j != i ensures rows[j] in rest {
      if j < i { assert rest[j] == rows[j]; } else { assert rest[j - 1] == rows[j]; }
    }
    forall x | x in rest ensures x.id in Ids(rows) && x.id != rows[i].id {
      var k :| 0 <= k < |rest| && rest[k] == x;
      if k < i { assert x == rows[k]; } else { assert x == rows[k + 1]; }
    }
    forall n | n in Ids(rows) && n != rows[i].id ensures n in Ids(rest) {
      var x :| x in rows && x.id == n;
      var j :| 0 <= j < |rows| && rows[j] == x;
      assert j != i;
    }
  }

  /** `{file.name: file for file in db_files}`, as positions: every name of
      the table maps to its last record. */
  ghost predicate IndexesLast(rows: seq<FileRecord>, dict: map<string, nat>) {
    && dict.Keys == Names(rows)
    && forall n :: n in dict ==> dict[n] < |rows| && rows[dict[n]].name == n && IsRep(rows, dict[n])
  }

  /** `s3_files_dict`: the listed keys (mapped to their public URLs), and
      the order in which the dictionary yields them. */
  method StoreIndex(listing: seq<S3Utils.Entry>) returns (dict: map<string, string>, order: seq<string>)
    ensures order == FirstOccurrences(S3Utils.ListedKeys(listing))
    ensures dict.Keys == Elems(S3Utils.ListedKeys(listing))
  {
    ghost var keys := S3Utils.ListedKeys(listing);
    dict, order := map[], [];
    for k := 0 to |listing|
      invariant order == FirstOccurrences(keys[..k])
      invariant dict.Keys == Elems(order)
    {
      var entry := listing[k];
      assert keys[..k + 1] == keys[..k] + [entry.name];
      if entry.name !in dict {
        order := order + [entry.name];
      }
      dict := dict[entry.name := entry.url];
    }
    assert keys[..|listing|] == keys;
  }

  /** `db_files_dict`: each name maps to the last record carrying it. */
  method NameIndex(rows: seq<FileRecord>) returns (dict: map<string, nat>)
    ensures IndexesLast(rows, dict)
  {
    dict := map[];
    for i := 0 to |rows|
      invariant dict.Keys == Names(rows[..i])
      invariant forall n :: n in dict ==>
        dict[n] < i && rows[dict[n]].name == n &&
        forall j :: dict[n] < j < i ==> rows[j].name != n
    {
      assert rows[..i + 1] == rows[..i] + [rows[i]];
      dict := dict[rows[i].name := i];
    }
    assert rows[..|rows|] == rows;
  }

  /** Every representative is the record its name maps to. */
  lemma IndexedRep(rows: seq<FileRecord>, dict: map<string, nat>, i: nat)
    requires IndexesLast(rows, dict)
    requires i < |rows| && IsRep(rows, i)
    ensures rows[i].name in dict && dict[rows[i].name] == i
  {
    assert rows[i] in rows;
  }

  /** The first loop of the pass: the listed names with a record get their
      representative re-signed, the others are set aside for insertion. */
  method ResignOrCollect(rows: seq<FileRecord>, dict: map<string, nat>, order: seq<string>, sign: Signer)
    returns (updated: seq<FileRecord>, pending: seq<string>)
    requires IndexesLast(rows, dict)
    ensures updated == Refreshed(rows, Elems(order), sign)
    ensures pending == Missing(order, Names(rows))
  {
    updated, pending := rows, [];
    for k := 0 to |order|
      invariant |updated| == |rows|
      invariant forall i :: 0 <= i < |rows| ==>
        updated[i] == if IsRep(rows, i) && rows[i].name in order[..k]
                      then rows[i].(url := sign(rows[i].name)) else rows[i]
      invariant pending == Missing(order[..k], dict.Keys)
    {
      var name := order[k];
      assert order[..k + 1] == order[..k] + [name];
      if name !in dict {
        pending := pending + [name];
        forall i | 0 <= i < |rows| && IsRep(rows, i) ensures rows[i].name != name {
          IndexedRep(rows, dict, i);
        }
      } else {
        var at := dict[name];
        updated := updated[at := updated[at].(url := sign(name))];
        forall i | 0 <= i < |rows| && IsRep(rows, i) && rows[i].name == name ensures i == at {
          IndexedRep(rows, dict, i);
        }
      }
    }
    assert order[..|order|] == order;
  }

  /** The second loop of the pass: the records whose names the store no
      longer lists. */
  method Departed(rows: seq<FileRecord>, dict: map<string, nat>, store: set<string>) returns (doomed: set<nat>)
    requires IndexesLast(rows, dict)
    ensures doomed == Doomed(rows, store)
  {
    doomed := {};
    var unvisited := dict.Keys;
    while unvisited != {}
      invariant unvisited <= dict.Keys
      invariant forall i: nat :: i in doomed <==>
        i < |rows| && IsRep(rows, i) && rows[i].name !in store && rows[i].name !in unvisited
      decreases unvisited
    {
      var name :| name in unvisited;
      if name !in store {
        doomed := doomed + {dict[name]};
      }
      forall i: nat | i < |rows| && IsRep(rows, i) && rows[i].name == name ensures i == dict[name] {
        IndexedRep(rows, dict, i);
      }
      unvisited := unvisited - {name};
    }
    forall i: nat | i < |rows| && IsRep(rows, i) ensures rows[i].name !in unvisited {
      IndexedRep(rows, dict, i);
    }
  }

  class Table {
    var rows: seq<FileRecord>

    ghost predicate Valid()
      reads this
    {
      Ascending(rows)
    }

    constructor ()
      ensures Valid() && rows == []
    {
      rows := [];
    }

    /** `db.session.add(File(name=..., url=...))` and commit: the new row
        gets the next id and goes last. */
    method Insert(name: string, url: string) returns (rec: FileRecord)
      requires Valid()
      modifies this
      ensures Valid()
      ensures rec == FileRecord(NextId(old(rows)), name, url)
      ensures rows == old(rows) + [rec]
    {
      rec := FileRecord(NextId(rows), name, url);
      rows := rows + [rec];
    }

    /** Assigning `file.name` and `file.url` and committing. */
    method Update(i: nat, name: string, url: string)
      requires Valid() && i < |rows|
      modifies this
      ensures Valid()
      ensures rows == old(rows)[i := FileRecord(old(rows)[i].id, name, url)]
    {
      rows := rows[i := FileRecord(rows[i].id, name, url)];
    }

    /** `db.session.delete(file)` and commit. */
    method Remove(i: nat)
      requires Valid() && i < |rows|
      modifies this
      ensures Valid()
      ensures rows == old(rows)[..i] + old(rows)[i + 1..]
    {
      rows := rows[..i] + rows[i + 1..];
    }

    /** `sync_db_with_s3`, given the listing it fetched and the signer. */
    method Sync(listing: seq<S3Utils.Entry>, sign: Signer)
      requires Valid()
      modifies this
      ensures Valid()
      ensures rows == Synced(old(rows), S3Utils.ListedKeys(listing), sign)
    {
      var storeDict, storeOrder := StoreIndex(listing);
      var dbDict := NameIndex(rows);
      var updated, pending := ResignOrCollect(rows, dbDict, storeOrder, sign);
      var doomed := Departed(rows, dbDict, storeDict.Keys);
      SyncedAscending(rows, S3Utils.ListedKeys(listing), sign);
      rows := DropAt(updated, doomed) + Numbered(pending, NextId(rows), sign);
    }
  }
}
