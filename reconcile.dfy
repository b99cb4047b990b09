/** What one pass of `sync_db_with_s3` (backend/server.py) does to the
    `File` table, as functions of the table before the pass, the keys the
    store listed, and the URL signer; followed by the properties of that
    pass.

    The table is the sequence of its records in query order (ascending
    id). The code indexes the records by name in a dictionary, so of
    several records with one name only the LAST in query order, called the
    representative here, is re-signed or deleted; the others are left as
    they were. */
module Reconcile {

  /** A row of the `File` table. */
  datatype FileRecord = FileRecord(id: nat, name: string, url: string)

  /** `generate_presigned_url(BUCKET_NAME, key)` within one pass. */
  type Signer = string -> string

  function Elems<T>(s: seq<T>): set<T> {
    set x | x in s
  }

  predicate Distinct<T(==)>(s: seq<T>) {
    forall i, j :: 0 <= i < j < |s| ==> s[i] != s[j]
  }

  function Names(rows: seq<FileRecord>): set<string> {
    set r | r in rows :: r.name
  }

  function Ids(rows: seq<FileRecord>): set<nat> {
    set r | r in rows :: r.id
  }

  /** Query order: ids strictly increase along the table. */
  predicate Ascending(rows: seq<FileRecord>) {
    forall i, j :: 0 <= i < j < |rows| ==> rows[i].id < rows[j].id
  }

  /** No two records share a name (the table does not enforce this). */
  predicate UniqueNames(rows: seq<FileRecord>) {
    forall i, j :: 0 <= i < j < |rows| ==> rows[i].name != rows[j].name
  }

  /** Record `i` is the one `{file.name: file for file in db_files}` keeps
      for its name: no later record has the same name. */
  predicate IsRep(rows: seq<FileRecord>, i: nat)
    requires i < |rows|
  {
    forall j :: i < j < |rows| ==> rows[j].name != rows[i].name
  }

  function MaxId(rows: seq<FileRecord>): (m: nat)
    ensures forall r :: r in rows ==> r.id <= m
    ensures rows == [] ==> m == 0
  {
    if rows == [] then 0
    else
      var m := MaxId(rows[1..]);
      if rows[0].id > m then rows[0].id else m
  }

  /** The id SQLite gives the next inserted row: one more than the largest
      id in use, 1 in an empty table. */
  function NextId(rows: seq<FileRecord>): (id: nat)
    ensures forall r :: r in rows ==> r.id < id
  {
    MaxId(rows) + 1
  }

  // ---------------------------------------------------------------------
  // The pass, step by step

  /** The keys of `{file['name']: ... for file in s3_files}` in iteration
      order: each key at its first occurrence in the listing. */
  function FirstOccurrences(keys: seq<string>): (r: seq<string>)
    ensures Elems(r) == Elems(keys)
    ensures Distinct(r)
    decreases |keys|
  {
    if keys == [] then []
    else
      var p := FirstOccurrences(keys[..|keys| - 1]);
      var k := keys[|keys| - 1];
      assert Elems(keys) == Elems(keys[..|keys| - 1]) + {k} by {
        assert keys == keys[..|keys| - 1] + [k];
      }
      if k in p then p else p + [k]
  }

  /** The names, in order, that have no record yet: those get a new one. */
  function Missing(names: seq<string>, present: set<string>): (r: seq<string>)
    ensures Elems(r) == Elems(names) - present
    ensures Distinct(names) ==> Distinct(r)
    decreases |names|
  {
    if names == [] then []
    else
      var init := names[..|names| - 1];
      var p := Missing(init, present);
      var k := names[|names| - 1];
      assert Elems(names) == Elems(init) + {k} by {
        assert names == init + [k];
      }
      if k in present then p
      else
        assert Elems(p + [k]) == Elems(p) + {k};
        assert Distinct(names) ==> Distinct(p + [k]) by {
          if Distinct(names) {
            assert Distinct(init);
            assert k !in Elems(init) by {
              forall j | 0 <= j < |init| ensures init[j] != k { assert init[j] == names[j]; }
            }
            assert k !in p;
          }
        }
        p + [k]
  }

  /** Record `i` after the update loop: the representative of a listed
      name gets a fresh signed URL. */
  function RefreshAt(rows: seq<FileRecord>, store: set<string>, sign: Signer, i: nat): (r: FileRecord)
    requires i < |rows|
    ensures r.id == rows[i].id && r.name == rows[i].name
    ensures r.url == rows[i].url || r.url == sign(r.name)
  {
    if IsRep(rows, i) && rows[i].name in store then rows[i].(url := sign(rows[i].name)) else rows[i]
  }

  function Refreshed(rows: seq<FileRecord>, store: set<string>, sign: Signer): seq<FileRecord> {
    seq(|rows|, i requires 0 <= i < |rows| => RefreshAt(rows, store, sign, i))
  }

  /** The positions the delete loop removes: representatives of names the
      store no longer lists. */
  function Doomed(rows: seq<FileRecord>, store: set<string>): set<nat> {
    set i: nat | i < |rows| && IsRep(rows, i) && rows[i].name !in store
  }

  /** `s` without the records at the positions in `doomed`, order kept. */
  function DropAt(s: seq<FileRecord>, doomed: set<nat>): (r: seq<FileRecord>)
    ensures |r| <= |s|
    decreases |s|
  {
    if s == [] then []
    else DropAt(s[..|s| - 1], doomed) + (if |s| - 1 in doomed then [] else [s[|s| - 1]])
  }

  /** The inserted records as the commit numbers them. */
  function Numbered(names: seq<string>, first: nat, sign: Signer): seq<FileRecord> {
    seq(|names|, k requires 0 <= k < |names| => FileRecord(first + k, names[k], sign(names[k])))
  }

  /** The records already in the table that survive the pass, re-signed
      where the pass re-signs them, in their old order. */
  function Kept(rows: seq<FileRecord>, store: set<string>, sign: Signer): seq<FileRecord> {
    DropAt(Refreshed(rows, store, sign), Doomed(rows, store))
  }

  /** The records the pass inserts: one per listed key without a record,
      in listing order, with fresh ascending ids and the key's signed URL. */
  function Added(rows: seq<FileRecord>, keys: seq<string>, sign: Signer): (r: seq<FileRecord>)
    ensures Names(r) == Elems(keys) - Names(rows)
    ensures forall x :: x in r ==> x.url == sign(x.name) && x.id >= NextId(rows)
    ensures UniqueNames(r) && Ascending(r)
  {
    var missing := Missing(FirstOccurrences(keys), Names(rows));
    var r := Numbered(missing, NextId(rows), sign);
    assert Names(r) == Elems(missing) by {
      forall x | x in r ensures x.name in Elems(missing) {
        var k :| 0 <= k < |r| && r[k] == x;
      }
      forall n | n in Elems(missing) ensures n in Names(r) {
        var k :| 0 <= k < |missing| && missing[k] == n;
        assert r[k] in r;
      }
    }
    r
  }

  /** The table after one committed pass over a listing with keys `keys`. */
  function Synced(rows: seq<FileRecord>, keys: seq<string>, sign: Signer): (r: seq<FileRecord>)
    ensures Names(r) <= Names(rows) + Elems(keys)
  {
    var kept := Kept(rows, Elems(keys), sign);
    var added := Added(rows, keys, sign);
    assert Names(kept + added) <= Names(rows) + Elems(keys) by {
      forall x | x in kept + added ensures x.name in Names(rows) + Elems(keys) {
        if x in kept {
          var i := KeptFromOld(rows, Elems(keys), sign, x);
          assert rows[i] in rows;
        } else {
          assert x.name in Names(added);
        }
      }
    }
    kept + added
  }

  // ---------------------------------------------------------------------
  // Helper facts

  lemma {:induction false} DropAtMembers(s: seq<FileRecord>, doomed: set<nat>, x: FileRecord)
    ensures x in DropAt(s, doomed) <==> exists i :: 0 <= i < |s| && i !in doomed && s[i] == x
    decreases |s|
  {
    if s != [] {
      var n := |s| - 1;
      DropAtMembers(s[..n], doomed, x);
      if x in DropAt(s[..n], doomed) {
        var i :| 0 <= i < n && i !in doomed && s[..n][i] == x;
        assert s[i] == x;
      }
      if exists i :: 0 <= i < |s| && i !in doomed && s[i] == x {
        var i :| 0 <= i < |s| && i !in doomed && s[i] == x;
        if i < n {
          assert s[..n][i] == x;
        }
      }
    }
  }

  /** Dropping records keeps the ids ascending and the names unique. */
  lemma {:induction false} DropAtKeepsOrder(s: seq<FileRecord>, doomed: set<nat>)
    ensures Ascending(s) ==> Ascending(DropAt(s, doomed))
    ensures UniqueNames(s) ==> UniqueNames(DropAt(s, doomed))
    decreases |s|
  {
    if s != [] {
      var n := |s| - 1;
      var p := DropAt(s[..n], doomed);
      DropAtKeepsOrder(s[..n], doomed);
      if n !in doomed {
        forall y | y in p
          ensures Ascending(s) ==> y.id < s[n].id
          ensures UniqueNames(s) ==> y.name != s[n].name
        {
          DropAtMembers(s[..n], doomed, y);
        }
        if Ascending(s) {
          assert Ascending(s[..n]);
          assert forall i :: 0 <= i < |p| ==> p[i] in p;
        }
        if UniqueNames(s) {
          assert UniqueNames(s[..n]);
          assert forall i :: 0 <= i < |p| ==> p[i] in p;
        }
      }
    }
  }

  lemma {:induction false} DropAtNothing(s: seq<FileRecord>, doomed: set<nat>)
    requires forall i :: 0 <= i < |s| ==> i !in doomed
    ensures DropAt(s, doomed) == s
    decreases |s|
  {
    if s != [] {
      DropAtNothing(s[..|s| - 1], doomed);
      assert s == s[..|s| - 1] + [s[|s| - 1]];
    }
  }

  /** Every name in a table has a representative. */
  lemma {:induction false} RepExists(rows: seq<FileRecord>, name: string) returns (i: nat)
    requires name in Names(rows)
    ensures i < |rows| && IsRep(rows, i) && rows[i].name == name
    decreases |rows|
  {
    var n := |rows| - 1;
    if rows[n].name == name {
      i := n;
    } else {
      assert name in Names(rows[..n]) by {
        var r :| r in rows && r.name == name;
        var k :| 0 <= k < |rows| && rows[k] == r;
        assert rows[..n][k] == r;
      }
      i := RepExists(rows[..n], name);
      assert rows[..n][i] == rows[i];
    }
  }

  /** The kept records are exactly the refreshed records at positions the
      pass does not delete. */
  lemma KeptMembers(rows: seq<FileRecord>, store: set<string>, sign: Signer, x: FileRecord)
    ensures x in Kept(rows, store, sign) <==>
      exists i :: 0 <= i < |rows| && i !in Doomed(rows, store) && x == RefreshAt(rows, store, sign, i)
  {
    DropAtMembers(Refreshed(rows, store, sign), Doomed(rows, store), x);
  }

  /** A kept record keeps its id and name. */
  lemma KeptFromOld(rows: seq<FileRecord>, store: set<string>, sign: Signer, x: FileRecord) returns (i: nat)
    requires x in Kept(rows, store, sign)
    ensures i < |rows| && i !in Doomed(rows, store) && x == RefreshAt(rows, store, sign, i)
    ensures x.id == rows[i].id && x.name == rows[i].name
  {
    KeptMembers(rows, store, sign, x);
    i :| 0 <= i < |rows| && i !in Doomed(rows, store) && x == RefreshAt(rows, store, sign, i);
  }

  lemma KeptAt(rows: seq<FileRecord>, store: set<string>, sign: Signer, i: nat)
    requires i < |rows| && i !in Doomed(rows, store)
    ensures RefreshAt(rows, store, sign, i) in Kept(rows, store, sign)
  {
    KeptMembers(rows, store, sign, RefreshAt(rows, store, sign, i));
  }

  lemma UniqueNamesConcat(a: seq<FileRecord>, b: seq<FileRecord>)
    requires UniqueNames(a) && UniqueNames(b)
    requires Names(a) !! Names(b)
    ensures UniqueNames(a + b)
  {
    var s := a + b;
    forall i, j | 0 <= i < j < |s| ensures s[i].name != s[j].name {
      if j < |a| {
        assert s[i] == a[i] && s[j] == a[j];
      } else if i >= |a| {
        assert s[i] == b[i - |a|] && s[j] == b[j - |a|];
      } else {
        assert s[i] == a[i] && s[j] == b[j - |a|];
        assert a[i] in a && b[j - |a|] in b;
        assert s[i].name in Names(a) && s[j].name in Names(b);
      }
    }
  }

  // ---------------------------------------------------------------------
  // Properties of one pass

  /** The pass keeps query order: ids stay ascending, and the inserted
      records come after the kept ones. */
  lemma SyncedAscending(rows: seq<FileRecord>, keys: seq<string>, sign: Signer)
    requires Ascending(rows)
    ensures Ascending(Synced(rows, keys, sign))
  {
    var store := Elems(keys);
    var kept := Kept(rows, store, sign);
    var added := Added(rows, keys, sign);
    assert Ascending(Refreshed(rows, store, sign));
    DropAtKeepsOrder(Refreshed(rows, store, sign), Doomed(rows, store));
    forall y | y in kept ensures y.id < NextId(rows) {
      var i := KeptFromOld(rows, store, sign, y);
      assert rows[i] in rows;
    }
    var s := kept + added;
    forall i, j | 0 <= i < j < |s| ensures s[i].id < s[j].id {
      if j < |kept| {
        assert s[i] == kept[i] && s[j] == kept[j];
      } else if i >= |kept| {
        assert s[i] == added[i - |kept|] && s[j] == added[j - |kept|];
      } else {
        assert s[i] == kept[i] && kept[i] in kept;
        assert s[j] == added[j - |kept|] && added[j - |kept|] in added;
      }
    }
  }

  /** Every listed key has at least one record after the pass. */
  lemma SyncCoversListing(rows: seq<FileRecord>, keys: seq<string>, sign: Signer)
    ensures forall k :: k in keys ==> k in Names(Synced(rows, keys, sign))
  {
    var store := Elems(keys);
    var added := Added(rows, keys, sign);
    forall k | k in keys ensures k in Names(Synced(rows, keys, sign)) {
      if k in Names(rows) {
        var i := RepExists(rows, k);
        KeptAt(rows, store, sign, i);
        var x := RefreshAt(rows, store, sign, i);
        assert x in Synced(rows, keys, sign) && x.name == k;
      } else {
        assert k in Names(added);
        var x :| x in added && x.name == k;
        assert x in Synced(rows, keys, sign);
      }
    }
  }

  /** A new record is made only for a listed key that had no record, at
      most one per key, with a fresh id and the key's signed URL. */
  lemma SyncAddsOnlyMissing(rows: seq<FileRecord>, keys: seq<string>, sign: Signer)
    ensures forall x :: x in Synced(rows, keys, sign) && x.id !in Ids(rows) ==>
      && x.name in keys && x.name !in Names(rows)
      && x.url == sign(x.name) && x.id > MaxId(rows)
    ensures forall x, y ::
      (x in Synced(rows, keys, sign) && y in Synced(rows, keys, sign) &&
       x.id !in Ids(rows) && y.id !in Ids(rows) && x.name == y.name) ==> x == y
  {
    var store := Elems(keys);
    var kept := Kept(rows, store, sign);
    var added := Added(rows, keys, sign);
    forall x | x in Synced(rows, keys, sign) && x.id !in Ids(rows) ensures x in added {
      if x in kept {
        var i := KeptFromOld(rows, store, sign, x);
      }
    }
    forall x | x in added ensures x.name in keys && x.name !in Names(rows) {
      assert x.name in Names(added);
    }
    forall x, y | x in added && y in added && x.name == y.name ensures x == y {
      var i :| 0 <= i < |added| && added[i] == x;
      var j :| 0 <= j < |added| && added[j] == y;
      assert i == j by {
        if i < j || j < i { assert false; }
      }
    }
  }

  /** The representative of a listed name keeps its id and name and gets
      the signed URL for that name. */
  lemma SyncResignsRepresentative(rows: seq<FileRecord>, keys: seq<string>, sign: Signer, i: nat)
    requires i < |rows| && IsRep(rows, i) && rows[i].name in keys
    ensures FileRecord(rows[i].id, rows[i].name, sign(rows[i].name)) in Synced(rows, keys, sign)
  {
    KeptAt(rows, Elems(keys), sign, i);
  }

  /** The representative of a name the store no longer lists is deleted:
      no record with its id survives. */
  lemma SyncDeletesDeparted(rows: seq<FileRecord>, keys: seq<string>, sign: Signer, i: nat)
    requires Ascending(rows)
    requires i < |rows| && IsRep(rows, i) && rows[i].name !in keys
    ensures rows[i].id !in Ids(Synced(rows, keys, sign))
  {
    var store := Elems(keys);
    var kept := Kept(rows, store, sign);
    var added := Added(rows, keys, sign);
    assert rows[i] in rows;
    forall x | x in Synced(rows, keys, sign) ensures x.id != rows[i].id {
      if x in kept {
        var j := KeptFromOld(rows, store, sign, x);
        assert i in Doomed(rows, store);
        assert j != i;
      }
    }
  }

  /** No record whose name is listed is deleted: its id survives. */
  lemma SyncKeepsListed(rows: seq<FileRecord>, keys: seq<string>, sign: Signer, i: nat)
    requires i < |rows| && rows[i].name in keys
    ensures rows[i].id in Ids(Synced(rows, keys, sign))
  {
    KeptAt(rows, Elems(keys), sign, i);
    var x := RefreshAt(rows, Elems(keys), sign, i);
    assert x in Synced(rows, keys, sign) && x.id == rows[i].id;
  }

  /** A record shadowed by a later one with the same name is left exactly
      as it was: neither re-signed nor deleted. */
  lemma SyncLeavesShadowed(rows: seq<FileRecord>, keys: seq<string>, sign: Signer, i: nat)
    requires i < |rows| && !IsRep(rows, i)
    ensures rows[i] in Synced(rows, keys, sign)
  {
    KeptAt(rows, Elems(keys), sign, i);
  }

  /** With unique names the pass converges: afterwards the record names
      are exactly the listed keys, and still unique. */
  lemma SyncConverges(rows: seq<FileRecord>, keys: seq<string>, sign: Signer)
    requires UniqueNames(rows)
    ensures Names(Synced(rows, keys, sign)) == Elems(keys)
    ensures UniqueNames(Synced(rows, keys, sign))
  {
    var store := Elems(keys);
    var kept := Kept(rows, store, sign);
    var added := Added(rows, keys, sign);
    forall x | x in kept ensures x.name in Names(rows) && x.name in store {
      var i := KeptFromOld(rows, store, sign, x);
      assert rows[i] in rows;
    }
    SyncCoversListing(rows, keys, sign);
    forall x | x in kept + added ensures x.name in store {
      if x in added { assert x.name in Names(added); }
    }
    forall k | k in store ensures k in Names(kept + added) {
      assert k in keys;
    }
    assert UniqueNames(Refreshed(rows, store, sign));
    DropAtKeepsOrder(Refreshed(rows, store, sign), Doomed(rows, store));
    UniqueNamesConcat(kept, added);
  }

  /** Every record re-signed, nothing else changed. */
  function ResignAll(rows: seq<FileRecord>, sign: Signer): (r: seq<FileRecord>)
    ensures |r| == |rows|
    ensures forall i :: 0 <= i < |rows| ==> r[i].id == rows[i].id && r[i].name == rows[i].name
    ensures forall x :: x in r ==> x.url == sign(x.name)
  {
    seq(|rows|, i requires 0 <= i < |rows| => rows[i].(url := sign(rows[i].name)))
  }

  lemma ResignAllKeepsIdsAndNames(rows: seq<FileRecord>, sign: Signer)
    ensures Ids(ResignAll(rows, sign)) == Ids(rows)
    ensures Names(ResignAll(rows, sign)) == Names(rows)
  {
    var r := ResignAll(rows, sign);
    forall x | x in r ensures x.id in Ids(rows) && x.name in Names(rows) {
      var i :| 0 <= i < |r| && r[i] == x;
      assert rows[i] in rows;
    }
    forall x | x in rows ensures x.id in Ids(r) && x.name in Names(r) {
      var i :| 0 <= i < |rows| && rows[i] == x;
      assert r[i] in r;
    }
  }

  lemma FirstNameListed(s: seq<FileRecord>)
    requires s != []
    ensures s[0].name in Names(s)
  {
  }

  /** On a table that already matches the listing with unique names, a
      pass only re-signs. */
  lemma SyncOnConverged(t: seq<FileRecord>, keys: seq<string>, sign: Signer)
    requires UniqueNames(t) && Names(t) == Elems(keys)
    ensures Synced(t, keys, sign) == ResignAll(t, sign)
  {
    var store := Elems(keys);
    var added := Added(t, keys, sign);
    if added != [] {
      FirstNameListed(added);
      assert false;
    }
    forall i | 0 <= i < |t| ensures i !in Doomed(t, store) && IsRep(t, i) && t[i].name in store {
      assert t[i] in t;
    }
    DropAtNothing(Refreshed(t, store, sign), Doomed(t, store));
    assert Kept(t, store, sign) == ResignAll(t, sign);
  }

  /** Once a table with unique names has been synced, a second pass with
      the same listing adds nothing and deletes nothing: it only re-signs
      every record. */
  lemma SyncSecondPassOnlyResigns(rows: seq<FileRecord>, keys: seq<string>, s1: Signer, s2: Signer)
    requires UniqueNames(rows)
    ensures Synced(Synced(rows, keys, s1), keys, s2) == ResignAll(Synced(rows, keys, s1), s2)
  {
    SyncConverges(rows, keys, s1);
    SyncOnConverged(Synced(rows, keys, s1), keys, s2);
  }

  /** With unique names and an unchanged store, a second pass keeps the
      same names and the same ids. */
  lemma SyncIdempotentOnNames(rows: seq<FileRecord>, keys: seq<string>, s1: Signer, s2: Signer)
    requires UniqueNames(rows)
    ensures Names(Synced(Synced(rows, keys, s1), keys, s2)) == Names(Synced(rows, keys, s1))
    ensures Ids(Synced(Synced(rows, keys, s1), keys, s2)) == Ids(Synced(rows, keys, s1))
  {
    SyncSecondPassOnlyResigns(rows, keys, s1, s2);
    ResignAllKeepsIdsAndNames(Synced(rows, keys, s1), s2);
  }

  /** Without unique names the pass does not converge: an earlier record
      with a duplicated name outlives its object's deletion ... */
  lemma StaleDuplicateSurvivesDeletion(sign: Signer)
    ensures var rows := [FileRecord(1, "a.txt", "u1"), FileRecord(2, "a.txt", "u2")];
      && "a.txt" in Names(Synced(rows, [], sign))
      && Names(Synced(rows, [], sign)) != Elems([])
  {
    var rows := [FileRecord(1, "a.txt", "u1"), FileRecord(2, "a.txt", "u2")];
    assert rows[1].name == rows[0].name;
    SyncLeavesShadowed(rows, [], sign, 0);
    assert rows[0] in Synced(rows, [], sign);
  }

  /** With unique names, a record deleted together with its object has
      no record after the next pass. */
  lemma DeleteThenList(rows: seq<FileRecord>, i: nat, keys: seq<string>, sign: Signer)
    requires UniqueNames(rows) && i < |rows| && rows[i].name !in keys
    ensures rows[i].name !in Names(Synced(rows[..i] + rows[i + 1..], keys, sign))
  {
    var rest := rows[..i] + rows[i + 1..];
    forall a, b | 0 <= a < b < |rest| ensures rest[a].name != rest[b].name {
      var a' := if a < i then a else a + 1;
      var b' := if b < i then b else b + 1;
      assert rest[a] == rows[a'] && rest[b] == rows[b'];
    }
    SyncConverges(rest, keys, sign);
  }

  /** Without unique names, deleting a record and its object does not make
      the name disappear: of three records named `a`, deleting the last
      one and listing a store without `a` still leaves a record `a`. */
  lemma DeleteThenListWithDuplicates(sign: Signer)
    ensures var rows := [FileRecord(1, "a", "u1"), FileRecord(2, "a", "u2"), FileRecord(3, "a", "u3")];
      "a" in Names(Synced(rows[..2] + rows[3..], [], sign))
  {
    var rows := [FileRecord(1, "a", "u1"), FileRecord(2, "a", "u2"), FileRecord(3, "a", "u3")];
    var rest := rows[..2] + rows[3..];
    assert rest == [FileRecord(1, "a", "u1"), FileRecord(2, "a", "u2")];
    assert rest[1].name == rest[0].name;
    SyncLeavesShadowed(rest, [], sign, 0);
    assert rest[0] in Synced(rest, [], sign);
  }

  /** The record an upload appends survives the next pass whose listing
      holds its key: it keeps its id and gets the key's signed URL. */
  lemma UploadThenList(rows: seq<FileRecord>, key: string, url: string, keys: seq<string>, sign: Signer)
    requires key in keys
    ensures var uploaded := rows + [FileRecord(NextId(rows), key, url)];
      && FileRecord(NextId(rows), key, sign(key)) in Synced(uploaded, keys, sign)
      && key in Names(Synced(uploaded, keys, sign))
  {
    var uploaded := rows + [FileRecord(NextId(rows), key, url)];
    SyncResignsRepresentative(uploaded, keys, sign, |rows|);
  }

  /** Of two records with one name only the later is re-signed; the
      earlier keeps its old URL while the store still holds the object. */
  lemma StaleDuplicateNotResigned(sign: Signer)
    ensures var rows := [FileRecord(1, "a.txt", "u1"), FileRecord(2, "a.txt", "u2")];
      && FileRecord(1, "a.txt", "u1") in Synced(rows, ["a.txt"], sign)
      && FileRecord(2, "a.txt", sign("a.txt")) in Synced(rows, ["a.txt"], sign)
  {
    var rows := [FileRecord(1, "a.txt", "u1"), FileRecord(2, "a.txt", "u2")];
    assert rows[1].name == rows[0].name;
    SyncLeavesShadowed(rows, ["a.txt"], sign, 0);
    SyncResignsRepresentative(rows, ["a.txt"], sign, 1);
  }

  /** Appending a record under a name already present shadows every
      earlier record with that name. */
  lemma AppendShadowsDuplicates(rows: seq<FileRecord>, rec: FileRecord, i: nat)
    requires i < |rows| && rows[i].name == rec.name
    ensures !IsRep(rows + [rec], i)
  {
    assert (rows + [rec])[|rows|] == rec;
  }
}
