/**
 * `calculate_storage_saved` and the duplicate-file count printed by the script.
 *
 * Both iterate over the dict `find_duplicates` returns, in its insertion order.
 * `os.path.getsize` is a parameter `fileSize` from path to size in bytes.
 */
module StorageReport {
  import opened Seqs
  import opened DuplicateDetector

  /** Every listed key has a path list with a first element, which `paths[0]` needs. */
  ghost predicate NonEmptyGroups(keys: seq<Key>, table: map<Key, seq<string>>) {
    forall k :: k in keys ==> k in table && |table[k]| > 0
  }

  /** Bytes freed by keeping one file per group, each group's size read as the size of
      its first path. */
  function SavedWith(keys: seq<Key>, table: map<Key, seq<string>>, fileSize: string -> nat): (r: int)
    requires NonEmptyGroups(keys, table)
    ensures r >= 0
  {
    if keys == [] then 0
    else
      var k := keys[|keys| - 1];
      SavedWith(keys[..|keys| - 1], table, fileSize) + (|table[k]| - 1) * fileSize(table[k][0])
  }

  /** Bytes freed by keeping one file per group, each group's size taken from its key. */
  function Reclaimable(keys: seq<Key>, table: map<Key, seq<string>>): (r: int)
    requires NonEmptyGroups(keys, table)
    ensures r >= 0
  {
    if keys == [] then 0
    else
      var k := keys[|keys| - 1];
      Reclaimable(keys[..|keys| - 1], table) + (|table[k]| - 1) * k.size
  }

  /** Bytes taken by all files of the groups. */
  function GroupBytes(keys: seq<Key>, table: map<Key, seq<string>>): int
    requires forall k :: k in keys ==> k in table
  {
    if keys == [] then 0
    else
      var k := keys[|keys| - 1];
      GroupBytes(keys[..|keys| - 1], table) + |table[k]| * k.size
  }

  /** Bytes taken by one file of each group. */
  function KeptBytes(keys: seq<Key>): int {
    if keys == [] then 0 else KeptBytes(keys[..|keys| - 1]) + keys[|keys| - 1].size
  }

  /** The number of paths in all groups. */
  function SumLengths(keys: seq<Key>, table: map<Key, seq<string>>): nat
    requires forall k :: k in keys ==> k in table
  {
    if keys == [] then 0
    else SumLengths(keys[..|keys| - 1], table) + |table[keys[|keys| - 1]]|
  }

  /** Line 105: the total number of paths over the groups of the dict. When every group
      holds two or more paths, as in `find_duplicates`' result, it counts at least two
      files per group. */
  function TotalDuplicateFiles(d: Buckets): (n: nat)
    requires d.Valid()
    ensures (forall k :: k in d.table ==> |d.table[k]| >= 2) ==> n >= 2 * |d.keys|
  {
    if forall k :: k in d.table ==> |d.table[k]| >= 2 then
      CountAtLeastTwicePerGroup(d.keys, d.table);
      SumLengths(d.keys, d.table)
    else
      SumLengths(d.keys, d.table)
  }

  /** Lines 77-89: for every group in dict order, add the size of its first path times
      the number of paths beyond the first. */
  method CalculateStorageSaved(duplicates: Buckets, fileSize: string -> nat) returns (total: int)
    requires duplicates.Valid()
    requires forall k :: k in duplicates.table ==> |duplicates.table[k]| > 0
    ensures total == SavedWith(duplicates.keys, duplicates.table, fileSize)
    ensures total >= 0
    ensures duplicates.keys == [] ==> total == 0
  {
    var keys, table := duplicates.keys, duplicates.table;
    total := 0;
    for i := 0 to |keys|
      invariant total == SavedWith(keys[..i], table, fileSize)
    {
      var paths := table[keys[i]];
      var size := fileSize(paths[0]);
      total := total + (|paths| - 1) * size;
      assert keys[..i + 1][..i] == keys[..i];
    }
    assert keys[..|keys|] == keys;
  }

  // ---------------------------------------------------------------------------
  // Reclaimable bytes.
  // ---------------------------------------------------------------------------

  /** When each group's first path still has the size recorded in the group's key, the
      re-read sizes give the key-size total. */
  lemma {:induction false} SizesAgree(keys: seq<Key>, table: map<Key, seq<string>>, fileSize: string -> nat)
    requires NonEmptyGroups(keys, table)
    requires forall k :: k in keys ==> fileSize(table[k][0]) == k.size
    ensures SavedWith(keys, table, fileSize) == Reclaimable(keys, table)
  {
    if keys != [] {
      SizesAgree(keys[..|keys| - 1], table, fileSize);
    }
  }

  /** If no walked file changed size between the walk and the sum, the storage saved
      computed from re-read sizes equals the one computed from the keys' sizes. */
  lemma UnchangedFilesSaved(es: seq<Entry>, fileSize: string -> nat)
    requires forall i :: 0 <= i < |es| ==> fileSize(es[i].path) == es[i].size
    ensures NonEmptyGroups(Duplicates(es).keys, Duplicates(es).table)
    ensures SavedWith(Duplicates(es).keys, Duplicates(es).table, fileSize)
              == Reclaimable(Duplicates(es).keys, Duplicates(es).table)
  {
    var d := Duplicates(es);
    DuplicatesSpec(es);
    forall k | k in d.keys ensures fileSize(d.table[k][0]) == k.size {
      BucketFollowsInput(es, k);
      var p := Positions(es, k)[0];
      assert d.table[k][0] == es[p].path && KeyOf(es[p]) == k;
    }
    SizesAgree(d.keys, d.table, fileSize);
  }

  /** One group's share: `(n - 1) * z` bytes are freed out of `n * z`. */
  lemma GroupShare(n: int, z: int)
    ensures (n - 1) * z == n * z - z
    ensures n >= 2 && z >= 0 ==> 2 * ((n - 1) * z) >= n * z
  {
    if n >= 2 && z >= 0 {
      assert 2 * ((n - 1) * z) - n * z == (n - 2) * z;
    }
  }

  /** Reclaimable bytes are all the group bytes less one file per group. */
  lemma {:induction false} ReclaimableSplit(keys: seq<Key>, table: map<Key, seq<string>>)
    requires NonEmptyGroups(keys, table)
    ensures Reclaimable(keys, table) == GroupBytes(keys, table) - KeptBytes(keys)
  {
    if keys != [] {
      var k := keys[|keys| - 1];
      ReclaimableSplit(keys[..|keys| - 1], table);
      GroupShare(|table[k]|, k.size);
    }
  }

  /** When every group holds at least two files, at least half of their bytes are
      reclaimable. */
  lemma {:induction false} ReclaimableAtLeastHalf(keys: seq<Key>, table: map<Key, seq<string>>)
    requires forall k :: k in keys ==> k in table && |table[k]| >= 2
    ensures 2 * Reclaimable(keys, table) >= GroupBytes(keys, table)
  {
    if keys != [] {
      var k := keys[|keys| - 1];
      ReclaimableAtLeastHalf(keys[..|keys| - 1], table);
      GroupShare(|table[k]|, k.size);
    }
  }

  // ---------------------------------------------------------------------------
  // The duplicate-file count.
  // ---------------------------------------------------------------------------

  /** A dict whose groups all hold at least two paths counts at least two files per group. */
  lemma {:induction false} CountAtLeastTwicePerGroup(keys: seq<Key>, table: map<Key, seq<string>>)
    requires forall k :: k in keys ==> k in table && |table[k]| >= 2
    ensures SumLengths(keys, table) >= 2 * |keys|
  {
    if keys != [] {
      CountAtLeastTwicePerGroup(keys[..|keys| - 1], table);
    }
  }

  /** Number of walked files whose key lies in `s`. */
  function CountIn(es: seq<Entry>, s: set<Key>): (n: nat)
    ensures n <= |es|
  {
    if es == [] then 0
    else CountIn(es[..|es| - 1], s) + (if KeyOf(es[|es| - 1]) in s then 1 else 0)
  }

  /** Total bucket length, over the walk `es`, of the keys of `ks` that lie in `s`. */
  function BucketTotal(ks: seq<Key>, es: seq<Entry>, s: set<Key>): nat {
    if ks == [] then 0
    else
      var k := ks[|ks| - 1];
      BucketTotal(ks[..|ks| - 1], es, s) + (if k in s then |PathsOf(es, k)| else 0)
  }

  /** The keys carried by at least two walked files. */
  function SharedKeys(es: seq<Entry>): set<Key> {
    set k | k in KeysSeen(es) && |PathsOf(es, k)| > 1
  }

  /** One more walked file adds one to the bucket total exactly when its key is counted. */
  lemma {:induction false} BucketTotalAppend(ks: seq<Key>, es: seq<Entry>, e: Entry, s: set<Key>)
    requires Distinct(ks)
    ensures BucketTotal(ks, es + [e], s)
              == BucketTotal(ks, es, s) + (if KeyOf(e) in ks && KeyOf(e) in s then 1 else 0)
  {
    if ks != [] {
      var front, k := ks[..|ks| - 1], ks[|ks| - 1];
      assert ks == front + [k];
      BucketTotalAppend(front, es, e, s);
      AppendEntry(es, e);
    }
  }

  /** Summed over the keys seen, the buckets in `s` hold one path per walked file whose
      key is in `s`: no file is lost or counted twice. */
  lemma {:induction false} BucketTotalCounts(es: seq<Entry>, s: set<Key>)
    ensures BucketTotal(KeysSeen(es), es, s) == CountIn(es, s)
  {
    if es != [] {
      var front, e := es[..|es| - 1], es[|es| - 1];
      assert es == front + [e];
      BucketTotalCounts(front, s);
      var ks, key := KeysSeen(front), KeyOf(e);
      AppendEntry(front, e);
      BucketTotalAppend(ks, front, e, s);
      if key !in ks {
        SeenIffNonEmpty(front, key);
        assert (ks + [key])[..|ks|] == ks;
        assert PathsOf(es, key) == [e.path];
        assert BucketTotal(ks + [key], es, s) == BucketTotal(ks, es, s) + (if key in s then 1 else 0);
      }
      assert CountIn(es, s) == CountIn(front, s) + (if key in s then 1 else 0);
    }
  }

  /** Summing the filtered keys' lists gives the bucket total of the keys in `s`, when
      `s` holds exactly the keys whose bucket has more than one path. */
  lemma {:induction false} FilteredLengths(ks: seq<Key>, es: seq<Entry>, s: set<Key>,
                                           t: map<Key, seq<string>>, u: map<Key, seq<string>>)
    requires forall k :: k in ks ==> k in t && t[k] == PathsOf(es, k)
    requires forall k :: k in ks ==> (k in s <==> |PathsOf(es, k)| > 1)
    requires forall k :: k in s ==> k in u && u[k] == PathsOf(es, k)
    ensures SumLengths(KeepDuplicated(ks, t), u) == BucketTotal(ks, es, s)
  {
    if ks != [] {
      var front, k := ks[..|ks| - 1], ks[|ks| - 1];
      assert ks == front + [k];
      FilteredLengths(front, es, s, t, u);
      var kept := KeepDuplicated(front, t);
      if k in s {
        assert KeepDuplicated(ks, t) == kept + [k];
        assert (kept + [k])[..|kept|] == kept;
      } else {
        assert KeepDuplicated(ks, t) == kept;
      }
    }
  }

  /** The count printed on line 105 is the number of walked files whose key
      `(size, name, type)` is shared with at least one other walked file. */
  lemma DuplicateCountIsSharedFiles(es: seq<Entry>)
    ensures TotalDuplicateFiles(Duplicates(es)) == CountIn(es, SharedKeys(es))
  {
    var g, d := Grouped(es), Duplicates(es);
    DuplicatesSpec(es);
    FilteredLengths(g.keys, es, SharedKeys(es), g.table, d.table);
    BucketTotalCounts(es, SharedKeys(es));
  }

  /** The count printed on line 105 is at least twice the number of groups reported. */
  lemma DuplicateCountBound(es: seq<Entry>)
    ensures TotalDuplicateFiles(Duplicates(es)) >= 2 * |Duplicates(es).keys|
  {
    var d := Duplicates(es);
    DuplicatesSpec(es);
    CountAtLeastTwicePerGroup(d.keys, d.table);
  }
}
