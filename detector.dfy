/**
 * `find_duplicates`: walked files are grouped into buckets keyed by
 * `(size, name, type)`, and only the buckets holding more than one path are kept.
 *
 * The directory walk is an input sequence of entries, one per file, in walk order.
 */
module DuplicateDetector {
  import opened Seqs

  /** A file as the walk reports it: its joined path, the base name and extension split
      from its file name, and its size in bytes. */
  datatype Entry = Entry(path: string, name: string, ext: string, size: nat)

  /** The third key component, the string `'file'` or `'directory'`. */
  datatype FileType = File | Directory

  /** The grouping key `(size, name, type)`. */
  datatype Key = Key(size: nat, name: string, fileType: FileType)

  /** A dict from keys to lists of paths; `keys` is its insertion order, which is the
      order in which the dict yields its items. */
  datatype Buckets = Buckets(keys: seq<Key>, table: map<Key, seq<string>>)
  {
    ghost predicate Valid() {
      Distinct(keys) && forall k :: k in table <==> k in keys
    }
  }

  /** The key of a walked file: the type is `'file'` exactly when the extension is non-empty. */
  function KeyOf(e: Entry): (k: Key)
    ensures k.size == e.size && k.name == e.name
    ensures k.fileType == File <==> e.ext != ""
  {
    Key(e.size, e.name, if e.ext != "" then File else Directory)
  }

  /** Two files share a key exactly when they agree on size and base name and both
      or neither have an extension: `a.txt` and `a.md` of equal size share a key. */
  lemma SameKey(e1: Entry, e2: Entry)
    ensures KeyOf(e1) == KeyOf(e2) <==>
              e1.size == e2.size && e1.name == e2.name && (e1.ext == "" <==> e2.ext == "")
  {
    if e1.size == e2.size && e1.name == e2.name && (e1.ext == "" <==> e2.ext == "") {
      assert KeyOf(e1).fileType == KeyOf(e2).fileType;
    }
  }

  // ---------------------------------------------------------------------------
  // Specification of the bucketing loop, in terms of the walked entries.
  // ---------------------------------------------------------------------------

  /** The key of every walked file, in walk order. */
  function KeyList(es: seq<Entry>): (r: seq<Key>)
    ensures |r| == |es|
    ensures forall i :: 0 <= i < |es| ==> r[i] == KeyOf(es[i])
  {
    if es == [] then [] else KeyList(es[..|es| - 1]) + [KeyOf(es[|es| - 1])]
  }

  /** The distinct keys of the walked files, in order of first appearance. */
  function KeysSeen(es: seq<Entry>): seq<Key> {
    Dedup(KeyList(es))
  }

  /** Index of the first walked file whose key is `k` (`|es|` when there is none). */
  function FirstSeen(es: seq<Entry>, k: Key): nat {
    IndexOf(KeyList(es), k)
  }

  /** The paths of the walked files whose key is `k`, in walk order. */
  function PathsOf(es: seq<Entry>, k: Key): seq<string> {
    if es == [] then []
    else
      var last := es[|es| - 1];
      PathsOf(es[..|es| - 1], k) + (if KeyOf(last) == k then [last.path] else [])
  }

  /** The indices of the walked files whose key is `k`: increasing, and all of them. */
  function Positions(es: seq<Entry>, k: Key): (r: seq<nat>)
    ensures forall j :: 0 <= j < |r| ==> r[j] < |es| && KeyOf(es[r[j]]) == k
    ensures forall a, b :: 0 <= a < b < |r| ==> r[a] < r[b]
    ensures forall i :: 0 <= i < |es| && KeyOf(es[i]) == k ==> i in r
  {
    if es == [] then []
    else
      var n := |es| - 1;
      Positions(es[..n], k) + (if KeyOf(es[n]) == k then [n] else [])
  }

  /** The dict the loop builds: every key seen, mapped to the paths that carry it. */
  function Grouped(es: seq<Entry>): (r: Buckets)
    ensures r.Valid()
  {
    Buckets(KeysSeen(es), map k | k in KeysSeen(es) :: PathsOf(es, k))
  }

  /** A bucket lists exactly the paths of the files carrying its key, in walk order. */
  lemma {:induction false} BucketFollowsInput(es: seq<Entry>, k: Key)
    ensures |PathsOf(es, k)| == |Positions(es, k)|
    ensures forall j :: 0 <= j < |PathsOf(es, k)| ==> PathsOf(es, k)[j] == es[Positions(es, k)[j]].path
  {
    if es != [] {
      var n := |es| - 1;
      BucketFollowsInput(es[..n], k);
    }
  }

  /** Every walked path is in the bucket of its own key; when the walk reports
      each path once, it is in no other bucket. */
  lemma EntryInOwnBucketOnly(es: seq<Entry>, i: nat)
    requires i < |es|
    ensures es[i].path in PathsOf(es, KeyOf(es[i]))
    ensures (forall a, b :: 0 <= a < b < |es| ==> es[a].path != es[b].path) ==>
              forall k :: es[i].path in PathsOf(es, k) ==> k == KeyOf(es[i])
  {
    var own := KeyOf(es[i]);
    BucketFollowsInput(es, own);
    var j :| 0 <= j < |Positions(es, own)| && Positions(es, own)[j] == i;
    assert PathsOf(es, own)[j] == es[i].path;
    if forall a, b :: 0 <= a < b < |es| ==> es[a].path != es[b].path {
      forall k | es[i].path in PathsOf(es, k) ensures k == own {
        BucketFollowsInput(es, k);
        var m :| 0 <= m < |PathsOf(es, k)| && PathsOf(es, k)[m] == es[i].path;
        var p := Positions(es, k)[m];
        assert es[p].path == es[i].path && KeyOf(es[p]) == k;
        assert p == i;
      }
    }
  }

  /** A key has been seen exactly when its bucket is non-empty. */
  lemma SeenIffNonEmpty(es: seq<Entry>, k: Key)
    ensures k in KeysSeen(es) <==> PathsOf(es, k) != []
  {
    BucketFollowsInput(es, k);
    var ks := KeyList(es);
    if k in KeysSeen(es) {
      assert k in ks by {
        var i :| 0 <= i < |Dedup(ks)| && Dedup(ks)[i] == k;
      }
      var j :| 0 <= j < |ks| && ks[j] == k;
      assert j in Positions(es, k);
    }
  }

  /** Walking one more file changes only the bucket of that file's key, which gains
      the file's path at its end; the key is appended to the order only if it is new. */
  lemma AppendEntry(es: seq<Entry>, e: Entry)
    ensures KeysSeen(es + [e]) ==
              if KeyOf(e) in KeysSeen(es) then KeysSeen(es) else KeysSeen(es) + [KeyOf(e)]
    ensures PathsOf(es + [e], KeyOf(e)) == PathsOf(es, KeyOf(e)) + [e.path]
    ensures forall k :: k != KeyOf(e) ==> PathsOf(es + [e], k) == PathsOf(es, k)
  {
    assert (es + [e])[..|es|] == es;
    assert KeyList(es + [e]) == KeyList(es) + [KeyOf(e)];
  }


  /** Lines 31-36: the path is appended to its key's list, or starts a new list when
      the key is absent; only that key's entry changes, and a new key goes last. */
  function Insert(d: Buckets, key: Key, path: string): (r: Buckets)
    requires d.Valid()
    ensures r.Valid()
    ensures r.keys == if key in d.table then d.keys else d.keys + [key]
    ensures key in r.table && r.table[key] == (if key in d.table then d.table[key] else []) + [path]
    ensures forall k :: k != key ==> (k in r.table <==> k in d.table)
    ensures forall k :: k != key && k in d.table ==> r.table[k] == d.table[k]
  {
    if key in d.table then Buckets(d.keys, d.table[key := d.table[key] + [path]])
    else Buckets(d.keys + [key], d.table[key := [path]])
  }

  /** One key's bucket after walking one more file, as `Insert` gives it. */
  lemma AppendedBucket(es: seq<Entry>, e: Entry, k: Key)
    ensures k in Grouped(es + [e]).table <==> k in Insert(Grouped(es), KeyOf(e), e.path).table
    ensures k in Grouped(es + [e]).table ==>
              Grouped(es + [e]).table[k] == Insert(Grouped(es), KeyOf(e), e.path).table[k]
  {
    AppendEntry(es, e);
    SeenIffNonEmpty(es, KeyOf(e));
  }

  /** Two tables are equal when they hold the same keys with the same lists. */
  lemma TablesEqual(t1: map<Key, seq<string>>, t2: map<Key, seq<string>>)
    requires forall k :: k in t1 <==> k in t2
    requires forall k :: k in t1 ==> t1[k] == t2[k]
    ensures t1 == t2
  {
  }

  /** Inserting the next walked file into the dict built so far gives the dict of the
      longer walk. */
  lemma GroupedAppend(es: seq<Entry>, e: Entry)
    ensures Grouped(es + [e]) == Insert(Grouped(es), KeyOf(e), e.path)
  {
    var g2, ins := Grouped(es + [e]), Insert(Grouped(es), KeyOf(e), e.path);
    assert g2.keys == ins.keys by {
      AppendEntry(es, e);
    }
    assert g2.table == ins.table by {
      forall k ensures (k in g2.table <==> k in ins.table) && (k in g2.table ==> g2.table[k] == ins.table[k]) {
        AppendedBucket(es, e, k);
      }
      TablesEqual(g2.table, ins.table);
    }
  }

  /** `GroupedAppend` for the prefixes the loop walks through. */
  lemma GroupedStep(es: seq<Entry>, i: nat)
    requires i < |es|
    ensures Grouped(es[..i + 1]) == Insert(Grouped(es[..i]), KeyOf(es[i]), es[i].path)
  {
    assert es[..i + 1] == es[..i] + [es[i]];
    GroupedAppend(es[..i], es[i]);
  }

  // ---------------------------------------------------------------------------
  // The filter: the dict comprehension of line 39.
  // ---------------------------------------------------------------------------

  /** The keys whose path list holds more than one path, in the order given. */
  function KeepDuplicated(keys: seq<Key>, table: map<Key, seq<string>>): (r: seq<Key>)
    requires forall k :: k in keys ==> k in table
    ensures forall k :: k in r <==> k in keys && |table[k]| > 1
  {
    if keys == [] then []
    else
      var last := keys[|keys| - 1];
      assert keys == keys[..|keys| - 1] + [last];
      KeepDuplicated(keys[..|keys| - 1], table) + (if |table[last]| > 1 then [last] else [])
  }

  /** The filter removes keys without reordering the rest. */
  lemma {:induction false} KeepDuplicatedOrder(keys: seq<Key>, table: map<Key, seq<string>>)
    requires forall k :: k in keys ==> k in table
    requires Distinct(keys)
    ensures forall a, b :: 0 <= a < b < |KeepDuplicated(keys, table)| ==>
              IndexOf(keys, KeepDuplicated(keys, table)[a]) < IndexOf(keys, KeepDuplicated(keys, table)[b])
  {
    if keys != [] {
      var front, last := keys[..|keys| - 1], keys[|keys| - 1];
      assert keys == front + [last];
      KeepDuplicatedOrder(front, table);
      var d, r := KeepDuplicated(front, table), KeepDuplicated(keys, table);
      forall x | x in front ensures IndexOf(keys, x) == IndexOf(front, x) {
        IndexOfAppend(front, [last], x);
      }
      forall a, b | 0 <= a < b < |r| ensures IndexOf(keys, r[a]) < IndexOf(keys, r[b]) {
        assert r[a] == d[a] && r[a] in front;
        if b < |d| {
          assert r[b] == d[b] && r[b] in front;
        } else {
          assert r[b] == last && last !in front;
          assert IndexOf(keys, last) == |front|;
        }
      }
    }
  }

  /** The result of line 39: a key is kept exactly when its list has more than one
      path, kept lists are unchanged, and kept keys stay in their relative order. */
  function FilterDuplicates(d: Buckets): (r: Buckets)
    requires d.Valid()
    ensures r.Valid()
    ensures forall k :: k in r.table <==> k in d.table && |d.table[k]| > 1
    ensures forall k :: k in r.table ==> r.table[k] == d.table[k]
    ensures forall a, b :: 0 <= a < b < |r.keys| ==> IndexOf(d.keys, r.keys[a]) < IndexOf(d.keys, r.keys[b])
  {
    var kept := KeepDuplicated(d.keys, d.table);
    KeepDuplicatedOrder(d.keys, d.table);
    assert Distinct(kept) by {
      forall a, b | 0 <= a < b < |kept| ensures kept[a] != kept[b] {
        assert IndexOf(d.keys, kept[a]) < IndexOf(d.keys, kept[b]);
      }
    }
    Buckets(kept, map k | k in kept :: d.table[k])
  }

  /** What `find_duplicates` returns for the walk `es`: a well-formed dict whose every
      list holds at least two paths. */
  function Duplicates(es: seq<Entry>): (r: Buckets)
    ensures r.Valid()
    ensures forall k :: k in r.table ==> |r.table[k]| >= 2
  {
    FilterDuplicates(Grouped(es))
  }

  /** `find_duplicates` returns the buckets of the keys carried by at least two walked
      files, each with all of that key's paths, ordered by first appearance of the key. */
  lemma DuplicatesSpec(es: seq<Entry>)
    ensures Duplicates(es).Valid()
    ensures forall k :: k in Duplicates(es).table <==> |PathsOf(es, k)| > 1
    ensures forall k :: k in Duplicates(es).table ==> Duplicates(es).table[k] == PathsOf(es, k)
    ensures forall a, b :: 0 <= a < b < |Duplicates(es).keys| ==>
              FirstSeen(es, Duplicates(es).keys[a]) < FirstSeen(es, Duplicates(es).keys[b])
  {
    var g, d := Grouped(es), Duplicates(es);
    var ks := KeysSeen(es);
    forall k ensures k in ks <==> PathsOf(es, k) != [] {
      SeenIffNonEmpty(es, k);
    }
    DedupOrder(KeyList(es));
    forall a, b | 0 <= a < b < |d.keys| ensures FirstSeen(es, d.keys[a]) < FirstSeen(es, d.keys[b]) {
      var x, y := d.keys[a], d.keys[b];
      assert x in d.table && y in d.table;
      var i, j := IndexOf(ks, x), IndexOf(ks, y);
      assert i < j < |ks| && ks[i] == x && ks[j] == y;
    }
  }

  // ---------------------------------------------------------------------------
  // The function as written: a loop filling a dict, then the filter.
  // ---------------------------------------------------------------------------

  /** Lines 15-39: bucket every walked file by its key, then keep the shared keys. */
  method FindDuplicates(entries: seq<Entry>) returns (duplicates: Buckets)
    ensures duplicates == Duplicates(entries)
    ensures duplicates.Valid()
    ensures forall k :: k in duplicates.table <==> |PathsOf(entries, k)| > 1
    ensures forall k :: k in duplicates.table ==> duplicates.table[k] == PathsOf(entries, k)
    ensures forall a, b :: 0 <= a < b < |duplicates.keys| ==>
              FirstSeen(entries, duplicates.keys[a]) < FirstSeen(entries, duplicates.keys[b])
  {
    var keys: seq<Key> := [];
    var table: map<Key, seq<string>> := map[];
    for i := 0 to |entries|
      invariant Buckets(keys, table) == Grouped(entries[..i])
    {
      var e := entries[i];
      var key := KeyOf(e);
      ghost var before := Buckets(keys, table);
      if key in table {
        table := table[key := table[key] + [e.path]];
      } else {
        table := table[key := [e.path]];
        keys := keys + [key];
      }
      assert Buckets(keys, table) == Insert(before, key, e.path);
      GroupedStep(entries, i);
    }
    assert entries[..|entries|] == entries;
    duplicates := FilterDuplicates(Buckets(keys, table));
    DuplicatesSpec(entries);
  }
}
