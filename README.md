# DuplicateDetector in Dafny

This project models the duplicate-file finder `DuplicateDetector.py`. The script walks a
directory tree and gives every file a key `(size, name, type)`. `name` is the base name
without its extension. `type` is `'file'` when the extension is non-empty and `'directory'`
otherwise. Paths are collected per key in a dict, and the keys with a single path are
dropped. The script then reports two numbers:

- the bytes that deleting all but one file of each group would free;
- the number of files in the groups.

The walk is an input: a sequence of `Entry(path, name, ext, size)` values, one per file, in
walk order. The dict is a `Buckets` value: a `map<Key, seq<string>>` plus a `seq<Key>` that
records insertion order. Python dicts iterate in insertion order, so both loops go over the
keys in that order.

- `seqs.dfy`, module `Seqs`: `Distinct`, `IndexOf` (first occurrence) and `Dedup` (keep
  first occurrences), used to state order properties.
- `detector.dfy`, module `DuplicateDetector`: `find_duplicates`.
  - `FindDuplicates` is the loop written as a method. It is proved equal to `Duplicates`,
    a specification built from `KeysSeen` (keys in first-seen order) and `PathsOf` (the
    paths that carry a key, in walk order).
  - The filter on line 39 is the function `FilterDuplicates`.
- `report.dfy`, module `StorageReport`: `calculate_storage_saved` and the count on line 105.
  - `CalculateStorageSaved` is the accumulating loop, proved equal to `SavedWith`.
  - The count is `TotalDuplicateFiles`.

The size on line 84 is read again from disk with `os.path.getsize(paths[0])`. The model
passes this in as a function `fileSize` from path to size. `UnchangedFilesSaved` proves that
this gives the same total as the sizes stored in the keys, provided no walked file changed
size between the walk and the sum. It holds because every path in a group shares the
group's key, whose first component is the size the walk recorded (lines 24 and 31).

The script groups by `(size, name, type)` and never reads file contents, so two files with
the same size and base name are grouped whatever their contents. The extension only counts
through whether it is empty, so `a.txt` and `a.md` of the same size share a key
(`SameKey`).

## Model

| member | source | states |
|---|---|---|
| `DuplicateDetector.KeyOf` | DuplicateDetector.py:27-31 | the key carries the file's size and base name; its type is `'file'` exactly when the extension is non-empty, `'directory'` otherwise |
| `DuplicateDetector.SameKey` | DuplicateDetector.py:27-31 | two files share a key iff they agree on size and base name and both or neither have an extension |
| `DuplicateDetector.BucketFollowsInput` | DuplicateDetector.py:18-36 | the list for key `k` is exactly the paths of the walked files whose key is `k`, in walk order (via `Positions`: increasing indices, all of them) |
| `DuplicateDetector.EntryInOwnBucketOnly` | DuplicateDetector.py:31-36 | every walked path is in the list of its own key; when the walk reports each path once, it is in no other list |
| `DuplicateDetector.SeenIffNonEmpty` | DuplicateDetector.py:32-36 | a key is in the dict iff at least one walked file carries it |
| `DuplicateDetector.AppendEntry` | DuplicateDetector.py:31-36 | one more walked file appends its path to its own key's list and leaves every other list unchanged; its key is added to the order, at the end, only if it was absent |
| `DuplicateDetector.Insert` | DuplicateDetector.py:32-36 | the `if key in dict` append / new-list step keeps the dict well formed, changes only that key, and puts a new key last |
| `DuplicateDetector.Grouped` | DuplicateDetector.py:15-36 | the dict after the loop is well formed: its insertion order lists each key once, and lists exactly the dict's keys |
| `DuplicateDetector.GroupedAppend` | DuplicateDetector.py:31-36 | inserting the next file into the dict of a walk gives the dict of the walk extended by that file |
| `DuplicateDetector.GroupedStep` | DuplicateDetector.py:18-36 | the same, for the prefix of the walk the loop has covered |
| `DuplicateDetector.KeepDuplicated` | DuplicateDetector.py:39 | a key survives the comprehension iff it was in the dict and its list has more than one path |
| `DuplicateDetector.KeepDuplicatedOrder` | DuplicateDetector.py:39 | the comprehension removes keys without reordering the rest |
| `DuplicateDetector.FilterDuplicates` | DuplicateDetector.py:39 | the filtered dict is well formed, holds a key iff its list had more than one path, keeps those lists unchanged and keeps the keys' relative order |
| `DuplicateDetector.Duplicates` | DuplicateDetector.py:15-41 | the specification of `find_duplicates`' result (`Grouped` then `FilterDuplicates`): a well-formed dict whose every list holds at least two paths |
| `DuplicateDetector.DuplicatesSpec` | DuplicateDetector.py:15-41 | `find_duplicates` returns a key iff at least two walked files carry it, with all of their paths in walk order, keys ordered by first appearance in the walk |
| `DuplicateDetector.FindDuplicates` | DuplicateDetector.py:15-41 | the loop and filter compute `Duplicates(entries)`: well formed, a key iff it has at least two paths, each list equal to that key's paths, keys ordered by first appearance in the walk |
| `StorageReport.SavedWith` | DuplicateDetector.py:77-89 | the storage saved, with sizes read through `getsize`, is never negative when every group has a first path |
| `StorageReport.Reclaimable` | DuplicateDetector.py:81-87 | the sum of `(len(paths) - 1) * size` with the size from the key is never negative |
| `StorageReport.CalculateStorageSaved` | DuplicateDetector.py:77-89 | the accumulating loop returns `SavedWith` over the dict's items in order, which is never negative; it is 0 for an empty dict |
| `StorageReport.SizesAgree` | DuplicateDetector.py:84 | when each group's first path still has its key's size, the re-read total equals the key-size total |
| `StorageReport.UnchangedFilesSaved` | DuplicateDetector.py:81-87 | if no walked file changed size after the walk, the storage saved for `find_duplicates`' result equals the key-size total |
| `StorageReport.ReclaimableSplit` | DuplicateDetector.py:81-87 | reclaimable bytes are all bytes in the groups minus one file's size per group |
| `StorageReport.ReclaimableAtLeastHalf` | DuplicateDetector.py:77-89 | when every group has at least two files, at least half of the groups' bytes are reclaimable |
| `StorageReport.TotalDuplicateFiles` | DuplicateDetector.py:105 | the sum of `len(paths)` over the dict's groups; when every group holds two or more paths it is at least twice the number of groups |
| `StorageReport.CountAtLeastTwicePerGroup` | DuplicateDetector.py:105 | a dict whose lists all hold two or more paths has a path total of at least twice its number of keys |
| `StorageReport.BucketTotalAppend` | DuplicateDetector.py:31-36 | one more walked file increases the total bucket length of the keys counted by one exactly when its key is counted |
| `StorageReport.BucketTotalCounts` | DuplicateDetector.py:18-36 | summed over the keys seen, the buckets hold one path per walked file: no file is lost or counted twice |
| `StorageReport.FilteredLengths` | DuplicateDetector.py:39 | the path total of the filtered dict equals the bucket total over the keys shared by two or more files |
| `StorageReport.DuplicateCountIsSharedFiles` | DuplicateDetector.py:105 | the printed duplicate count equals the number of walked files whose key is shared with another walked file |
| `StorageReport.DuplicateCountBound` | DuplicateDetector.py:105 | the printed duplicate count is at least twice the number of groups |

## Left out

- `os.walk` (line 18): filesystem traversal. The walk is the input sequence of entries, in walk order.
- `os.path.getsize` at line 24: a filesystem call. The size is a field of the entry. An `OSError` (dangling symlink, file removed during the walk) aborts `find_duplicates`; it is not modelled.
- `os.path.getsize` at line 84: the function `fileSize` stands for it. An `OSError` from a file that vanished after the walk is not modelled.
- `os.path.splitext` (line 27): library code. The base name and extension are given fields of the entry.
- `os.path.join` (line 21): library code. The path is an opaque string.
- `output_duplicates` (lines 44-61): file writing and text formatting.
- The `input()` and `print` calls of the `__main__` block (lines 92-106): console I/O. Only the sum on line 105 is modelled, as `TotalDuplicateFiles`.
- `CalculateStorageSaved`: requires every list to be non-empty. On an empty list `paths[0]` raises `IndexError`, and the function never handles it. `find_duplicates` only returns lists of two or more paths.
