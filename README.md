# Snapshot reconciler of `validate_hash`, in Dafny

`hashtrial.py` keeps a JSON snapshot that maps file paths to SHA-256 digests. When asked
to verify a directory, `validate_hash` does four things:

- it loads the snapshot and scans the directory into a second path-to-digest dict;
- it reconciles the two, printing one line per file: valid, invalid (contents modified),
  renamed, new or deleted;
- along the way it moves renamed entries of the snapshot in place;
- it writes the snapshot back.

This project models that reconciliation (lines 45-72) and proves what it does for all
inputs. That includes its unexpected parts:

- a rename can end the run with `KeyError`;
- new files are never inserted;
- modified digests are never written back;
- deleted files are never removed.

The files:

- `dicts.dfy` (module `Dicts`): a Python `dict` as the list of its (key, value) pairs in
  insertion order, with distinct keys. It has `d[k]`, `d.pop(k)` (with its `KeyError` as
  `None`) and `d[k] = v` (which appends a new key at the end).
- `reconciler.dfy` (module `Reconciler`):
  - the specification functions: `ReverseIndex` for line 46, `Classify` for the loop body
    at lines 50-62, `ScanAll` for the loop at lines 49-62, `DeletedReports` for lines
    65-68 and `Reconcile` for the whole run;
  - the imperative code as the source runs it, each method proved equal to its
    specification function:
    - `ScanEntry` is the loop body;
    - `ScanEntries` is the scanning loop, which reassigns the working snapshot entry by entry;
    - `ReportDeleted` is the loop over a copy of the snapshot's keys, which only collects
      lines;
    - `ValidateHash` runs the three in sequence.
- `properties.dfy` (module `ReconcilerProperties`): what a run guarantees for every input:
  - the order and shape of the printed lines;
  - that a rename move is the only change to the snapshot;
  - what the written snapshot does and does not reflect;
  - exactly when the deleted pass reports a file, and in which order;
  - when `KeyError` is raised. For one step of the loop this is an if-and-only-if
    (`ClassifyReport`). For a whole run only the necessary condition is proved: a failing
    path was renamed away by an earlier entry (`KeyErrorNeedsEarlierRename`).
- `scenarios.dfy` (module `ReconcilerScenarios`): small runs worked out in full. Each shows
  one of these behaviours on concrete paths and digests.

How a run ends is an `Outcome`:

- `Completed(reports, snapshot)`: both loops finished, and `snapshot` is the dict that line
  72 dumps.
- `KeyError(reports, missing)`: `stored_data.pop(old_path)` at line 60 raised for the path
  `missing`, after `reports` were printed. Nothing is written in that case.

## Model

| member | source | states |
|---|---|---|
| Dicts.Get | hashtrial.py:51 | `stored_data[current_path]` is the digest stored under that path; in a dict with distinct keys every entry with that key carries it |
| Dicts.Pop | hashtrial.py:60 | `pop` fails (`KeyError`) exactly when the key is absent; otherwise the remaining dict still has distinct keys |
| Dicts.PopTakesEntry | hashtrial.py:60 | `pop` of a present key returns the value stored under it and removes exactly that entry: one entry fewer, every other entry and key kept, the other keys in their old order, the popped value leaves the multiset of values |
| Dicts.SetItem | hashtrial.py:60 | assigning a key keeps the keys distinct |
| Dicts.SetItemStores | hashtrial.py:60 | after `d[k] = v`, `d[k]` is `v`; a present key keeps its place, an absent one is appended last and adds `v` to the values; all other entries are kept and nothing else appears |
| Reconciler.ReverseIndex | hashtrial.py:46 | the index holds exactly the snapshot's digests, maps each to a path that carries it, and never to a path that a later path with the same digest follows |
| Reconciler.ReverseIndexLastWins | hashtrial.py:46 | the digest of entry `i` maps back to entry `i` if and only if no later entry has the same digest (the last path wins) |
| Reconciler.ReverseIndexLookup | hashtrial.py:46 | for each digest `h` in the index, `rev[h]` is a key of the snapshot and `stored[rev[h]] == h` |
| Reconciler.Classify | hashtrial.py:49-62 | one scanned entry prints a line naming its path, never a Deleted line; only a rename changes the working snapshot, its old path is `rev[hash]`, and it fails only when `rev[hash]` is no longer a key |
| Reconciler.ClassifyReport | hashtrial.py:50-62 | Valid if and only if the path is a key of the working snapshot with an equal digest; Invalid if and only if it is a key with a different digest; New if and only if it is not a key and the digest is not in the index; Renamed if and only if it is not a key and the digest is in the index; the rename raises `KeyError` if and only if `rev[hash]` is no longer a key |
| Reconciler.ClassifyRename | hashtrial.py:57-60 | a successful rename takes out the entry of `rev[hash]`, keeps the other entries in their order, and appends the scanned path with the popped digest; `rev[hash]` was a key and the scanned path was not |
| Reconciler.ClassifyRenameKeys | hashtrial.py:57-60 | after a successful rename the keys are exactly the old keys other than `rev[hash]`, in their old order, followed by the scanned path |
| Reconciler.ClassifyRenameEntries | hashtrial.py:57-60 | after a successful rename the last entry is (path, old digest), every entry of another path is kept, and no other entry appears |
| Reconciler.ClassifyRenameValues | hashtrial.py:57-60 | a successful rename keeps the snapshot's size and its multiset of digests |
| Reconciler.ScanAll | hashtrial.py:49-62 | while the scanning loop runs, the working snapshot keeps distinct keys |
| Reconciler.AnyEqual | hashtrial.py:67 | `any(h == target for h in values)` holds if and only if `target` is among the values |
| Reconciler.DeletedReports | hashtrial.py:65-68 | the deleted pass prints at most one line per snapshot entry |
| Reconciler.DeletedPass | hashtrial.py:65-68 | the deleted pass prints only Deleted lines, each for a snapshot path that is not scanned; a snapshot entry is reported if and only if neither its path nor its digest is in the scan |
| Reconciler.DeletedInSnapshotOrder | hashtrial.py:65-68 | the Deleted lines follow the key order of the snapshot they are computed from |
| Reconciler.Reconcile | hashtrial.py:45-72 | a completed run writes back a snapshot with distinct keys |
| Reconciler.ScanAllNext | hashtrial.py:49-62 | scanning one more entry after a running prefix appends that entry's line and, unless the rename failed, replaces the working snapshot with the one the body produced |
| Reconciler.CrashIsFinal | hashtrial.py:60 | once `KeyError` is raised, the entries after it are not looked at |
| Reconciler.ScanEntry | hashtrial.py:50-62 | the loop body with its if/else branches computes the line and working snapshot `Classify` specifies |
| Reconciler.ScanEntries | hashtrial.py:49-62 | the loop that reassigns the working snapshot entry by entry ends in the state `ScanAll` specifies, and it stops at the first `KeyError` |
| Reconciler.ReportDeleted | hashtrial.py:65-68 | the loop over a copy of the snapshot's keys prints exactly the lines `DeletedReports` specifies |
| Reconciler.ValidateHash | hashtrial.py:45-72 | the reverse index, the scanning loop and the deleted pass together give the outcome `Reconcile` specifies |
| ReconcilerProperties.ScanReportsFollowScan | hashtrial.py:49-62 | the scanning loop prints one line per scanned entry, in scan order, naming that entry's path and never Deleted; after a `KeyError`, the last line is the Renamed line whose `pop` failed |
| ReconcilerProperties.ScanReportCount | hashtrial.py:49-62 | the loop prints exactly one line per scanned entry when it finishes, and at most that many after a `KeyError` |
| ReconcilerProperties.ScanStopsOnRename | hashtrial.py:57-60 | a `KeyError` comes right after the Renamed line for the entry whose `pop` failed, naming the missing path |
| ReconcilerProperties.ScanReportPaths | hashtrial.py:49-62 | line `i` of the loop names scanned path `i` and is not a Deleted line |
| ReconcilerProperties.ScanOnlyMoves | hashtrial.py:49-62 | the loop keeps the snapshot's size and multiset of digests; every key it ends with was stored or scanned; without a Renamed line the snapshot is unchanged |
| ReconcilerProperties.ScanLeavesNewOut | hashtrial.py:61-62 | a path reported New is not a key of the snapshot the loop ends with |
| ReconcilerProperties.ScanLeavesInvalidOut | hashtrial.py:53-54 | for a path reported Invalid, its scanned (path, digest) pair is not in the snapshot the loop ends with |
| ReconcilerProperties.RenamedAwayStaysAway | hashtrial.py:57-60 | the old path of every rename is no longer a key at the end, unless a later scanned entry has that path |
| ReconcilerProperties.StoredPathsAccountedFor | hashtrial.py:49-62 | every stored path is still a key at the end or was renamed away by some scanned entry |
| ReconcilerProperties.CrashNeedsEarlierRename | hashtrial.py:57-60 | with an index whose paths are stored keys, a `KeyError` names a stored path that an earlier scanned entry already renamed away |
| ReconcilerProperties.KeyErrorNeedsEarlierRename | hashtrial.py:46-60 | a run fails only on a stored path that an earlier Renamed line already took over, because the reverse index is never updated |
| ReconcilerProperties.ReportOrder | hashtrial.py:49-68 | a completed run prints one line per scanned entry in scan order, then the Deleted lines of the deleted pass over the mutated snapshot; a failed run prints the scan lines up to and including the failed rename |
| ReconcilerProperties.WrittenSnapshotMoves | hashtrial.py:49-72 | the written snapshot has the stored size and multiset of digests, its keys were stored or scanned, and without renames it is the stored snapshot itself |
| ReconcilerProperties.WrittenSnapshotUnchanged | hashtrial.py:49-72 | the written snapshot does not contain a New path, does not map an Invalid path to its new digest, and still contains every path reported Deleted |
| ReconcilerProperties.DeletedExactly | hashtrial.py:65-68 | in a completed run, a path of the written snapshot is reported Deleted if and only if neither it nor its digest was scanned, and every Deleted path is unscanned and still in the snapshot |
| ReconcilerProperties.UnscannedKeepStoredOrder | hashtrial.py:49-62 | two entries of the working snapshot whose paths are not scanned are stored paths, in their stored order |
| ReconcilerProperties.DeletedFollowStoredOrder | hashtrial.py:49-68 | in a completed run, the Deleted lines name stored paths in the key order of the loaded snapshot |
| ReconcilerProperties.RenamedNeverDeleted | hashtrial.py:57-68 | neither side of a rename is reported Deleted |
| ReconcilerProperties.ClassifyStoredEntry | hashtrial.py:50-52 | a scanned (path, digest) pair already in the snapshot is Valid and changes nothing |
| ReconcilerProperties.ClassifyUnrelatedEntry | hashtrial.py:61-62 | a scanned path that is not stored, with a digest not in the index, is New and changes nothing |
| ReconcilerProperties.ScanOfStoredEntries | hashtrial.py:49-52 | a scan whose pairs are all stored prints only Valid lines and leaves the snapshot as it was |
| ReconcilerProperties.NothingDeletedWhenAllScanned | hashtrial.py:65-66 | the deleted pass reports nothing when every snapshot path is scanned |
| ReconcilerProperties.UnchangedDirectory | hashtrial.py:45-72 | verifying a directory identical to its snapshot reports every file Valid, nothing Deleted, and writes the snapshot back unchanged |
| ReconcilerProperties.ScanOfUnrelatedEntries | hashtrial.py:49-62 | a scan with no stored path and no indexed digest prints only New lines and leaves the snapshot as it was |
| ReconcilerProperties.DeletedPassOfUnrelatedEntries | hashtrial.py:65-68 | against a scan that shares no path and no digest, every snapshot path is reported Deleted, in order |
| ReconcilerProperties.DisjointInputs | hashtrial.py:45-72 | when the snapshot and the scan share no path and no digest, every scanned file is New, every stored file Deleted, and the snapshot is written back unchanged |
| ReconcilerScenarios.RenameDetected | hashtrial.py:57-60 | `{a: h1}` scanned as `{b: h1}` reports `a` renamed to `b`; the written snapshot is `{b: h1}` |
| ReconcilerScenarios.SecondClaimantCrashes | hashtrial.py:57-60 | `{a: h1}` scanned as `{b: h1, c: h1}` renames `a` to `b`, then raises `KeyError` for `a` on `c` |
| ReconcilerScenarios.AmbiguousRenameKeepsOther | hashtrial.py:46-68 | `{a: h1, b: h1}` scanned as `{c: h1}` renames the last path `b`, keeps `a` in the snapshot and does not report it Deleted |
| ReconcilerScenarios.EmptyScanKeepsSnapshot | hashtrial.py:65-72 | `{x: h1}` against an empty scan reports `x` Deleted and writes `{x: h1}` back |
| ReconcilerScenarios.ModifiedReportedAgain | hashtrial.py:50-54 | `{x: h1}` scanned as `{x: h2}` reports `x` Invalid and writes `{x: h1}` back, so the next run reports it Invalid again |
| ReconcilerScenarios.NewFileNotInserted | hashtrial.py:61-62 | `{a: h1}` scanned as `{a: h1, n: h9}` reports `a` Valid and `n` New, and writes `{a: h1}` back |
| ReconcilerScenarios.PoppedPathReclassified | hashtrial.py:50-60 | `{a: h1, b: h2}` scanned as `{c: h1, a: h2}` renames `a` to `c`; the membership test then misses `a`, which is reported as renamed from `b` |
| ReconcilerScenarios.DigestCarriedToOtherPath | hashtrial.py:46-72 | `{a: h1, b: h2}` scanned as `{c: h1, a: h2, d: h1}` renames `a` to `c`, `b` to `a`, then `a` to `d`, completes without `KeyError`, and writes `{c: h1, d: h2}` |

## Where the intended behaviour and the code disagree

A snapshot verifier is meant to behave as follows. It reports on every directory without
failing. The snapshot it writes back holds exactly the scanned paths with their current
digests. So a second run against an unchanged directory reports every file Valid, and
verifying an emptied directory leaves an empty snapshot. A file whose digest was already
claimed by a rename is reported New. `hashtrial.py` does not keep these promises. The model
follows the code:

- The code can raise `KeyError` at line 60. It does so exactly when a scanned path is not
  a key, its digest is in the reverse index, and the indexed path `rev[hash]` is not a key
  of the working snapshot at that moment (`ClassifyReport`). The reverse index is built
  once at line 46 and never updated. So a second path with the digest of a file already
  renamed away crashes instead of being reported New (`SecondClaimantCrashes`,
  `KeyErrorNeedsEarlierRename`). It does not crash when an earlier rename has brought the
  indexed path back as a key: it then takes over that path's entry, whatever digest the
  entry holds (`DigestCarriedToOtherPath`).
- The written snapshot does not hold exactly the scanned paths with their current
  digests. The code:
  - never inserts a New path (`ScanLeavesNewOut`, `NewFileNotInserted`);
  - never writes back a modified digest (`ScanLeavesInvalidOut`, `ModifiedReportedAgain`);
  - never removes a Deleted path (`WrittenSnapshotUnchanged`, `EmptyScanKeepsSnapshot`).

  The only change it makes is the rename move (`WrittenSnapshotMoves`).
- Because of the previous point, a second run is not idempotent: against the written
  snapshot it reports a modified file Invalid again. An emptied directory does not give an
  empty snapshot either: the deleted path stays in the written snapshot.
- The membership test at line 50 reads the snapshot as already changed by earlier renames.
  A path that is still on disk, but whose entry an earlier rename popped, is classified as
  a rename target or as New, not as Valid (`PoppedPathReclassified`).

## Left out

- `hash_file` (lines 7-13): reading a file and hashing it with `hashlib.file_digest`. Digests are opaque strings in the model.
- `traverse_directory` (lines 15-24): the directory listing, the `is_file` test, absolute paths and the filter on a failed hash. The scan is an input, a dict with distinct keys.
- `generate_table` and the JSON load and dump (lines 26-30, 37-38, 71-72): file I/O and serialisation. The model yields the in-memory snapshot that would be dumped, and it assumes the loaded JSON is an object of strings.
- The snapshot-file guard (lines 33-35) and the directory guard (lines 40-42): file-system tests, outside the reconciler. The directory guard never fires anyway, because `exists` is not called.
- `main` (lines 74-89): the console menu.
- Printed text: each message is a `Report` constructor, not its formatted string.
- `stored_data` as a shared mutable object: it is a dict local to `validate_hash`, so the methods reassign a `seq` value in place of mutating a dict object. No aliasing can be observed.
