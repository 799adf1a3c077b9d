/** The snapshot reconciler of `validate_hash`: it compares the stored snapshot (path to
    digest, as loaded) with a fresh scan of the directory, reports every file as valid,
    modified, renamed, new or deleted, and yields the snapshot that is written back.

    The functions below are the specification, one per step of the source; the method
    `ValidateHash` is the loop the source runs, proved equal to `Reconcile`. */
module Reconciler {
  import opened Dicts

  /** One line of the printed report. */
  datatype Report =
    | Valid(path: Path)                    // "<path>: Valid."
    | Invalid(path: Path)                  // "<path>: Invalid hash (contents modified)."
    | Renamed(oldPath: Path, path: Path)   // "<path>: Valid hash (<oldPath> was renamed to <path>)."
    | New(path: Path)                      // "<path>: New file."
    | Deleted(path: Path)                  // "<path>: File deleted."

  /** How one run ends: either both loops finish and `snapshot` is what gets written back,
      or a `pop` raises `KeyError` for `missing` after `reports` were printed, and nothing
      is written. */
  datatype Outcome =
    | Completed(reports: seq<Report>, snapshot: Dict)
    | KeyError(reports: seq<Report>, missing: Path)

  /** `{h: p for p, h in stored.items()}`: each digest of the snapshot is mapped to a path
      carrying it, and a path that a later path with the same digest follows never wins,
      so each digest goes to the LAST path carrying it (`ReverseIndexLastWins`). */
  function ReverseIndex(stored: Dict): (rev: map<Digest, Path>)
    requires DistinctKeys(stored)
    ensures forall h :: h in rev <==> h in Values(stored)
    ensures forall i | 0 <= i < |stored| :: stored[i].1 in rev
    ensures forall h | h in rev :: (rev[h], h) in stored
    ensures forall i, j | 0 <= i < j < |stored| && stored[i].1 == stored[j].1 :: rev[stored[i].1] != stored[i].0
    decreases |stored|
  {
    if stored == [] then map[]
    else
      var n := |stored| - 1;
      var rev := ReverseIndex(stored[..n]);
      ReverseIndexStep(stored, rev);
      rev[stored[n].1 := stored[n].0]
  }

  /** The induction step of `ReverseIndex`: adding the last entry of `stored` to an index of
      the others overrides whatever its digest pointed to. */
  lemma ReverseIndexStep(stored: Dict, rev: map<Digest, Path>)
    requires DistinctKeys(stored) && stored != []
    requires var prefix := stored[..|stored| - 1];
      && (forall h :: h in rev <==> h in Values(prefix))
      && (forall i | 0 <= i < |prefix| :: prefix[i].1 in rev)
      && (forall h | h in rev :: (rev[h], h) in prefix)
      && (forall i, j | 0 <= i < j < |prefix| && prefix[i].1 == prefix[j].1 :: rev[prefix[i].1] != prefix[i].0)
    ensures var r := rev[stored[|stored| - 1].1 := stored[|stored| - 1].0];
      && (forall h :: h in r <==> h in Values(stored))
      && (forall i | 0 <= i < |stored| :: stored[i].1 in r)
      && (forall h | h in r :: (r[h], h) in stored)
      && (forall i, j | 0 <= i < j < |stored| && stored[i].1 == stored[j].1 :: r[stored[i].1] != stored[i].0)
  {
    var n := |stored| - 1;
    var prefix := stored[..n];
    var r := rev[stored[n].1 := stored[n].0];
    assert Values(stored) == Values(prefix) + [stored[n].1];
    assert stored == prefix + [stored[n]];
    forall i | 0 <= i < |stored| ensures stored[i].1 in r {
      if i < n { assert prefix[i] == stored[i]; }
    }
    forall i, j | 0 <= i < j < |stored| && stored[i].1 == stored[j].1
      ensures r[stored[i].1] != stored[i].0
    {
      if stored[i].1 != stored[n].1 {
        assert prefix[i] == stored[i] && prefix[j] == stored[j];
      }
    }
  }

  /** Last wins: the index sends the digest of entry `i` back to entry `i` exactly when no
      later entry of the snapshot carries the same digest. */
  lemma ReverseIndexLastWins(stored: Dict, i: nat)
    requires DistinctKeys(stored) && i < |stored|
    ensures var rev := ReverseIndex(stored);
      rev[stored[i].1] == stored[i].0 <==> forall j | i < j < |stored| :: stored[j].1 != stored[i].1
  {
    var rev := ReverseIndex(stored);
    var h := stored[i].1;
    if forall j | i < j < |stored| :: stored[j].1 != h {
      var m :| 0 <= m < |stored| && stored[m] == (rev[h], h);
    }
  }

  /** Looking a digest up in the index and then the path in the snapshot gives the digest
      back: `stored[rev[h]] == h`. */
  lemma ReverseIndexLookup(stored: Dict, h: Digest)
    requires DistinctKeys(stored)
    ensures var rev := ReverseIndex(stored);
      h in rev ==> rev[h] in Keys(stored) && Get(stored, rev[h]) == h
  {
    var rev := ReverseIndex(stored);
    if h in rev {
      var m :| 0 <= m < |stored| && stored[m] == (rev[h], h);
      assert Keys(stored)[m] == rev[h];
    }
  }

  /** What one scanned entry prints, and the working snapshot after it; `next` is `None`
      when the `pop` raised `KeyError`. */
  datatype Step = Step(report: Report, next: Option<Dict>)

  /** The body of the loop at lines 49-62 for the scanned entry `(path, hash)`, run against
      the snapshot `stored` as already changed by earlier entries. The line names the
      scanned path and is never Deleted; only a rename, from `rev[hash]`, changes the
      snapshot, and it fails with `KeyError` when `rev[hash]` is no longer a key. Which line
      is printed is stated by `ClassifyReport`, the rename move by `ClassifyRename`. */
  function Classify(stored: Dict, rev: map<Digest, Path>, path: Path, hash: Digest): (st: Step)
    requires DistinctKeys(stored)
    ensures st.report.path == path && !st.report.Deleted?
    ensures !st.report.Renamed? ==> st.next == Some(stored)
    ensures st.report.Renamed? ==> hash in rev && st.report.oldPath == rev[hash]
    ensures st.next.None? ==> st.report.Renamed? && st.report.oldPath !in Keys(stored)
    ensures st.next.Some? ==> DistinctKeys(st.next.value)
  {
    if path in Keys(stored) then
      Step(if hash == Get(stored, path) then Valid(path) else Invalid(path), Some(stored))
    else if hash in rev then
      var oldPath := rev[hash];
      match Pop(stored, oldPath)
      case None => Step(Renamed(oldPath, path), None)
      case Some((v, rest)) => Step(Renamed(oldPath, path), Some(SetItem(rest, path, v)))
    else
      Step(New(path), Some(stored))
  }

  /** The line printed for a scanned entry: Valid or Invalid when the working snapshot has
      its path (by digest equality), otherwise Renamed when the digest is in the reverse
      index, otherwise New; a rename fails exactly when `rev[hash]` is no longer a key. */
  lemma ClassifyReport(stored: Dict, rev: map<Digest, Path>, path: Path, hash: Digest)
    requires DistinctKeys(stored)
    ensures var st := Classify(stored, rev, path, hash);
      && (st.report == Valid(path) <==> path in Keys(stored) && Get(stored, path) == hash)
      && (st.report == Invalid(path) <==> path in Keys(stored) && Get(stored, path) != hash)
      && (st.report == New(path) <==> path !in Keys(stored) && hash !in rev)
      && (st.report.Renamed? <==> path !in Keys(stored) && hash in rev)
      && (st.report.Renamed? ==> (st.next.None? <==> st.report.oldPath !in Keys(stored)))
  {
  }

  /** A successful rename is a move: the entry of `rev[hash]` leaves the snapshot, the other
      entries keep their order, and the scanned path comes back as the last entry carrying
      the digest that was stored under `rev[hash]`. The consequences for the keys, the
      entries and the digests are `ClassifyRenameKeys`, `ClassifyRenameEntries` and
      `ClassifyRenameValues`. */
  lemma ClassifyRename(stored: Dict, rev: map<Digest, Path>, path: Path, hash: Digest)
    requires DistinctKeys(stored)
    ensures var st := Classify(stored, rev, path, hash);
      st.report.Renamed? && st.next.Some? ==>
        && st.report.oldPath in Keys(stored) && path !in Keys(stored)
        && var i := IndexOf(stored, st.report.oldPath);
           st.next.value == stored[..i] + stored[i + 1..] + [(path, stored[i].1)]
  {
    var st := Classify(stored, rev, path, hash);
    if st.report.Renamed? && st.next.Some? {
      var i := IndexOf(stored, rev[hash]);
      var rest := stored[..i] + stored[i + 1..];
      assert Pop(stored, rev[hash]) == Some((stored[i].1, rest));
      RemoveAtKeys(stored, i);
      assert SetItem(rest, path, stored[i].1) == rest + [(path, stored[i].1)];
    }
  }

  /** The keys after a successful rename: those of the snapshot in their order, without
      `rev[hash]`, then the scanned path. */
  lemma ClassifyRenameKeys(stored: Dict, rev: map<Digest, Path>, path: Path, hash: Digest)
    requires DistinctKeys(stored)
    ensures var st := Classify(stored, rev, path, hash);
      st.report.Renamed? && st.next.Some? ==>
        && st.report.oldPath in Keys(stored) && path !in Keys(stored)
        && (forall k :: k in Keys(st.next.value) <==> k == path || (k in Keys(stored) && k != st.report.oldPath))
        && var i := IndexOf(stored, st.report.oldPath);
           Keys(st.next.value) == Keys(stored)[..i] + Keys(stored)[i + 1..] + [path]
  {
    var st := Classify(stored, rev, path, hash);
    ClassifyRename(stored, rev, path, hash);
    if st.report.Renamed? && st.next.Some? {
      var i := IndexOf(stored, rev[hash]);
      var rest := stored[..i] + stored[i + 1..];
      KeysOfRemoveAt(stored, i);
      RemoveAtKeys(stored, i);
      assert Keys(rest + [(path, stored[i].1)]) == Keys(rest) + [path];
    }
  }

  /** The entries after a successful rename: those of other paths are kept, and the only
      new one is the scanned path with the digest stored under `rev[hash]`, at the end. */
  lemma ClassifyRenameEntries(stored: Dict, rev: map<Digest, Path>, path: Path, hash: Digest)
    requires DistinctKeys(stored)
    ensures var st := Classify(stored, rev, path, hash);
      st.report.Renamed? && st.next.Some? ==>
        var (from, after) := (st.report.oldPath, st.next.value);
        && from in Keys(stored)
        && after[|after| - 1] == (path, Get(stored, from))
        && (forall e | e in stored && e.0 != from :: e in after)
        && (forall e | e in after :: e == (path, Get(stored, from)) || (e in stored && e.0 != from))
  {
    var st := Classify(stored, rev, path, hash);
    ClassifyRename(stored, rev, path, hash);
    if st.report.Renamed? && st.next.Some? {
      RemoveAtEntries(stored, IndexOf(stored, rev[hash]));
    }
  }

  /** A successful rename keeps the size and the multiset of digests. */
  lemma ClassifyRenameValues(stored: Dict, rev: map<Digest, Path>, path: Path, hash: Digest)
    requires DistinctKeys(stored)
    ensures var st := Classify(stored, rev, path, hash);
      st.report.Renamed? && st.next.Some? ==>
        |st.next.value| == |stored| && multiset(Values(st.next.value)) == multiset(Values(stored))
  {
    var st := Classify(stored, rev, path, hash);
    ClassifyRename(stored, rev, path, hash);
    if st.report.Renamed? && st.next.Some? {
      var i := IndexOf(stored, rev[hash]);
      var rest := stored[..i] + stored[i + 1..];
      RemoveAtValues(stored, i);
      assert Values(rest + [(path, stored[i].1)]) == Values(rest) + [stored[i].1];
    }
  }

  /** Where the scanning loop (lines 49-62) stands: still running with the working
      snapshot and the lines printed so far, or stopped by a `KeyError`. */
  datatype Scan =
    | Running(stored: Dict, reports: seq<Report>)
    | Crashed(reports: seq<Report>, missing: Path)

  /** The scanning loop run over the entries of `current`, in order. */
  function ScanAll(stored: Dict, rev: map<Digest, Path>, current: Dict): (s: Scan)
    requires DistinctKeys(stored)
    ensures s.Running? ==> DistinctKeys(s.stored)
    decreases |current|
  {
    if current == [] then Running(stored, [])
    else
      var n := |current| - 1;
      match ScanAll(stored, rev, current[..n])
      case Crashed(reports, missing) => Crashed(reports, missing)
      case Running(data, reports) =>
        var st := Classify(data, rev, current[n].0, current[n].1);
        match st.next
        case None => Crashed(reports + [st.report], st.report.oldPath)
        case Some(next) => Running(next, reports + [st.report])
  }

  /** `any(h == target for h in values)` */
  function AnyEqual(values: seq<Digest>, target: Digest): (b: bool)
    ensures b <==> target in values
  {
    if values == [] then false
    else values[0] == target || AnyEqual(values[1..], target)
  }

  /** The deleted pass of lines 65-68 over the keys of `snapshot`, in order: a path is
      reported when the scan has no such path and no scanned digest equals its own. */
  function DeletedReports(snapshot: Dict, current: Dict): (r: seq<Report>)
    ensures |r| <= |snapshot|
    decreases |snapshot|
  {
    if snapshot == [] then []
    else
      var n := |snapshot| - 1;
      var (p, h) := snapshot[n];
      DeletedReports(snapshot[..n], current) +
        (if p !in Keys(current) && !AnyEqual(Values(current), h) then [Deleted(p)] else [])
  }

  /** The deleted pass reports only Deleted lines, each for a snapshot path the scan does
      not have, and it reports a snapshot entry exactly when the scan has neither its path
      nor its digest. */
  lemma {:induction false} DeletedPass(snapshot: Dict, current: Dict)
    requires DistinctKeys(snapshot)
    ensures var r := DeletedReports(snapshot, current);
      && (forall rep | rep in r :: rep.Deleted? && rep.path in Keys(snapshot) && rep.path !in Keys(current))
      && (forall i | 0 <= i < |snapshot| ::
            Deleted(snapshot[i].0) in r <==> snapshot[i].0 !in Keys(current) && snapshot[i].1 !in Values(current))
    decreases |snapshot|
  {
    if snapshot != [] {
      var n := |snapshot| - 1;
      var prefix := snapshot[..n];
      DeletedPass(prefix, current);
      assert Keys(snapshot) == Keys(prefix) + [snapshot[n].0];
      var r := DeletedReports(snapshot, current);
      forall i | 0 <= i < |snapshot|
        ensures Deleted(snapshot[i].0) in r <==> snapshot[i].0 !in Keys(current) && snapshot[i].1 !in Values(current)
      {
        if i < n {
          assert prefix[i] == snapshot[i];
          assert snapshot[i].0 != snapshot[n].0;
        }
      }
    }
  }

  /** The Deleted lines come in the key order of `snapshot`. */
  lemma {:induction false} DeletedInSnapshotOrder(snapshot: Dict, current: Dict)
    requires DistinctKeys(snapshot)
    ensures var r := DeletedReports(snapshot, current);
      forall i, j | 0 <= i < j < |r| ::
        && r[i].path in Keys(snapshot) && r[j].path in Keys(snapshot)
        && IndexOf(snapshot, r[i].path) < IndexOf(snapshot, r[j].path)
    decreases |snapshot|
  {
    if snapshot != [] {
      var n := |snapshot| - 1;
      var prefix := snapshot[..n];
      DeletedInSnapshotOrder(prefix, current);
      DeletedPass(prefix, current);
      var r := DeletedReports(snapshot, current);
      var earlier := DeletedReports(prefix, current);
      forall i, j | 0 <= i < j < |r|
        ensures r[i].path in Keys(snapshot) && r[j].path in Keys(snapshot)
        ensures IndexOf(snapshot, r[i].path) < IndexOf(snapshot, r[j].path)
      {
        assert r[i] == earlier[i] && earlier[i] in earlier;
        SameIndexInPrefix(snapshot, n, earlier[i].path);
        if j < |earlier| {
          assert r[j] == earlier[j] && earlier[j] in earlier;
          SameIndexInPrefix(snapshot, n, earlier[j].path);
        } else {
          assert r[j] == Deleted(snapshot[n].0);
          LastKeyIndex(snapshot);
        }
      }
    }
  }

  /** The key of the last entry of a dict sits at the last index. */
  lemma LastKeyIndex(d: Dict)
    requires DistinctKeys(d) && d != []
    ensures d[|d| - 1].0 in Keys(d) && IndexOf(d, d[|d| - 1].0) == |d| - 1
  {
    assert Keys(d)[|d| - 1] == d[|d| - 1].0;
  }

  /** A key of a prefix of a dict sits at the same index in the whole dict. */
  lemma SameIndexInPrefix(d: Dict, n: nat, p: Path)
    requires DistinctKeys(d) && n <= |d| && p in Keys(d[..n])
    ensures p in Keys(d) && IndexOf(d, p) == IndexOf(d[..n], p) < n
  {
    var i := IndexOf(d[..n], p);
    assert d[i] == d[..n][i];
    assert Keys(d)[i] == p;
  }

  /** The whole reconciliation of lines 45-68: the reverse index, the scanning loop, then
      (if no `KeyError` stopped it) the deleted pass over the snapshot it left behind,
      which is also the snapshot written back at lines 71-72. */
  function Reconcile(stored: Dict, current: Dict): (o: Outcome)
    requires DistinctKeys(stored) && DistinctKeys(current)
    ensures o.Completed? ==> DistinctKeys(o.snapshot)
  {
    match ScanAll(stored, ReverseIndex(stored), current)
    case Crashed(reports, missing) => KeyError(reports, missing)
    case Running(data, reports) => Completed(reports + DeletedReports(data, current), data)
  }

  /** `ScanAll` over one more entry of `current`. */
  lemma ScanAllNext(stored: Dict, rev: map<Digest, Path>, current: Dict, i: nat)
    requires DistinctKeys(stored) && i < |current|
    requires ScanAll(stored, rev, current[..i]).Running?
    ensures var s := ScanAll(stored, rev, current[..i]);
      var st := Classify(s.stored, rev, current[i].0, current[i].1);
      ScanAll(stored, rev, current[..i + 1]) ==
        if st.next.None? then Crashed(s.reports + [st.report], st.report.oldPath)
        else Running(st.next.value, s.reports + [st.report])
  {
    assert current[..i + 1][..i] == current[..i];
  }

  /** `DeletedReports` over one more entry of `snapshot`. */
  lemma DeletedReportsNext(snapshot: Dict, current: Dict, j: nat)
    requires DistinctKeys(snapshot) && j < |snapshot|
    ensures DeletedReports(snapshot[..j + 1], current) ==
      DeletedReports(snapshot[..j], current) +
      (if snapshot[j].0 !in Keys(current) && !AnyEqual(Values(current), snapshot[j].1) then [Deleted(snapshot[j].0)] else [])
  {
    assert snapshot[..j + 1][..j] == snapshot[..j];
  }

  /** Once the scan has crashed on a prefix of `current`, scanning the rest changes nothing. */
  lemma {:induction false} CrashIsFinal(stored: Dict, rev: map<Digest, Path>, current: Dict, k: nat)
    requires DistinctKeys(stored) && k <= |current|
    requires ScanAll(stored, rev, current[..k]).Crashed?
    ensures ScanAll(stored, rev, current) == ScanAll(stored, rev, current[..k])
    decreases |current|
  {
    if k < |current| {
      var n := |current| - 1;
      assert current[..n][..k] == current[..k];
      CrashIsFinal(stored, rev, current[..n], k);
    } else {
      assert current[..k] == current;
    }
  }

  /** The body of the scanning loop (lines 50-62) for one scanned entry: the line it prints
      and the working snapshot after it, `None` when `pop` raised `KeyError`. */
  method ScanEntry(data: Dict, rev: map<Digest, Path>, path: Path, hash: Digest)
    returns (report: Report, next: Option<Dict>)
    requires DistinctKeys(data)
    ensures Step(report, next) == Classify(data, rev, path, hash)
  {
    if path in Keys(data) {
      if hash == Get(data, path) {
        report := Valid(path);
      } else {
        report := Invalid(path);
      }
      next := Some(data);
    } else if hash in rev {
      var oldPath := rev[hash];
      report := Renamed(oldPath, path);
      var popped := Pop(data, oldPath);
      if popped.None? {
        next := None;
      } else {
        next := Some(SetItem(popped.value.1, path, popped.value.0));
      }
    } else {
      report := New(path);
      next := Some(data);
    }
  }

  /** The scanning loop of lines 49-62: walks the scan in order, printing one line per
      entry and moving renamed entries of the working snapshot in place; a `KeyError` from
      `pop` ends it early. */
  method ScanEntries(stored: Dict, rev: map<Digest, Path>, current: Dict) returns (s: Scan)
    requires DistinctKeys(stored)
    ensures s == ScanAll(stored, rev, current)
  {
    var data := stored;
    var reports: seq<Report> := [];
    var i := 0;
    while i < |current|
      invariant 0 <= i <= |current|
      invariant ScanAll(stored, rev, current[..i]) == Running(data, reports)
    {
      var (path, hash) := current[i];
      ScanAllNext(stored, rev, current, i);
      var report, next := ScanEntry(data, rev, path, hash);
      reports := reports + [report];
      if next.None? {
        CrashIsFinal(stored, rev, current, i + 1);
        return Crashed(reports, report.oldPath);
      }
      data := next.value;
      i := i + 1;
    }
    assert current[..i] == current;
    s := Running(data, reports);
  }

  /** The deleted pass of lines 65-68, looping over a copy of the snapshot's keys. */
  method ReportDeleted(snapshot: Dict, current: Dict) returns (deleted: seq<Report>)
    requires DistinctKeys(snapshot)
    ensures deleted == DeletedReports(snapshot, current)
  {
    var keys := Keys(snapshot);
    deleted := [];
    var j := 0;
    while j < |keys|
      invariant 0 <= j <= |keys|
      invariant deleted == DeletedReports(snapshot[..j], current)
    {
      var p := keys[j];
      DeletedReportsNext(snapshot, current, j);
      if p !in Keys(current) {
        if !AnyEqual(Values(current), Get(snapshot, p)) {
          deleted := deleted + [Deleted(p)];
        }
      }
      j := j + 1;
    }
    assert snapshot[..j] == snapshot;
  }

  /** `validate_hash` from the reverse index to the deleted pass, as the source runs it. */
  method ValidateHash(stored: Dict, current: Dict) returns (outcome: Outcome)
    requires DistinctKeys(stored) && DistinctKeys(current)
    ensures outcome == Reconcile(stored, current)
  {
    var rev := ReverseIndex(stored);
    var scan := ScanEntries(stored, rev, current);
    match scan
    case Crashed(reports, missing) =>
      outcome := KeyError(reports, missing);
    case Running(data, reports) =>
      var deleted := ReportDeleted(data, current);
      outcome := Completed(reports + deleted, data);
  }
}
