/** What the reconciler of `validate_hash` guarantees, and what it does not, for all inputs:
    the shape of the printed report, the snapshot that gets written back, the deleted pass
    and the `KeyError` a stale reverse index causes.

    Each fact about the scanning loop is proved by induction over the scanned entries; its
    induction step is a lemma of its own (`...Step`), stated over the working snapshot and
    the lines printed before the last entry. */
module ReconcilerProperties {
  import opened Dicts
  import opened Reconciler

  // ---------------------------------------------------------------------------------------
  // The lines the scanning loop prints

  /** The scanning loop prints exactly one line per scanned entry, in scan order, naming
      that entry's path; none of them is a Deleted line. A `KeyError` stops it right after
      the Renamed line whose `pop` failed. */
  lemma ScanReportsFollowScan(stored: Dict, rev: map<Digest, Path>, current: Dict)
    requires DistinctKeys(stored)
    ensures var s := ScanAll(stored, rev, current);
      && |s.reports| <= |current|
      && (s.Running? ==> |s.reports| == |current|)
      && (forall i | 0 <= i < |s.reports| :: s.reports[i].path == current[i].0 && !s.reports[i].Deleted?)
      && (s.Crashed? ==>
            |s.reports| > 0 && s.reports[|s.reports| - 1] == Renamed(s.missing, current[|s.reports| - 1].0))
  {
    ScanReportCount(stored, rev, current);
    ScanStopsOnRename(stored, rev, current);
    ScanReportPaths(stored, rev, current);
  }

  /** The number of lines the scanning loop prints: one per scanned entry, fewer after a
      `KeyError`. */
  lemma {:induction false} ScanReportCount(stored: Dict, rev: map<Digest, Path>, current: Dict)
    requires DistinctKeys(stored)
    ensures var s := ScanAll(stored, rev, current);
      && |s.reports| <= |current|
      && (s.Running? ==> |s.reports| == |current|)
      && (s.Crashed? ==> |s.reports| > 0)
    decreases |current|
  {
    if current != [] {
      ScanReportCount(stored, rev, current[..|current| - 1]);
    }
  }

  /** The scanning loop stops right after the Renamed line whose `pop` failed. */
  lemma {:induction false} ScanStopsOnRename(stored: Dict, rev: map<Digest, Path>, current: Dict)
    requires DistinctKeys(stored)
    ensures StopsOnRename(ScanAll(stored, rev, current), current)
    decreases |current|
  {
    if current != [] {
      var n := |current| - 1;
      ScanStopsOnRename(stored, rev, current[..n]);
      var prev := ScanAll(stored, rev, current[..n]);
      if prev.Crashed? {
        StopsOnRenameExtends(prev, current[..n], current);
      } else {
        ScanReportCount(stored, rev, current[..n]);
        CountStep(prev.stored, prev.reports, rev, current);
      }
    }
  }

  /** A crashed scan's last line is the Renamed line naming the path that was missing and the
      scanned path it was printed for. */
  predicate StopsOnRename(s: Scan, current: Dict)
  {
    s.Crashed? ==>
      0 < |s.reports| <= |current| && s.reports[|s.reports| - 1] == Renamed(s.missing, current[|s.reports| - 1].0)
  }

  /** `StopsOnRename` survives scanning more entries after the crash. */
  lemma StopsOnRenameExtends(s: Scan, pre: Dict, current: Dict)
    requires StopsOnRename(s, pre) && pre <= current
    ensures StopsOnRename(s, current)
  {
    if s.Crashed? {
      assert pre[|s.reports| - 1] == current[|s.reports| - 1];
    }
  }

  /** The step of `ScanStopsOnRename` for the last scanned entry. */
  lemma CountStep(before: Dict, reports: seq<Report>, rev: map<Digest, Path>, current: Dict)
    requires DistinctKeys(before) && |reports| + 1 == |current|
    ensures var st := Classify(before, rev, current[|reports|].0, current[|reports|].1);
      st.next.None? ==> StopsOnRename(Crashed(reports + [st.report], st.report.oldPath), current)
  {
  }

  /** The line printed for each scanned entry names that entry's path and is not a Deleted
      line. */
  lemma {:induction false} ScanReportPaths(stored: Dict, rev: map<Digest, Path>, current: Dict)
    requires DistinctKeys(stored)
    ensures var s := ScanAll(stored, rev, current);
      forall i | 0 <= i < |s.reports| && i < |current| :: s.reports[i].path == current[i].0 && !s.reports[i].Deleted?
    decreases |current|
  {
    if current != [] {
      var n := |current| - 1;
      ScanReportPaths(stored, rev, current[..n]);
      ScanReportCount(stored, rev, current[..n]);
      var prev := ScanAll(stored, rev, current[..n]);
      if prev.Running? {
        PathsStep(prev.stored, prev.reports, rev, current);
      } else {
        forall i | 0 <= i < |prev.reports| ensures current[..n][i] == current[i] { }
      }
    }
  }

  /** The step of `ScanReportPaths` for the last scanned entry. */
  lemma PathsStep(before: Dict, reports: seq<Report>, rev: map<Digest, Path>, current: Dict)
    requires DistinctKeys(before) && |reports| + 1 == |current|
    requires forall i | 0 <= i < |reports| && i < |current[..|reports|]| ::
      reports[i].path == current[..|reports|][i].0 && !reports[i].Deleted?
    ensures var st := Classify(before, rev, current[|reports|].0, current[|reports|].1);
      forall i | 0 <= i < |reports + [st.report]| && i < |current| ::
        (reports + [st.report])[i].path == current[i].0 && !(reports + [st.report])[i].Deleted?
  {
    var n := |reports|;
    var st := Classify(before, rev, current[n].0, current[n].1);
    forall i | 0 <= i < n + 1
      ensures (reports + [st.report])[i].path == current[i].0 && !(reports + [st.report])[i].Deleted?
    {
      if i < n {
        assert (reports + [st.report])[i] == reports[i] && current[..n][i] == current[i];
      }
    }
  }

  // ---------------------------------------------------------------------------------------
  // The working snapshot during the scanning loop

  /** The rename move is the only change the scanning loop makes: the working snapshot keeps
      its size and its multiset of digests, every key it ends with was a stored path or a
      scanned path, and without a Renamed line it is the stored snapshot itself. */
  lemma {:induction false} ScanOnlyMoves(stored: Dict, rev: map<Digest, Path>, current: Dict)
    requires DistinctKeys(stored)
    ensures var s := ScanAll(stored, rev, current);
      s.Running? ==>
        && |s.stored| == |stored|
        && multiset(Values(s.stored)) == multiset(Values(stored))
        && (forall k | k in Keys(s.stored) :: k in Keys(stored) || k in Keys(current))
        && ((forall rep | rep in s.reports :: !rep.Renamed?) ==> s.stored == stored)
    decreases |current|
  {
    if current != [] {
      var n := |current| - 1;
      ScanOnlyMoves(stored, rev, current[..n]);
      var prev := ScanAll(stored, rev, current[..n]);
      if prev.Running? {
        MovesStep(stored, prev.stored, prev.reports, rev, current);
      }
    }
  }

  /** The step of `ScanOnlyMoves` for the last scanned entry. */
  lemma MovesStep(stored: Dict, before: Dict, reports: seq<Report>, rev: map<Digest, Path>, current: Dict)
    requires DistinctKeys(before) && current != []
    requires |before| == |stored| && multiset(Values(before)) == multiset(Values(stored))
    requires forall k | k in Keys(before) :: k in Keys(stored) || k in Keys(current[..|current| - 1])
    requires (forall rep | rep in reports :: !rep.Renamed?) ==> before == stored
    ensures var st := Classify(before, rev, current[|current| - 1].0, current[|current| - 1].1);
      st.next.Some? ==>
        && |st.next.value| == |stored|
        && multiset(Values(st.next.value)) == multiset(Values(stored))
        && (forall k | k in Keys(st.next.value) :: k in Keys(stored) || k in Keys(current))
        && ((forall rep | rep in reports + [st.report] :: !rep.Renamed?) ==> st.next.value == stored)
  {
    var n := |current| - 1;
    var st := Classify(before, rev, current[n].0, current[n].1);
    ClassifyRenameKeys(before, rev, current[n].0, current[n].1);
    ClassifyRenameValues(before, rev, current[n].0, current[n].1);
    assert Keys(current) == Keys(current[..n]) + [current[n].0];
    if forall rep | rep in reports + [st.report] :: !rep.Renamed? {
      assert st.report in reports + [st.report];
      forall rep | rep in reports ensures !rep.Renamed? {
        assert rep in reports + [st.report];
      }
    }
  }

  /** A new file's path never reaches the working snapshot: after a New line the path is
      not a key of it. */
  lemma {:induction false} ScanLeavesNewOut(stored: Dict, rev: map<Digest, Path>, current: Dict)
    requires DistinctKeys(stored) && DistinctKeys(current)
    ensures var s := ScanAll(stored, rev, current);
      s.Running? ==> forall i | 0 <= i < |s.reports| && i < |current| && s.reports[i].New? ::
        current[i].0 !in Keys(s.stored)
    decreases |current|
  {
    if current != [] {
      var n := |current| - 1;
      ScanLeavesNewOut(stored, rev, current[..n]);
      ScanReportCount(stored, rev, current[..n]);
      var prev := ScanAll(stored, rev, current[..n]);
      if prev.Running? {
        NewOutStep(prev.stored, prev.reports, rev, current);
      }
    }
  }

  /** The step of `ScanLeavesNewOut` for the last scanned entry. */
  lemma NewOutStep(before: Dict, reports: seq<Report>, rev: map<Digest, Path>, current: Dict)
    requires DistinctKeys(before) && DistinctKeys(current) && |reports| + 1 == |current|
    requires forall i | 0 <= i < |reports| && i < |current[..|reports|]| && reports[i].New? ::
      current[..|reports|][i].0 !in Keys(before)
    ensures var st := Classify(before, rev, current[|reports|].0, current[|reports|].1);
      st.next.Some? ==>
        forall i | 0 <= i < |reports + [st.report]| && i < |current| && (reports + [st.report])[i].New? ::
          current[i].0 !in Keys(st.next.value)
  {
    var n := |reports|;
    var st := Classify(before, rev, current[n].0, current[n].1);
    ClassifyReport(before, rev, current[n].0, current[n].1);
    ClassifyRenameKeys(before, rev, current[n].0, current[n].1);
    if st.next.Some? {
      forall i | 0 <= i < n + 1 && (reports + [st.report])[i].New?
        ensures current[i].0 !in Keys(st.next.value)
      {
        if i < n {
          assert (reports + [st.report])[i] == reports[i];
          assert current[..n][i] == current[i];
          assert current[i].0 != current[n].0;
        }
      }
    }
  }

  /** A modified file's new digest never reaches the working snapshot: after an Invalid
      line the scanned (path, digest) pair is not in it. */
  lemma {:induction false} ScanLeavesInvalidOut(stored: Dict, rev: map<Digest, Path>, current: Dict)
    requires DistinctKeys(stored) && DistinctKeys(current)
    ensures var s := ScanAll(stored, rev, current);
      s.Running? ==> forall i | 0 <= i < |s.reports| && i < |current| && s.reports[i].Invalid? ::
        current[i] !in s.stored
    decreases |current|
  {
    if current != [] {
      var n := |current| - 1;
      ScanLeavesInvalidOut(stored, rev, current[..n]);
      ScanReportCount(stored, rev, current[..n]);
      var prev := ScanAll(stored, rev, current[..n]);
      if prev.Running? {
        InvalidOutStep(prev.stored, prev.reports, rev, current);
      }
    }
  }

  /** The step of `ScanLeavesInvalidOut` for the last scanned entry. */
  lemma InvalidOutStep(before: Dict, reports: seq<Report>, rev: map<Digest, Path>, current: Dict)
    requires DistinctKeys(before) && DistinctKeys(current) && |reports| + 1 == |current|
    requires forall i | 0 <= i < |reports| && i < |current[..|reports|]| && reports[i].Invalid? ::
      current[..|reports|][i] !in before
    ensures var st := Classify(before, rev, current[|reports|].0, current[|reports|].1);
      st.next.Some? ==>
        forall i | 0 <= i < |reports + [st.report]| && i < |current| && (reports + [st.report])[i].Invalid? ::
          current[i] !in st.next.value
  {
    var n := |reports|;
    var st := Classify(before, rev, current[n].0, current[n].1);
    ClassifyReport(before, rev, current[n].0, current[n].1);
    ClassifyRenameEntries(before, rev, current[n].0, current[n].1);
    if st.next.Some? {
      forall i | 0 <= i < n + 1 && (reports + [st.report])[i].Invalid?
        ensures current[i] !in st.next.value
      {
        if i < n {
          assert (reports + [st.report])[i] == reports[i];
          assert current[..n][i] == current[i];
          assert current[i].0 != current[n].0;
        }
      }
    }
  }

  /** A path that a rename took out of the working snapshot only comes back as the target
      of a later rename, that is, as a scanned path. */
  lemma {:induction false} RenamedAwayStaysAway(stored: Dict, rev: map<Digest, Path>, current: Dict)
    requires DistinctKeys(stored)
    ensures var s := ScanAll(stored, rev, current);
      s.Running? ==> forall i | 0 <= i < |s.reports| && s.reports[i].Renamed? ::
        s.reports[i].oldPath !in Keys(s.stored) || s.reports[i].oldPath in Keys(current)
    decreases |current|
  {
    if current != [] {
      var n := |current| - 1;
      RenamedAwayStaysAway(stored, rev, current[..n]);
      var prev := ScanAll(stored, rev, current[..n]);
      if prev.Running? {
        AwayStep(prev.stored, prev.reports, rev, current);
      }
    }
  }

  /** The step of `RenamedAwayStaysAway` for the last scanned entry. */
  lemma AwayStep(before: Dict, reports: seq<Report>, rev: map<Digest, Path>, current: Dict)
    requires DistinctKeys(before) && current != []
    requires forall i | 0 <= i < |reports| && reports[i].Renamed? ::
      reports[i].oldPath !in Keys(before) || reports[i].oldPath in Keys(current[..|current| - 1])
    ensures var st := Classify(before, rev, current[|current| - 1].0, current[|current| - 1].1);
      st.next.Some? ==>
        forall i | 0 <= i < |reports + [st.report]| && (reports + [st.report])[i].Renamed? ::
          (reports + [st.report])[i].oldPath !in Keys(st.next.value) || (reports + [st.report])[i].oldPath in Keys(current)
  {
    var n := |current| - 1;
    var st := Classify(before, rev, current[n].0, current[n].1);
    ClassifyRenameKeys(before, rev, current[n].0, current[n].1);
    assert Keys(current) == Keys(current[..n]) + [current[n].0];
    if st.next.Some? {
      forall i | 0 <= i < |reports| + 1 && (reports + [st.report])[i].Renamed?
        ensures (reports + [st.report])[i].oldPath !in Keys(st.next.value) || (reports + [st.report])[i].oldPath in Keys(current)
      {
        if i < |reports| {
          assert (reports + [st.report])[i] == reports[i];
        }
      }
    }
  }

  /** While the scanning loop runs, every stored path is still in the working snapshot or
      was renamed away to a scanned path. */
  lemma {:induction false} StoredPathsAccountedFor(stored: Dict, rev: map<Digest, Path>, current: Dict)
    requires DistinctKeys(stored)
    ensures var s := ScanAll(stored, rev, current);
      s.Running? ==> forall k | k in Keys(stored) ::
        k in Keys(s.stored) ||
        exists i | 0 <= i < |s.reports| && i < |current| :: s.reports[i] == Renamed(k, current[i].0)
    decreases |current|
  {
    if current != [] {
      var n := |current| - 1;
      StoredPathsAccountedFor(stored, rev, current[..n]);
      ScanReportCount(stored, rev, current[..n]);
      var prev := ScanAll(stored, rev, current[..n]);
      if prev.Running? {
        AccountedStep(stored, prev.stored, prev.reports, rev, current);
      }
    }
  }

  /** The step of `StoredPathsAccountedFor` for the last scanned entry. */
  lemma AccountedStep(stored: Dict, before: Dict, reports: seq<Report>, rev: map<Digest, Path>, current: Dict)
    requires DistinctKeys(before) && |reports| + 1 == |current|
    requires forall k | k in Keys(stored) ::
      k in Keys(before) ||
      exists i | 0 <= i < |reports| && i < |current[..|reports|]| :: reports[i] == Renamed(k, current[..|reports|][i].0)
    ensures var st := Classify(before, rev, current[|reports|].0, current[|reports|].1);
      st.next.Some? ==> forall k | k in Keys(stored) ::
        k in Keys(st.next.value) ||
        exists i | 0 <= i < |reports + [st.report]| && i < |current| :: (reports + [st.report])[i] == Renamed(k, current[i].0)
  {
    var n := |reports|;
    var st := Classify(before, rev, current[n].0, current[n].1);
    ClassifyRenameKeys(before, rev, current[n].0, current[n].1);
    if st.next.Some? {
      forall k | k in Keys(stored) && k !in Keys(st.next.value)
        ensures exists i | 0 <= i < |reports + [st.report]| && i < |current| :: (reports + [st.report])[i] == Renamed(k, current[i].0)
      {
        if k in Keys(before) {
          assert (reports + [st.report])[n] == Renamed(k, current[n].0);
        } else {
          var i :| 0 <= i < |reports| && i < n && reports[i] == Renamed(k, current[..n][i].0);
          assert (reports + [st.report])[i] == Renamed(k, current[i].0);
        }
      }
    }
  }

  /** The stored paths that the scan does not have keep, in the working snapshot, the order
      they had in the stored snapshot: a `pop` closes the gap it leaves, and a rename only
      appends a scanned path at the end. `scanned` holds at least the scanned paths. */
  lemma {:induction false} UnscannedKeepStoredOrder(stored: Dict, rev: map<Digest, Path>, current: Dict, scanned: seq<Path>)
    requires DistinctKeys(stored)
    requires forall i | 0 <= i < |current| :: current[i].0 in scanned
    ensures var s := ScanAll(stored, rev, current);
      s.Running? ==> KeepsStoredOrder(s.stored, stored, scanned)
    decreases |current|
  {
    if current == [] {
      forall a, b | 0 <= a < b < |stored|
        ensures stored[a].0 in Keys(stored) && stored[b].0 in Keys(stored)
        ensures IndexOf(stored, stored[a].0) < IndexOf(stored, stored[b].0)
      {
        IndexOfEntry(stored, a);
        IndexOfEntry(stored, b);
      }
    } else {
      var n := |current| - 1;
      forall i | 0 <= i < n ensures current[..n][i].0 in scanned {
        assert current[..n][i] == current[i];
      }
      UnscannedKeepStoredOrder(stored, rev, current[..n], scanned);
      var prev := ScanAll(stored, rev, current[..n]);
      if prev.Running? {
        OrderStep(stored, prev.stored, rev, current[n].0, current[n].1, scanned);
      }
    }
  }

  /** Any two entries of `data` whose paths are not in `scanned` are stored paths, in the
      order the stored snapshot has them. */
  predicate KeepsStoredOrder(data: Dict, stored: Dict, scanned: seq<Path>)
  {
    forall a, b | 0 <= a < b < |data| && data[a].0 !in scanned && data[b].0 !in scanned ::
      && data[a].0 in Keys(stored) && data[b].0 in Keys(stored)
      && IndexOf(stored, data[a].0) < IndexOf(stored, data[b].0)
  }

  /** The step of `UnscannedKeepStoredOrder` for one scanned entry. */
  lemma OrderStep(stored: Dict, before: Dict, rev: map<Digest, Path>, path: Path, hash: Digest, scanned: seq<Path>)
    requires DistinctKeys(before) && path in scanned && KeepsStoredOrder(before, stored, scanned)
    ensures var st := Classify(before, rev, path, hash);
      st.next.Some? ==> KeepsStoredOrder(st.next.value, stored, scanned)
  {
    var st := Classify(before, rev, path, hash);
    ClassifyRename(before, rev, path, hash);
    if st.report.Renamed? && st.next.Some? {
      var after := st.next.value;
      var i := IndexOf(before, st.report.oldPath);
      forall a, b | 0 <= a < b < |after| && after[a].0 !in scanned && after[b].0 !in scanned
        ensures after[a].0 in Keys(stored) && after[b].0 in Keys(stored)
        ensures IndexOf(stored, after[a].0) < IndexOf(stored, after[b].0)
      {
        assert after[|after| - 1].0 == path;
        var a' := if a < i then a else a + 1;
        var b' := if b < i then b else b + 1;
        assert after[a] == before[a'] && after[b] == before[b'];
      }
    }
  }

  /** The Deleted lines of a completed run come in the key order of the loaded snapshot:
      each names a stored path that the scan does not have, which no rename has moved. */
  lemma DeletedFollowStoredOrder(stored: Dict, current: Dict)
    requires DistinctKeys(stored) && DistinctKeys(current)
    ensures var o := Reconcile(stored, current);
      o.Completed? ==>
        forall i, j | 0 <= i < j < |o.reports| && o.reports[i].Deleted? && o.reports[j].Deleted? ::
          && o.reports[i].path in Keys(stored) && o.reports[j].path in Keys(stored)
          && IndexOf(stored, o.reports[i].path) < IndexOf(stored, o.reports[j].path)
  {
    var rev := ReverseIndex(stored);
    var s := ScanAll(stored, rev, current);
    ScanReportsFollowScan(stored, rev, current);
    forall i | 0 <= i < |current| ensures current[i].0 in Keys(current) {
      assert Keys(current)[i] == current[i].0;
    }
    UnscannedKeepStoredOrder(stored, rev, current, Keys(current));
    if s.Running? {
      var o := Reconcile(stored, current);
      assert o.reports == s.reports + DeletedReports(s.stored, current);
      forall i, j | 0 <= i < j < |o.reports| && o.reports[i].Deleted? && o.reports[j].Deleted?
        ensures o.reports[i].path in Keys(stored) && o.reports[j].path in Keys(stored)
        ensures IndexOf(stored, o.reports[i].path) < IndexOf(stored, o.reports[j].path)
      {
        DeletedLinesOrder(stored, s.stored, s.reports, current, i, j);
      }
    }
  }

  /** Two Deleted lines after the lines of the scanning loop, which has left `data` keeping
      the stored order, come in stored order. */
  lemma DeletedLinesOrder(stored: Dict, data: Dict, reports: seq<Report>, current: Dict, i: nat, j: nat)
    requires DistinctKeys(data) && KeepsStoredOrder(data, stored, Keys(current))
    requires forall k | 0 <= k < |reports| :: !reports[k].Deleted?
    requires var all := reports + DeletedReports(data, current);
      i < j < |all| && all[i].Deleted? && all[j].Deleted?
    ensures var all := reports + DeletedReports(data, current);
      && all[i].path in Keys(stored) && all[j].path in Keys(stored)
      && IndexOf(stored, all[i].path) < IndexOf(stored, all[j].path)
  {
    var deleted := DeletedReports(data, current);
    var all := reports + deleted;
    if i < |reports| {
      assert false;
    } else {
      var i', j' := i - |reports|, j - |reports|;
      assert all[i] == deleted[i'] && all[j] == deleted[j'];
      DeletedPairInStoredOrder(stored, data, current, i', j');
    }
  }

  /** Two lines of the deleted pass over a snapshot that keeps the stored order come in
      stored order. */
  lemma DeletedPairInStoredOrder(stored: Dict, data: Dict, current: Dict, i: nat, j: nat)
    requires DistinctKeys(data) && KeepsStoredOrder(data, stored, Keys(current))
    requires i < j < |DeletedReports(data, current)|
    ensures var r := DeletedReports(data, current);
      && r[i].path in Keys(stored) && r[j].path in Keys(stored)
      && IndexOf(stored, r[i].path) < IndexOf(stored, r[j].path)
  {
    var r := DeletedReports(data, current);
    DeletedPass(data, current);
    DeletedInSnapshotOrder(data, current);
    assert r[i] in r && r[j] in r;
    DeletedPairOrder(stored, data, current, r[i].path, r[j].path);
  }

  /** Two unscanned keys of a snapshot that keeps the stored order are in stored order. */
  lemma DeletedPairOrder(stored: Dict, data: Dict, current: Dict, p: Path, q: Path)
    requires KeepsStoredOrder(data, stored, Keys(current))
    requires p in Keys(data) && q in Keys(data) && p !in Keys(current) && q !in Keys(current)
    requires IndexOf(data, p) < IndexOf(data, q)
    ensures p in Keys(stored) && q in Keys(stored) && IndexOf(stored, p) < IndexOf(stored, q)
  {
    var a, b := IndexOf(data, p), IndexOf(data, q);
    assert data[a].0 == p && data[b].0 == q;
  }

  /** The `KeyError` comes only from a stale reverse index: the path it names was stored,
      and an earlier scanned path already took it over in a rename. */
  lemma {:induction false} CrashNeedsEarlierRename(stored: Dict, rev: map<Digest, Path>, current: Dict)
    requires DistinctKeys(stored)
    requires forall h | h in rev :: rev[h] in Keys(stored)
    ensures var s := ScanAll(stored, rev, current);
      s.Crashed? ==>
        && s.missing in Keys(stored)
        && exists i | 0 <= i < |s.reports| - 1 && i < |current| :: s.reports[i] == Renamed(s.missing, current[i].0)
    decreases |current|
  {
    if current != [] {
      var n := |current| - 1;
      var prev := ScanAll(stored, rev, current[..n]);
      var s := ScanAll(stored, rev, current);
      if prev.Crashed? {
        CrashNeedsEarlierRename(stored, rev, current[..n]);
        var i :| 0 <= i < |prev.reports| - 1 && i < n && prev.reports[i] == Renamed(prev.missing, current[..n][i].0);
        assert s.reports[i] == Renamed(s.missing, current[i].0);
      } else {
        StoredPathsAccountedFor(stored, rev, current[..n]);
        ScanReportCount(stored, rev, current[..n]);
        CrashStep(stored, prev.stored, prev.reports, rev, current);
      }
    }
  }

  /** The step of `CrashNeedsEarlierRename` where the last scanned entry is the one whose
      `pop` fails. */
  lemma CrashStep(stored: Dict, before: Dict, reports: seq<Report>, rev: map<Digest, Path>, current: Dict)
    requires DistinctKeys(before) && |reports| + 1 == |current|
    requires forall h | h in rev :: rev[h] in Keys(stored)
    requires forall k | k in Keys(stored) ::
      k in Keys(before) ||
      exists i | 0 <= i < |reports| && i < |current[..|reports|]| :: reports[i] == Renamed(k, current[..|reports|][i].0)
    ensures var st := Classify(before, rev, current[|reports|].0, current[|reports|].1);
      st.next.None? ==>
        && st.report.oldPath in Keys(stored)
        && exists i | 0 <= i < |reports + [st.report]| - 1 && i < |current| ::
             (reports + [st.report])[i] == Renamed(st.report.oldPath, current[i].0)
  {
    var n := |reports|;
    var st := Classify(before, rev, current[n].0, current[n].1);
    if st.next.None? {
      var k := st.report.oldPath;
      var i :| 0 <= i < |reports| && i < n && reports[i] == Renamed(k, current[..n][i].0);
      assert (reports + [st.report])[i] == Renamed(k, current[i].0);
    }
  }

  // ---------------------------------------------------------------------------------------
  // Whole runs

  /** For a whole run: a `KeyError` names a stored path that an earlier scanned path had
      already taken over in a rename. */
  lemma KeyErrorNeedsEarlierRename(stored: Dict, current: Dict)
    requires DistinctKeys(stored) && DistinctKeys(current)
    ensures var o := Reconcile(stored, current);
      o.KeyError? ==>
        && o.missing in Keys(stored)
        && exists i | 0 <= i < |o.reports| - 1 && i < |current| :: o.reports[i] == Renamed(o.missing, current[i].0)
  {
    var rev := ReverseIndex(stored);
    forall h | h in rev ensures rev[h] in Keys(stored) {
      ReverseIndexLookup(stored, h);
    }
    CrashNeedsEarlierRename(stored, rev, current);
  }

  /** The printed report of a whole run: one line per scanned entry, in scan order, then,
      when no `KeyError` stopped the run, the Deleted lines of the deleted pass over the
      snapshot that is written back. */
  lemma ReportOrder(stored: Dict, current: Dict)
    requires DistinctKeys(stored) && DistinctKeys(current)
    ensures var o := Reconcile(stored, current);
      && (o.Completed? ==>
            && |current| <= |o.reports|
            && (forall i | 0 <= i < |current| :: o.reports[i].path == current[i].0 && !o.reports[i].Deleted?)
            && o.reports[|current|..] == DeletedReports(o.snapshot, current))
      && (o.KeyError? ==>
            && 0 < |o.reports| <= |current|
            && (forall i | 0 <= i < |o.reports| :: o.reports[i].path == current[i].0 && !o.reports[i].Deleted?)
            && o.reports[|o.reports| - 1] == Renamed(o.missing, current[|o.reports| - 1].0))
  {
    ScanReportsFollowScan(stored, ReverseIndex(stored), current);
  }

  /** The snapshot written back differs from the stored one only by the rename moves: same
      size, same multiset of digests, keys drawn from the stored and the scanned paths,
      and the stored snapshot itself when nothing was renamed. */
  lemma WrittenSnapshotMoves(stored: Dict, current: Dict)
    requires DistinctKeys(stored) && DistinctKeys(current)
    ensures var o := Reconcile(stored, current);
      o.Completed? ==>
        && |o.snapshot| == |stored|
        && multiset(Values(o.snapshot)) == multiset(Values(stored))
        && (forall k | k in Keys(o.snapshot) :: k in Keys(stored) || k in Keys(current))
        && ((forall rep | rep in o.reports :: !rep.Renamed?) ==> o.snapshot == stored)
  {
    var rev := ReverseIndex(stored);
    var s := ScanAll(stored, rev, current);
    ScanOnlyMoves(stored, rev, current);
    if s.Running? {
      var o := Reconcile(stored, current);
      assert o.reports == s.reports + DeletedReports(s.stored, current);
      forall rep | rep in s.reports ensures rep in o.reports { }
    }
  }

  /** What the written snapshot lacks: a modified file's new digest is not written, a new
      file is not inserted, and a path reported Deleted is not removed. */
  lemma WrittenSnapshotUnchanged(stored: Dict, current: Dict)
    requires DistinctKeys(stored) && DistinctKeys(current)
    ensures var o := Reconcile(stored, current);
      o.Completed? ==>
        && (forall i | 0 <= i < |current| && i < |o.reports| && o.reports[i].New? ::
              current[i].0 !in Keys(o.snapshot))
        && (forall i | 0 <= i < |current| && i < |o.reports| && o.reports[i].Invalid? ::
              current[i] !in o.snapshot)
        && (forall p | Deleted(p) in o.reports :: p in Keys(o.snapshot))
  {
    var rev := ReverseIndex(stored);
    var s := ScanAll(stored, rev, current);
    ScanReportCount(stored, rev, current);
    ScanLeavesNewOut(stored, rev, current);
    ScanLeavesInvalidOut(stored, rev, current);
    ScanReportPaths(stored, rev, current);
    if s.Running? {
      var o := Reconcile(stored, current);
      var deleted := DeletedReports(s.stored, current);
      DeletedPass(s.stored, current);
      assert o.reports == s.reports + deleted;
      forall i | 0 <= i < |current| && i < |o.reports| ensures o.reports[i] == s.reports[i] { }
      forall p | Deleted(p) in o.reports ensures p in Keys(o.snapshot) {
        assert Deleted(p) !in s.reports;
      }
    }
  }

  /** A path is reported Deleted exactly when it is a key of the written snapshot, the scan
      has no such path, and no scanned digest equals the digest stored under it. */
  lemma DeletedExactly(stored: Dict, current: Dict)
    requires DistinctKeys(stored) && DistinctKeys(current)
    ensures var o := Reconcile(stored, current);
      o.Completed? ==>
        && (forall p | Deleted(p) in o.reports :: p in Keys(o.snapshot) && p !in Keys(current))
        && (forall i | 0 <= i < |o.snapshot| ::
              Deleted(o.snapshot[i].0) in o.reports <==>
                o.snapshot[i].0 !in Keys(current) && o.snapshot[i].1 !in Values(current))
  {
    var rev := ReverseIndex(stored);
    var s := ScanAll(stored, rev, current);
    ScanReportsFollowScan(stored, rev, current);
    if s.Running? {
      var o := Reconcile(stored, current);
      var deleted := DeletedReports(s.stored, current);
      DeletedPass(s.stored, current);
      assert o.reports == s.reports + deleted;
      forall p ensures Deleted(p) in o.reports <==> Deleted(p) in deleted {
        assert Deleted(p) !in s.reports;
      }
    }
  }

  /** No path is reported both renamed and deleted: neither the target of a rename (a
      scanned path) nor the path it was renamed from. */
  lemma RenamedNeverDeleted(stored: Dict, current: Dict)
    requires DistinctKeys(stored) && DistinctKeys(current)
    ensures var o := Reconcile(stored, current);
      o.Completed? ==> forall rep | rep in o.reports && rep.Renamed? ::
        Deleted(rep.path) !in o.reports && Deleted(rep.oldPath) !in o.reports
  {
    var rev := ReverseIndex(stored);
    var s := ScanAll(stored, rev, current);
    ScanReportsFollowScan(stored, rev, current);
    RenamedAwayStaysAway(stored, rev, current);
    if s.Running? {
      var o := Reconcile(stored, current);
      var deleted := DeletedReports(s.stored, current);
      DeletedPass(s.stored, current);
      assert o.reports == s.reports + deleted;
      forall rep | rep in o.reports && rep.Renamed?
        ensures Deleted(rep.path) !in o.reports && Deleted(rep.oldPath) !in o.reports
      {
        assert rep !in deleted;
        var i :| 0 <= i < |s.reports| && s.reports[i] == rep;
        assert Keys(current)[i] == rep.path;
        assert Deleted(rep.path) !in s.reports && Deleted(rep.oldPath) !in s.reports;
      }
    }
  }

  // ---------------------------------------------------------------------------------------
  // Special inputs

  /** A scanned entry already stored under its path with the same digest is Valid and
      changes nothing. */
  lemma ClassifyStoredEntry(stored: Dict, rev: map<Digest, Path>, path: Path, hash: Digest)
    requires DistinctKeys(stored) && (path, hash) in stored
    ensures Classify(stored, rev, path, hash) == Step(Valid(path), Some(stored))
  {
    var k :| 0 <= k < |stored| && stored[k] == (path, hash);
    assert Keys(stored)[k] == path;
  }

  /** A scanned entry whose path is not stored and whose digest is not in the reverse index
      is New and changes nothing. */
  lemma ClassifyUnrelatedEntry(stored: Dict, rev: map<Digest, Path>, path: Path, hash: Digest)
    requires DistinctKeys(stored) && path !in Keys(stored) && hash !in rev
    ensures Classify(stored, rev, path, hash) == Step(New(path), Some(stored))
  {
  }

  /** The Valid lines of a scan whose every entry is already stored. */
  function AllValid(current: Dict): (r: seq<Report>)
    ensures |r| == |current| && forall i | 0 <= i < |current| :: r[i] == Valid(current[i].0)
  {
    seq(|current|, i requires 0 <= i < |current| => Valid(current[i].0))
  }

  /** When every scanned (path, digest) pair is already in the snapshot, the scanning loop
      reports every entry Valid and leaves the snapshot as it is. */
  lemma {:induction false} ScanOfStoredEntries(stored: Dict, rev: map<Digest, Path>, current: Dict)
    requires DistinctKeys(stored)
    requires forall i | 0 <= i < |current| :: current[i] in stored
    ensures ScanAll(stored, rev, current) == Running(stored, AllValid(current))
    decreases |current|
  {
    if current != [] {
      var n := |current| - 1;
      PrefixEntriesStored(stored, current, n);
      ScanOfStoredEntries(stored, rev, current[..n]);
      ClassifyStoredEntry(stored, rev, current[n].0, current[n].1);
      AllValidSnoc(current);
    }
  }

  /** Every entry of a prefix of `current` is an entry of `current`'s, so stored as well. */
  lemma PrefixEntriesStored(stored: Dict, current: Dict, n: nat)
    requires n <= |current| && forall i | 0 <= i < |current| :: current[i] in stored
    ensures forall i | 0 <= i < n :: current[..n][i] in stored
  {
    forall i | 0 <= i < n ensures current[..n][i] in stored {
      assert current[..n][i] == current[i];
    }
  }

  /** `AllValid` of a scan is that of its prefix followed by the line of its last entry. */
  lemma AllValidSnoc(current: Dict)
    requires current != []
    ensures AllValid(current) == AllValid(current[..|current| - 1]) + [Valid(current[|current| - 1].0)]
  {
    assert forall i | 0 <= i < |current| - 1 :: current[..|current| - 1][i] == current[i];
  }

  /** The deleted pass reports nothing when every path of the snapshot is scanned. */
  lemma NothingDeletedWhenAllScanned(snapshot: Dict, current: Dict)
    requires DistinctKeys(snapshot)
    requires forall i | 0 <= i < |snapshot| :: snapshot[i].0 in Keys(current)
    ensures DeletedReports(snapshot, current) == []
  {
    var r := DeletedReports(snapshot, current);
    DeletedPass(snapshot, current);
    if r != [] {
      assert r[0] in r;
      var i := IndexOf(snapshot, r[0].path);
      assert false;
    }
  }

  /** Verifying an unchanged directory, whose scan equals the stored snapshot, reports
      every file Valid, nothing Deleted, and writes the snapshot back unchanged. */
  lemma UnchangedDirectory(stored: Dict)
    requires DistinctKeys(stored)
    ensures Reconcile(stored, stored) == Completed(AllValid(stored), stored)
  {
    forall i | 0 <= i < |stored| ensures stored[i] in stored && stored[i].0 in Keys(stored) {
      assert Keys(stored)[i] == stored[i].0;
    }
    ScanOfStoredEntries(stored, ReverseIndex(stored), stored);
    NothingDeletedWhenAllScanned(stored, stored);
    assert AllValid(stored) + [] == AllValid(stored);
  }

  /** The New lines of a scan that shares nothing with the snapshot. */
  function AllNew(current: Dict): (r: seq<Report>)
    ensures |r| == |current| && forall i | 0 <= i < |current| :: r[i] == New(current[i].0)
  {
    seq(|current|, i requires 0 <= i < |current| => New(current[i].0))
  }

  /** The Deleted lines for every path of a snapshot, in its order. */
  function AllDeleted(stored: Dict): (r: seq<Report>)
    ensures |r| == |stored| && forall j | 0 <= j < |stored| :: r[j] == Deleted(stored[j].0)
  {
    seq(|stored|, j requires 0 <= j < |stored| => Deleted(stored[j].0))
  }

  /** The snapshot and the scan share no path and no digest. */
  predicate Disjoint(stored: Dict, current: Dict)
  {
    forall i, j | 0 <= i < |stored| && 0 <= j < |current| ::
      stored[i].0 != current[j].0 && stored[i].1 != current[j].1
  }

  /** A scan of paths the snapshot does not have, with digests the reverse index does not
      have, reports every entry New and leaves the snapshot as it is. */
  lemma {:induction false} ScanOfUnrelatedEntries(stored: Dict, rev: map<Digest, Path>, current: Dict)
    requires DistinctKeys(stored)
    requires forall j | 0 <= j < |current| :: current[j].0 !in Keys(stored) && current[j].1 !in rev
    ensures ScanAll(stored, rev, current) == Running(stored, AllNew(current))
    decreases |current|
  {
    if current != [] {
      var n := |current| - 1;
      forall j | 0 <= j < n ensures current[..n][j].0 !in Keys(stored) && current[..n][j].1 !in rev {
        assert current[..n][j] == current[j];
      }
      ScanOfUnrelatedEntries(stored, rev, current[..n]);
      ClassifyUnrelatedEntry(stored, rev, current[n].0, current[n].1);
      AllNewSnoc(current);
    }
  }

  /** `AllNew` of a scan is that of its prefix followed by the line of its last entry. */
  lemma AllNewSnoc(current: Dict)
    requires current != []
    ensures AllNew(current) == AllNew(current[..|current| - 1]) + [New(current[|current| - 1].0)]
  {
    assert forall i | 0 <= i < |current| - 1 :: current[..|current| - 1][i] == current[i];
  }

  /** The deleted pass over a snapshot that shares no path and no digest with the scan
      reports every path of the snapshot, in its order. */
  lemma {:induction false} DeletedPassOfUnrelatedEntries(stored: Dict, current: Dict)
    requires DistinctKeys(stored) && Disjoint(stored, current)
    ensures DeletedReports(stored, current) == AllDeleted(stored)
    decreases |stored|
  {
    if stored != [] {
      var n := |stored| - 1;
      assert Disjoint(stored[..n], current) by {
        forall i | 0 <= i < n ensures stored[..n][i] == stored[i] { }
      }
      DeletedPassOfUnrelatedEntries(stored[..n], current);
      assert stored[n].0 !in Keys(current) && stored[n].1 !in Values(current) by {
        forall j | 0 <= j < |current| ensures Keys(current)[j] != stored[n].0 && Values(current)[j] != stored[n].1 { }
      }
      assert AllDeleted(stored) == AllDeleted(stored[..n]) + [Deleted(stored[n].0)];
    }
  }

  /** When the snapshot and the scan share no path and no digest, every scanned path is
      reported New, then every stored path Deleted in snapshot order, and the snapshot is
      written back unchanged. */
  lemma DisjointInputs(stored: Dict, current: Dict)
    requires DistinctKeys(stored) && DistinctKeys(current) && Disjoint(stored, current)
    ensures Reconcile(stored, current) == Completed(AllNew(current) + AllDeleted(stored), stored)
  {
    var rev := ReverseIndex(stored);
    forall j | 0 <= j < |current| ensures current[j].0 !in Keys(stored) && current[j].1 !in rev {
      assert forall i | 0 <= i < |stored| :: Keys(stored)[i] != current[j].0 && Values(stored)[i] != current[j].1;
    }
    ScanOfUnrelatedEntries(stored, rev, current);
    DeletedPassOfUnrelatedEntries(stored, current);
  }
}
