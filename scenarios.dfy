/** Small runs of the reconciler, worked out in full. Each pins down what the code does on
    one input. */
module ReconcilerScenarios {
  import opened Dicts
  import opened Reconciler
  import opened ReconcilerProperties

  /** Scanning one more entry, stated on `pre + [e]` so that concrete scans unfold entry by
      entry. */
  lemma ScanSnoc(stored: Dict, rev: map<Digest, Path>, pre: Dict, e: (Path, Digest))
    requires DistinctKeys(stored)
    ensures var s := ScanAll(stored, rev, pre);
      s.Crashed? ==> ScanAll(stored, rev, pre + [e]) == s
    ensures var s := ScanAll(stored, rev, pre);
      s.Running? ==>
        var st := Classify(s.stored, rev, e.0, e.1);
        ScanAll(stored, rev, pre + [e]) ==
          if st.next.None? then Crashed(s.reports + [st.report], st.report.oldPath)
          else Running(st.next.value, s.reports + [st.report])
  {
    assert (pre + [e])[..|pre|] == pre;
  }

  /** Scanning one more entry after a running prefix, when that entry's step is known. */
  lemma ScanSnocRunning(stored: Dict, rev: map<Digest, Path>, pre: Dict, e: (Path, Digest),
                        data: Dict, reports: seq<Report>, report: Report, next: Dict)
    requires DistinctKeys(stored)
    requires ScanAll(stored, rev, pre) == Running(data, reports)
    requires DistinctKeys(data) && Classify(data, rev, e.0, e.1) == Step(report, Some(next))
    ensures ScanAll(stored, rev, pre + [e]) == Running(next, reports + [report])
  {
    ScanSnoc(stored, rev, pre, e);
  }

  /** A run whose scanning loop finishes and whose deleted pass reports nothing. */
  lemma ReconcileQuietRun(stored: Dict, current: Dict, snapshot: Dict, reports: seq<Report>)
    requires DistinctKeys(stored) && DistinctKeys(current)
    requires ScanAll(stored, ReverseIndex(stored), current) == Running(snapshot, reports)
    requires DeletedReports(snapshot, current) == []
    ensures Reconcile(stored, current) == Completed(reports, snapshot)
  {
    assert reports + [] == reports;
  }

  /** A three-entry dict with three different paths. */
  lemma DistinctKeysOfThree(p: Path, h: Digest, q: Path, g: Digest, r: Path, f: Digest)
    requires p != q && p != r && q != r
    ensures DistinctKeys([(p, h), (q, g), (r, f)])
  {
  }

  /** The reverse index of a one-entry snapshot. */
  lemma ReverseIndexOfOne(p: Path, h: Digest)
    ensures ReverseIndex([(p, h)]) == map[h := p]
  {
    assert [(p, h)][..0] == [];
  }

  /** The reverse index of a two-entry snapshot: the second path wins a shared digest. */
  lemma ReverseIndexOfTwo(p: Path, h: Digest, q: Path, g: Digest)
    requires p != q
    ensures ReverseIndex([(p, h), (q, g)]) == map[h := p][g := q]
  {
    assert [(p, h), (q, g)][..1] == [(p, h)];
    ReverseIndexOfOne(p, h);
  }

  /** A file moved under a new name: reported Renamed, and the snapshot entry moves with it. */
  lemma RenameDetected()
    ensures Reconcile([("a", "h1")], [("b", "h1")]) == Completed([Renamed("a", "b")], [("b", "h1")])
  {
    var current := [("b", "h1")];
    ReverseIndexOfOne("a", "h1");
    FirstClaimantRenames();
    assert Keys(current) == ["b"];
    NothingDeletedWhenAllScanned(current, current);
    ReconcileQuietRun([("a", "h1")], current, current, [Renamed("a", "b")]);
  }

  /** Two new paths with the digest of one stored path: the first takes it over, and the
      reverse index, never updated, sends the second to `pop` the path already gone. */
  lemma SecondClaimantCrashes()
    ensures Reconcile([("a", "h1")], [("b", "h1"), ("c", "h1")])
         == KeyError([Renamed("a", "b"), Renamed("a", "c")], "a")
  {
    var stored, current := [("a", "h1")], [("b", "h1"), ("c", "h1")];
    var rev := map["h1" := "a"];
    var moved := [("b", "h1")];
    ReverseIndexOfOne("a", "h1");
    FirstClaimantRenames();
    ScanSnoc(stored, rev, moved, ("c", "h1"));
    assert moved + [("c", "h1")] == current;
    assert Keys(moved) == ["b"];
    assert Classify(moved, rev, "c", "h1") == Step(Renamed("a", "c"), None);
  }

  /** The scanning loop of `SecondClaimantCrashes` after its first entry: `b` takes over the
      entry of `a`. */
  lemma FirstClaimantRenames()
    ensures ScanAll([("a", "h1")], map["h1" := "a"], [("b", "h1")]) == Running([("b", "h1")], [Renamed("a", "b")])
  {
    var stored := [("a", "h1")];
    FirstClaimantStep();
    ScanSnocRunning(stored, map["h1" := "a"], [], ("b", "h1"), stored, [], Renamed("a", "b"), [("b", "h1")]);
    assert [] + [("b", "h1")] == [("b", "h1")] && [] + [Renamed("a", "b")] == [Renamed("a", "b")];
  }

  /** The step of `FirstClaimantRenames`: `a` is popped and `b` appended. */
  lemma FirstClaimantStep()
    ensures Classify([("a", "h1")], map["h1" := "a"], "b", "h1") == Step(Renamed("a", "b"), Some([("b", "h1")]))
  {
    var stored := [("a", "h1")];
    assert Keys(stored) == ["a"];
    assert IndexOf(stored, "a") == 0;
    assert stored[..0] + stored[1..] == [];
    assert Pop(stored, "a") == Some(("h1", []));
    assert Keys([]) == [];
    assert SetItem([], "b", "h1") == [("b", "h1")];
  }

  /** Two stored paths share a digest and one scanned path carries it: the later stored path
      (last wins in the reverse index) is the one renamed; the other is neither reported
      Deleted nor removed from the snapshot. */
  lemma AmbiguousRenameKeepsOther()
    ensures Reconcile([("a", "h1"), ("b", "h1")], [("c", "h1")])
         == Completed([Renamed("b", "c")], [("a", "h1"), ("c", "h1")])
  {
    ReverseIndexOfTwo("a", "h1", "b", "h1");
    assert map["h1" := "a"]["h1" := "b"] == map["h1" := "b"];
    AmbiguousRenameScan();
    AmbiguousRenameNothingDeleted();
    ReconcileQuietRun([("a", "h1"), ("b", "h1")], [("c", "h1")], [("a", "h1"), ("c", "h1")], [Renamed("b", "c")]);
  }

  /** The scanning loop of `AmbiguousRenameKeepsOther`. */
  lemma AmbiguousRenameScan()
    ensures ScanAll([("a", "h1"), ("b", "h1")], map["h1" := "b"], [("c", "h1")])
         == Running([("a", "h1"), ("c", "h1")], [Renamed("b", "c")])
  {
    AmbiguousRenameStep();
    ScanSnoc([("a", "h1"), ("b", "h1")], map["h1" := "b"], [], ("c", "h1"));
    assert [] + [("c", "h1")] == [("c", "h1")];
  }

  /** The rename step of `AmbiguousRenameKeepsOther`: `b` is popped and `c` appended. */
  lemma AmbiguousRenameStep()
    ensures Classify([("a", "h1"), ("b", "h1")], map["h1" := "b"], "c", "h1")
         == Step(Renamed("b", "c"), Some([("a", "h1"), ("c", "h1")]))
  {
    var stored := [("a", "h1"), ("b", "h1")];
    assert Keys(stored) == ["a", "b"];
    assert IndexOf(stored, "b") == 1;
    assert stored[..1] + stored[2..] == [("a", "h1")];
    assert Pop(stored, "b") == Some(("h1", [("a", "h1")]));
    assert Keys([("a", "h1")]) == ["a"];
    assert SetItem([("a", "h1")], "c", "h1") == [("a", "h1"), ("c", "h1")];
  }

  /** The deleted pass of `AmbiguousRenameKeepsOther`: `a` shares its digest with the scan. */
  lemma AmbiguousRenameNothingDeleted()
    ensures DeletedReports([("a", "h1"), ("c", "h1")], [("c", "h1")]) == []
  {
    var snapshot, current := [("a", "h1"), ("c", "h1")], [("c", "h1")];
    assert Keys(current) == ["c"] && Values(current) == ["h1"];
    assert snapshot[..1] == [("a", "h1")] && snapshot[..1][..0] == [];
  }

  /** An emptied directory: the stored path is reported Deleted but stays in the snapshot. */
  lemma EmptyScanKeepsSnapshot()
    ensures Reconcile([("x", "h1")], []) == Completed([Deleted("x")], [("x", "h1")])
  {
    var stored: Dict := [("x", "h1")];
    assert stored[..0] == [];
    assert Keys([]) == [] && Values([]) == [];
    assert DeletedReports(stored, []) == [Deleted("x")];
  }

  /** A modified file: reported Invalid, and its new digest is not written back, so the next
      run against the written snapshot reports it Invalid again. */
  lemma ModifiedReportedAgain()
    ensures Reconcile([("x", "h1")], [("x", "h2")]) == Completed([Invalid("x")], [("x", "h1")])
  {
    var stored, current := [("x", "h1")], [("x", "h2")];
    var rev := map["h1" := "x"];
    ReverseIndexOfOne("x", "h1");
    assert Keys(stored) == ["x"] && Keys(current) == ["x"];
    assert Classify(stored, rev, "x", "h2") == Step(Invalid("x"), Some(stored));
    ScanSnocRunning(stored, rev, [], ("x", "h2"), stored, [], Invalid("x"), stored);
    assert [] + [("x", "h2")] == current && [] + [Invalid("x")] == [Invalid("x")];
    NothingDeletedWhenAllScanned(stored, current);
    ReconcileQuietRun(stored, current, stored, [Invalid("x")]);
  }

  /** A new file: reported New, and not inserted into the snapshot. */
  lemma NewFileNotInserted()
    ensures Reconcile([("a", "h1")], [("a", "h1"), ("n", "h9")])
         == Completed([Valid("a"), New("n")], [("a", "h1")])
  {
    var stored, current := [("a", "h1")], [("a", "h1"), ("n", "h9")];
    ReverseIndexOfOne("a", "h1");
    NewFileScan();
    assert Keys(current) == ["a", "n"];
    NothingDeletedWhenAllScanned(stored, current);
    ReconcileQuietRun(stored, current, stored, [Valid("a"), New("n")]);
  }

  /** The scanning loop of `NewFileNotInserted`. */
  lemma NewFileScan()
    ensures ScanAll([("a", "h1")], map["h1" := "a"], [("a", "h1"), ("n", "h9")])
         == Running([("a", "h1")], [Valid("a"), New("n")])
  {
    var stored, rev := [("a", "h1")], map["h1" := "a"];
    assert Keys(stored) == ["a"];
    ClassifyStoredEntry(stored, rev, "a", "h1");
    ClassifyUnrelatedEntry(stored, rev, "n", "h9");
    ScanSnocRunning(stored, rev, [], ("a", "h1"), stored, [], Valid("a"), stored);
    assert [] + [("a", "h1")] == [("a", "h1")] && [] + [Valid("a")] == [Valid("a")];
    ScanSnocRunning(stored, rev, [("a", "h1")], ("n", "h9"), stored, [Valid("a")], New("n"), stored);
    assert [("a", "h1")] + [("n", "h9")] == [("a", "h1"), ("n", "h9")];
  }

  /** A rename pops `a` before `a` itself is scanned; the membership test then sees the
      snapshot as changed, so `a` is no longer compared with its stored digest but taken as
      the target of a second rename, from `b`. */
  lemma PoppedPathReclassified()
    ensures Reconcile([("a", "h1"), ("b", "h2")], [("c", "h1"), ("a", "h2")])
         == Completed([Renamed("a", "c"), Renamed("b", "a")], [("c", "h1"), ("a", "h2")])
  {
    var stored, current := [("a", "h1"), ("b", "h2")], [("c", "h1"), ("a", "h2")];
    ReverseIndexOfTwo("a", "h1", "b", "h2");
    PoppedPathScan();
    PoppedPathNothingDeleted();
    ReconcileQuietRun(stored, current, current, [Renamed("a", "c"), Renamed("b", "a")]);
  }

  /** The deleted pass of `PoppedPathReclassified`: both paths of the snapshot are scanned. */
  lemma PoppedPathNothingDeleted()
    ensures DeletedReports([("c", "h1"), ("a", "h2")], [("c", "h1"), ("a", "h2")]) == []
  {
    var current := [("c", "h1"), ("a", "h2")];
    assert Keys(current) == ["c", "a"];
    assert current[..1] == [("c", "h1")] && current[..1][..0] == [];
  }

  /** The scanning loop of `PoppedPathReclassified`. */
  lemma PoppedPathScan()
    ensures ScanAll([("a", "h1"), ("b", "h2")], map["h1" := "a"]["h2" := "b"], [("c", "h1"), ("a", "h2")])
         == Running([("c", "h1"), ("a", "h2")], [Renamed("a", "c"), Renamed("b", "a")])
  {
    var stored, rev := [("a", "h1"), ("b", "h2")], map["h1" := "a"]["h2" := "b"];
    PoppedPathFirstScan();
    PoppedPathSecondRename();
    assert DistinctKeys([("b", "h2"), ("c", "h1")]);
    ScanSnocRunning(stored, rev, [("c", "h1")], ("a", "h2"),
      [("b", "h2"), ("c", "h1")], [Renamed("a", "c")], Renamed("b", "a"), [("c", "h1"), ("a", "h2")]);
    assert [("c", "h1")] + [("a", "h2")] == [("c", "h1"), ("a", "h2")];
    assert [Renamed("a", "c")] + [Renamed("b", "a")] == [Renamed("a", "c"), Renamed("b", "a")];
  }

  /** The scanning loop of `PoppedPathReclassified` after its first entry. */
  lemma PoppedPathFirstScan()
    ensures ScanAll([("a", "h1"), ("b", "h2")], map["h1" := "a"]["h2" := "b"], [("c", "h1")])
         == Running([("b", "h2"), ("c", "h1")], [Renamed("a", "c")])
  {
    var stored, rev := [("a", "h1"), ("b", "h2")], map["h1" := "a"]["h2" := "b"];
    PoppedPathFirstRename();
    ScanSnocRunning(stored, rev, [], ("c", "h1"), stored, [], Renamed("a", "c"), [("b", "h2"), ("c", "h1")]);
    assert [] + [("c", "h1")] == [("c", "h1")];
    assert [] + [Renamed("a", "c")] == [Renamed("a", "c")];
  }

  /** The first step of `PoppedPathReclassified`: `c` takes over the entry of `a`. */
  lemma PoppedPathFirstRename()
    ensures Classify([("a", "h1"), ("b", "h2")], map["h1" := "a"]["h2" := "b"], "c", "h1")
         == Step(Renamed("a", "c"), Some([("b", "h2"), ("c", "h1")]))
  {
    var stored := [("a", "h1"), ("b", "h2")];
    assert Keys(stored) == ["a", "b"];
    assert IndexOf(stored, "a") == 0;
    assert stored[..0] + stored[1..] == [("b", "h2")];
    assert Pop(stored, "a") == Some(("h1", [("b", "h2")]));
    assert Keys([("b", "h2")]) == ["b"];
    assert SetItem([("b", "h2")], "c", "h1") == [("b", "h2"), ("c", "h1")];
  }

  /** The second step of `PoppedPathReclassified`: `a`, no longer a key, takes over `b`. */
  lemma PoppedPathSecondRename()
    ensures Classify([("b", "h2"), ("c", "h1")], map["h1" := "a"]["h2" := "b"], "a", "h2")
         == Step(Renamed("b", "a"), Some([("c", "h1"), ("a", "h2")]))
  {
    var moved := [("b", "h2"), ("c", "h1")];
    assert Keys(moved) == ["b", "c"];
    assert IndexOf(moved, "b") == 0;
    assert moved[..0] + moved[1..] == [("c", "h1")];
    assert Pop(moved, "b") == Some(("h2", [("c", "h1")]));
    assert Keys([("c", "h1")]) == ["c"];
    assert SetItem([("c", "h1")], "a", "h2") == [("c", "h1"), ("a", "h2")];
  }

  /** A digest whose indexed path was renamed away is not always fatal: once `a` has been
      brought back by the second rename, a third path `d` carrying `a`'s old digest pops the
      new `a` and takes over its entry, so the run completes and the written snapshot pairs
      `d` with the digest `b` had. */
  lemma DigestCarriedToOtherPath()
    ensures Reconcile([("a", "h1"), ("b", "h2")], [("c", "h1"), ("a", "h2"), ("d", "h1")])
         == Completed([Renamed("a", "c"), Renamed("b", "a"), Renamed("a", "d")], [("c", "h1"), ("d", "h2")])
  {
    var stored, current := [("a", "h1"), ("b", "h2")], [("c", "h1"), ("a", "h2"), ("d", "h1")];
    DistinctKeysOfThree("c", "h1", "a", "h2", "d", "h1");
    ReverseIndexOfTwo("a", "h1", "b", "h2");
    DigestCarriedScan();
    DigestCarriedNothingDeleted();
    ReconcileQuietRun(stored, current, [("c", "h1"), ("d", "h2")],
      [Renamed("a", "c"), Renamed("b", "a"), Renamed("a", "d")]);
  }

  /** The deleted pass of `DigestCarriedToOtherPath`: both paths left in the snapshot are
      scanned. */
  lemma DigestCarriedNothingDeleted()
    ensures DeletedReports([("c", "h1"), ("d", "h2")], [("c", "h1"), ("a", "h2"), ("d", "h1")]) == []
  {
    var current := [("c", "h1"), ("a", "h2"), ("d", "h1")];
    assert Keys(current) == ["c", "a", "d"];
    var snapshot := [("c", "h1"), ("d", "h2")];
    assert snapshot[..1] == [("c", "h1")] && snapshot[..1][..0] == [];
  }

  /** The scanning loop of `DigestCarriedToOtherPath`. */
  lemma DigestCarriedScan()
    ensures ScanAll([("a", "h1"), ("b", "h2")], map["h1" := "a"]["h2" := "b"], [("c", "h1"), ("a", "h2"), ("d", "h1")])
         == Running([("c", "h1"), ("d", "h2")], [Renamed("a", "c"), Renamed("b", "a"), Renamed("a", "d")])
  {
    var stored, rev := [("a", "h1"), ("b", "h2")], map["h1" := "a"]["h2" := "b"];
    PoppedPathScan();
    DigestCarriedThirdRename();
    assert DistinctKeys([("c", "h1"), ("a", "h2")]);
    ScanSnocRunning(stored, rev, [("c", "h1"), ("a", "h2")], ("d", "h1"),
      [("c", "h1"), ("a", "h2")], [Renamed("a", "c"), Renamed("b", "a")], Renamed("a", "d"), [("c", "h1"), ("d", "h2")]);
    assert [("c", "h1"), ("a", "h2")] + [("d", "h1")] == [("c", "h1"), ("a", "h2"), ("d", "h1")];
    assert [Renamed("a", "c"), Renamed("b", "a")] + [Renamed("a", "d")]
        == [Renamed("a", "c"), Renamed("b", "a"), Renamed("a", "d")];
  }

  /** The third step of `DigestCarriedToOtherPath`: the reverse index still sends `h1` to
      `a`, which is a key again, so `d` takes over the entry `a` now holds. */
  lemma DigestCarriedThirdRename()
    ensures Classify([("c", "h1"), ("a", "h2")], map["h1" := "a"]["h2" := "b"], "d", "h1")
         == Step(Renamed("a", "d"), Some([("c", "h1"), ("d", "h2")]))
  {
    var moved := [("c", "h1"), ("a", "h2")];
    assert Keys(moved) == ["c", "a"];
    assert IndexOf(moved, "a") == 1;
    assert moved[..1] + moved[2..] == [("c", "h1")];
    assert Pop(moved, "a") == Some(("h2", [("c", "h1")]));
    assert Keys([("c", "h1")]) == ["c"];
    assert SetItem([("c", "h1")], "d", "h2") == [("c", "h1"), ("d", "h2")];
  }
}
