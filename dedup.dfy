// The main functions of src/dedup.c and dedup.c: every path argument is
// scanned into one registry, the registry is sorted, and the sorted records
// are walked block by block while the lost space is summed. Option parsing,
// the configuration file and the printed text are not modelled: the flags
// are parameters fixed for the whole run.
module Dedup {
  import opened Common
  import opened Tree
  import opened Digests
  import opened Sorting
  import opened Blocks
  import opened FileList

  /** A path argument as the file system shows it: the path the scan starts
      from (realpath of the argument in src/dedup.c, the argument itself in
      dedup.c), whether opendir succeeds on it, and its entries. */
  datatype Root = Root(path: CString, readable: bool, entries: seq<Entry>)

  /** What scanning the roots one after the other accepts. */
  function ScanAll(p: Policy, roots: seq<Root>): (r: seq<Found>)
    ensures forall f :: f in r ==> f.stat.size >= p.minSize
  {
    if roots == [] then []
    else
      var r := roots[|roots| - 1];
      ScanAll(p, roots[..|roots| - 1]) + ScanDir(p, r.path, r.readable, r.entries)
  }

  /** Every accepted file reaches the threshold and lies below one of the
      roots. */
  lemma {:induction false} ScanAllUnderRoots(p: Policy, roots: seq<Root>)
    ensures forall f :: f in ScanAll(p, roots) ==>
              f.stat.size >= p.minSize && exists k :: 0 <= k < |roots| && Under(roots[k].path, f.path)
  {
    if roots != [] {
      var init, r := roots[..|roots| - 1], roots[|roots| - 1];
      ScanAllUnderRoots(p, init);
      forall f | f in ScanAll(p, roots)
        ensures f.stat.size >= p.minSize && exists k :: 0 <= k < |roots| && Under(roots[k].path, f.path)
      {
        if f in ScanAll(p, init) {
          var k :| 0 <= k < |init| && Under(init[k].path, f.path);
          assert roots[k] == init[k];
        } else {
          assert f in ScanDir(p, r.path, r.readable, r.entries);
          assert Under(roots[|roots| - 1].path, f.path);
        }
      }
    }
  }

  /** An ignored or unreadable root contributes nothing: the result is that
      of the other roots. */
  lemma {:induction false} SkippedRootAddsNothing(p: Policy, roots: seq<Root>, k: nat)
    requires k < |roots| && (p.ignored(roots[k].path) || !roots[k].readable)
    ensures ScanAll(p, roots) == ScanAll(p, roots[..k] + roots[k + 1..])
    decreases |roots|
  {
    var init := roots[..|roots| - 1];
    if k == |roots| - 1 {
      assert roots[..k] + roots[k + 1..] == init;
    } else {
      SkippedRootAddsNothing(p, init, k);
      var rest := roots[..k] + roots[k + 1..];
      assert rest[..|rest| - 1] == init[..k] + init[k + 1..];
      assert rest[|rest| - 1] == roots[|roots| - 1];
    }
  }

  lemma ScanAllPrefix(p: Policy, roots: seq<Root>, k: nat)
    requires k < |roots|
    ensures ScanAll(p, roots[..k + 1]) == ScanAll(p, roots[..k]) + ScanDir(p, roots[k].path, roots[k].readable, roots[k].entries)
  {
    assert roots[..k + 1][..k] == roots[..k];
  }

  /** The argument loop after k roots: each count is the number of files
      accepted below its root, and the registry gained what those roots
      yield, in order. */
  ghost predicate Scanned(fl: FileList, api: Registration, p: Policy, roots: seq<Root>, k: nat,
                          counts: seq<nat>, s0: seq<FileId>, listing0: seq<Found>)
    reads fl, fl.files, fl.names
  {
    && k <= |roots| && |counts| == k
    && fl.Resolved()
    && (forall m :: 0 <= m < k ==> counts[m] == |ScanDir(p, roots[m].path, roots[m].readable, roots[m].entries)|)
    && Extended(api, s0, fl.files[..fl.length])
    && fl.Listing() == listing0 + ScanAll(p, roots[..k])
  }

  /** One iteration of the argument loop: scan root k and keep its count. */
  method ScanNext(fl: FileList, api: Registration, p: Policy, roots: seq<Root>, k: nat, counts: seq<nat>,
                  ghost s0: seq<FileId>, ghost listing0: seq<Found>) returns (counts': seq<nat>)
    requires fl.Valid() && k < |roots| && Scanned(fl, api, p, roots, k, counts, s0, listing0)
    requires api == ByPath ==> p.minSize == MINIMAL_FILE_SIZE
    modifies fl.Repr
    ensures fl.Valid() && fresh(fl.Repr - old(fl.Repr)) && fl.names == old(fl.names)
    ensures Scanned(fl, api, p, roots, k + 1, counts', s0, listing0)
  {
    var r := roots[k];
    ghost var s1 := fl.files[..fl.length];
    var n := fl.Scan(api, p, r.path, r.readable, r.entries);
    ExtendedTransitive(api, s0, s1, fl.files[..fl.length]);
    ScanAllPrefix(p, roots, k);
    counts' := counts + [n];
  }

  /** The argument loop: each root is scanned in turn and its count kept.
      The registry gains exactly what the roots yield, in order, and each
      count is the number of files accepted below that root. */
  method ScanRoots(fl: FileList, api: Registration, p: Policy, roots: seq<Root>) returns (counts: seq<nat>)
    requires fl.Valid() && fl.Resolved()
    requires api == ByPath ==> p.minSize == MINIMAL_FILE_SIZE
    modifies fl.Repr
    ensures fl.Valid() && fl.Resolved() && fresh(fl.Repr - old(fl.Repr)) && fl.names == old(fl.names)
    ensures |counts| == |roots|
    ensures forall k :: 0 <= k < |roots| ==>
              counts[k] == |ScanDir(p, roots[k].path, roots[k].readable, roots[k].entries)|
    ensures fl.length == old(fl.length) + |ScanAll(p, roots)|
    ensures Extended(api, old(fl.files[..fl.length]), fl.files[..fl.length])
    ensures fl.Listing() == old(fl.Listing()) + ScanAll(p, roots)
  {
    counts := [];
    ghost var s0, listing0 := fl.files[..fl.length], fl.Listing();
    assert fl.files[..fl.length][..|s0|] == s0;
    var k := 0;
    while k < |roots|
      invariant fl.Valid() && fresh(fl.Repr - old(fl.Repr)) && fl.names == old(fl.names)
      invariant Scanned(fl, api, p, roots, k, counts, s0, listing0)
    {
      counts := ScanNext(fl, api, p, roots, k, counts, s0, listing0);
      k := k + 1;
    }
    assert roots[..k] == roots;
    assert |fl.Listing()| == fl.length;
  }

  /** Scan, sort and group: the part both main functions share. The
      registry ends up holding the sort pass of the records the scans
      registered, each record possibly with more digests evaluated by the
      grouping pass, none of which changes a similarity; the totals are
      those of the grouping pass over the sort pass. */
  method Pipeline(fl: FileList, api: Registration, p: Policy, rev: Revision, acc: Accounting,
                  roots: seq<Root>, safe: bool, disk: Disk, sha1: Hash)
      returns (counts: seq<nat>, lost: nat, reclaimable: nat, shown: seq<Run>, ghost scanned: seq<FileId>)
    requires fl.Valid() && fl.Resolved() && fl.length == 0
    requires api == ByPath ==> p.minSize == MINIMAL_FILE_SIZE
    modifies fl.Repr
    ensures fl.Valid() && fl.Resolved() && fresh(fl.Repr - old(fl.Repr)) && fl.names == old(fl.names)
    ensures |counts| == |roots|
    ensures forall k :: 0 <= k < |roots| ==>
              counts[k] == |ScanDir(p, roots[k].path, roots[k].readable, roots[k].entries)|
    ensures Resolves(scanned, fl.names.Names) && ListingOf(scanned, fl.names.Names) == ScanAll(p, roots)
    ensures forall i :: 0 <= i < |scanned| ==> FreshRecord(api, scanned[i])
    ensures fl.length == |scanned|
    ensures ExtendsEach(SortPass(rev, safe, scanned, fl.names.Names, disk, sha1), fl.files[..fl.length])
    ensures IdentitiesOf(fl.files[..fl.length]) == IdentitiesOf(SortPass(rev, safe, scanned, fl.names.Names, disk, sha1))
    ensures fl.length > 0 ==>
              Adjacent(fl.files[..fl.length], safe) == Adjacent(SortPass(rev, safe, scanned, fl.names.Names, disk, sha1), safe)
    ensures fl.length == 0 ==> lost == 0 && reclaimable == 0 && shown == []
    ensures fl.length > 0 ==>
              var sorted := SortPass(rev, safe, scanned, fl.names.Names, disk, sha1);
              var ids := IdentitiesOf(sorted);
              var sims := Adjacent(sorted, safe);
              && lost == TotalLost(acc, ids, sims)
              && reclaimable == TotalCorrected(acc, ids, sims)
              && shown == TotalPrinted(acc, ids, sims)
  {
    counts := ScanRoots(fl, api, p, roots);
    scanned := fl.files[..fl.length];
    lost, reclaimable, shown := SortAndReport(fl, rev, acc, safe, disk, sha1);
  }

  /** file_list_sort followed by the grouping pass: the grouping pass sees
      the sort pass of the registry, and the getters it calls change no
      similarity the sort pass settled. */
  method SortAndReport(fl: FileList, rev: Revision, acc: Accounting, safe: bool, disk: Disk, sha1: Hash)
      returns (lost: nat, reclaimable: nat, shown: seq<Run>)
    requires fl.Valid() && fl.Resolved()
    modifies fl.files
    ensures fl.Valid() && fl.Resolved()
    ensures ExtendsEach(SortPass(rev, safe, old(fl.files[..fl.length]), fl.names.Names, disk, sha1), fl.files[..fl.length])
    ensures IdentitiesOf(fl.files[..fl.length]) == IdentitiesOf(SortPass(rev, safe, old(fl.files[..fl.length]), fl.names.Names, disk, sha1))
    ensures fl.length > 0 ==>
              Adjacent(fl.files[..fl.length], safe) == Adjacent(SortPass(rev, safe, old(fl.files[..fl.length]), fl.names.Names, disk, sha1), safe)
    ensures fl.length == 0 ==> lost == 0 && reclaimable == 0 && shown == []
    ensures fl.length > 0 ==>
              var sorted := SortPass(rev, safe, old(fl.files[..fl.length]), fl.names.Names, disk, sha1);
              var ids := IdentitiesOf(sorted);
              var sims := Adjacent(sorted, safe);
              && lost == TotalLost(acc, ids, sims)
              && reclaimable == TotalCorrected(acc, ids, sims)
              && shown == TotalPrinted(acc, ids, sims)
  {
    ghost var s0 := fl.files[..fl.length];
    fl.Sort(rev, safe, disk, sha1);
    ghost var sorted := fl.files[..];
    ghost var sp := SortPass(rev, safe, s0, fl.names.Names, disk, sha1);
    SortPassSettled(rev, safe, s0, fl.names.Names, disk, sha1);
    lost, reclaimable, shown := fl.ReportSimilar(acc, rev, safe, disk, sha1);
    ExtendsEachKeepsIdentities(sorted, fl.files[..], fl.length);
    ExtendsEachPrefix(sorted, fl.files[..], fl.length);
    assert sorted[..fl.length] == sp;
    assert fl.files[..][..fl.length] == fl.files[..fl.length];
    if fl.length > 0 {
      SettledAdjacentStable(sp, fl.files[..fl.length], safe);
    }
  }

  /** main of src/dedup.c: the arena and registry of src/, files registered
      through the header API, the 1024-byte threshold, the configured
      ignore patterns, hard-link aware accounting. The digest getters the
      header API binds to are those of dedup.c. */
  method RunModular(roots: seq<Root>, ignored: CString -> bool, showHidden: bool, safe: bool, disk: Disk, sha1: Hash)
      returns (fl: FileList, counts: seq<nat>, lost: nat, reclaimable: nat, shown: seq<Run>, ghost scanned: seq<FileId>)
    ensures fl.Valid() && fl.Resolved()
    ensures |counts| == |roots|
    ensures forall k :: 0 <= k < |roots| ==>
              counts[k] == |ScanDir(Policy(MINIMAL_FILE_SIZE, ignored, showHidden), roots[k].path, roots[k].readable, roots[k].entries)|
    ensures Resolves(scanned, fl.names.Names)
    ensures ListingOf(scanned, fl.names.Names) == ScanAll(Policy(MINIMAL_FILE_SIZE, ignored, showHidden), roots)
    ensures fl.length == |scanned|
    ensures ExtendsEach(SortPass(Legacy, safe, scanned, fl.names.Names, disk, sha1), fl.files[..fl.length])
    ensures fl.length > 0 ==>
              Adjacent(fl.files[..fl.length], safe) == Adjacent(SortPass(Legacy, safe, scanned, fl.names.Names, disk, sha1), safe)
    ensures fl.length == 0 ==> lost == 0 && reclaimable == 0 && shown == []
    ensures fl.length > 0 ==>
              var sorted := SortPass(Legacy, safe, scanned, fl.names.Names, disk, sha1);
              var ids := IdentitiesOf(sorted);
              var sims := Adjacent(sorted, safe);
              && lost == TotalLost(HardLinkAware, ids, sims)
              && reclaimable == TotalCorrected(HardLinkAware, ids, sims)
              && shown == TotalPrinted(HardLinkAware, ids, sims)
  {
    fl := new FileList.InitModular();
    counts, lost, reclaimable, shown, scanned :=
      Pipeline(fl, BySlot, Policy(MINIMAL_FILE_SIZE, ignored, showHidden), Legacy, HardLinkAware, roots, safe, disk, sha1);
  }

  /** dedup.c reads no configuration: no path is ever ignored. */
  const NoPatterns: CString -> bool := _ => false

  /** main of dedup.c: its own arena and registry, no ignore patterns, only
      empty files dropped, per-record accounting. */
  method RunLegacy(roots: seq<Root>, showHidden: bool, safe: bool, disk: Disk, sha1: Hash)
      returns (fl: FileList, counts: seq<nat>, lost: nat, shown: seq<Run>, ghost scanned: seq<FileId>)
    ensures fl.Valid() && fl.Resolved()
    ensures |counts| == |roots|
    ensures forall k :: 0 <= k < |roots| ==>
              counts[k] == |ScanDir(Policy(1, NoPatterns, showHidden), roots[k].path, roots[k].readable, roots[k].entries)|
    ensures Resolves(scanned, fl.names.Names)
    ensures ListingOf(scanned, fl.names.Names) == ScanAll(Policy(1, NoPatterns, showHidden), roots)
    ensures fl.length == |scanned|
    ensures ExtendsEach(SortPass(Legacy, safe, scanned, fl.names.Names, disk, sha1), fl.files[..fl.length])
    ensures fl.length > 0 ==>
              Adjacent(fl.files[..fl.length], safe) == Adjacent(SortPass(Legacy, safe, scanned, fl.names.Names, disk, sha1), safe)
    ensures fl.length == 0 ==> lost == 0 && shown == []
    ensures fl.length > 0 ==>
              var sorted := SortPass(Legacy, safe, scanned, fl.names.Names, disk, sha1);
              var ids := IdentitiesOf(sorted);
              var sims := Adjacent(sorted, safe);
              && lost == TotalLost(PerRecord, ids, sims)
              && shown == TotalPrinted(PerRecord, ids, sims)
  {
    fl := new FileList.InitLegacy();
    var reclaimable;
    counts, lost, reclaimable, shown, scanned :=
      Pipeline(fl, BySlot, Policy(1, NoPatterns, showHidden), Legacy, PerRecord, roots, safe, disk, sha1);
  }
}
