// file_list_sort, stated on values. qsort calls compare_files, which
// evaluates digests as a side effect, in an order only the C library knows.
// The model splits that in two: first every digest a comparison of the
// record could consult is evaluated (Settle), then the settled records are
// sorted under compare_files, which by then reads nothing new (SortRecords).
module Sorting {
  import opened Common
  import opened Digests
  import opened Order

  /** Another record has the same size and a different inode, so a
      comparison of this record may get past the hard-link test. */
  predicate HasTwin(s: seq<FileId>, i: nat)
    requires i < |s|
  {
    exists j :: 0 <= j < |s| && j != i && s[j].size == s[i].size && !SameInode(s[j], s[i])
  }

  /** The getters a comparison of f may call, in compare_files' order:
      start, end above PARTIAL_CONTENT_SIZE, full in safe mode above twice
      that. */
  function SettleRecord(rev: Revision, safe: bool, f: FileId, file: Option<OpenFile>, sha1: Hash, twin: bool): FileId
  {
    if !twin then f
    else
      var a := Step(rev, Start, f, file, sha1);
      var b := if UsesEnd(a) then Step(rev, End, a, file, sha1) else a;
      if UsesFull(b, safe) then Step(rev, Full, b, file, sha1) else b
  }

  /** The settling of one record only adds to it; a record without a twin
      is left alone, and a record with one has exactly the tiers a
      comparison of it may consult settled, the others as they were. */
  lemma SettleRecordExtends(rev: Revision, safe: bool, f: FileId, file: Option<OpenFile>, sha1: Hash, twin: bool)
    ensures Extends(f, SettleRecord(rev, safe, f, file, sha1, twin))
    ensures !twin ==> SettleRecord(rev, safe, f, file, sha1, twin) == f
    ensures twin ==> var g := SettleRecord(rev, safe, f, file, sha1, twin);
                     Settled(g, Start) && (UsesEnd(g) ==> Settled(g, End)) && (UsesFull(g, safe) ==> Settled(g, Full))
    ensures !UsesEnd(f) ==> TierKept(f, SettleRecord(rev, safe, f, file, sha1, twin), End)
    ensures !UsesFull(f, safe) ==> TierKept(f, SettleRecord(rev, safe, f, file, sha1, twin), Full)
  {
    if twin {
      var a := Step(rev, Start, f, file, sha1);
      StepSettles(rev, Start, f, file, sha1);
      var b := if UsesEnd(a) then Step(rev, End, a, file, sha1) else a;
      if UsesEnd(a) {
        StepSettles(rev, End, a, file, sha1);
      }
      if UsesFull(b, safe) {
        StepSettles(rev, Full, b, file, sha1);
      }
    }
  }

  /** Every path handle of the records resolves. */
  predicate Resolves(s: seq<FileId>, paths: map<nat, CString>)
  {
    forall i :: 0 <= i < |s| ==> s[i].name in paths
  }

  /** The records after the settling pass, each read from the file system
      under its own path. */
  function Settle(rev: Revision, safe: bool, s: seq<FileId>, paths: map<nat, CString>, disk: Disk, sha1: Hash): (r: seq<FileId>)
    requires Resolves(s, paths)
    ensures |r| == |s|
  {
    seq(|s|, i requires 0 <= i < |s| => SettleRecord(rev, safe, s[i], disk(paths[s[i].name]), sha1, HasTwin(s, i)))
  }

  /** After the settling pass no comparison between two records needs a
      digest that is not settled, and every record extends the one before. */
  lemma SettleSettlesPairs(rev: Revision, safe: bool, s: seq<FileId>, paths: map<nat, CString>, disk: Disk, sha1: Hash)
    requires Resolves(s, paths)
    ensures forall i :: 0 <= i < |s| ==> Extends(s[i], Settle(rev, safe, s, paths, disk, sha1)[i])
    ensures forall i, j :: 0 <= i < |s| && 0 <= j < |s| ==>
              PairSettled(Settle(rev, safe, s, paths, disk, sha1)[i], Settle(rev, safe, s, paths, disk, sha1)[j], safe)
  {
    var r := Settle(rev, safe, s, paths, disk, sha1);
    forall i | 0 <= i < |s|
      ensures Extends(s[i], r[i])
      ensures HasTwin(s, i) ==> Settled(r[i], Start) && (UsesEnd(r[i]) ==> Settled(r[i], End)) && (UsesFull(r[i], safe) ==> Settled(r[i], Full))
    {
      SettleRecordExtends(rev, safe, s[i], disk(paths[s[i].name]), sha1, HasTwin(s, i));
    }
    forall i, j | 0 <= i < |s| && 0 <= j < |s|
      ensures PairSettled(r[i], r[j], safe)
    {
      if r[i].size == r[j].size && !SameInode(r[i], r[j]) {
        assert HasTwin(s, i) && HasTwin(s, j);
      }
    }
  }

  /** The records paired with their paths. */
  function NamedOf(s: seq<FileId>, paths: map<nat, CString>): (r: seq<Named>)
    requires Resolves(s, paths)
    ensures |r| == |s| && forall i :: 0 <= i < |s| ==> r[i] == Named(s[i], paths[s[i].name])
  {
    seq(|s|, i requires 0 <= i < |s| => Named(s[i], paths[s[i].name]))
  }

  function FilesOf(s: seq<Named>): (r: seq<FileId>)
    ensures |r| == |s| && forall i :: 0 <= i < |s| ==> r[i] == s[i].file
  {
    if s == [] then [] else [s[0].file] + FilesOf(s[1..])
  }

  /** qsort with compare_files: the records in the order of SortNamed. */
  function SortRecords(s: seq<FileId>, paths: map<nat, CString>, safe: bool): seq<FileId>
    requires Resolves(s, paths)
  {
    FilesOf(SortNamed(NamedOf(s, paths), safe))
  }

  lemma {:induction false} FilesOfInsert(x: Named, s: seq<Named>, safe: bool)
    ensures multiset(FilesOf(Insert(x, s, safe))) == multiset(FilesOf(s)) + multiset{x.file}
  {
    if s != [] && Cmp(x, s[0], safe) > 0 {
      FilesOfInsert(x, s[1..], safe);
      assert FilesOf(s) == [s[0].file] + FilesOf(s[1..]);
    }
  }

  lemma {:induction false} FilesOfSortNamed(s: seq<Named>, safe: bool)
    ensures multiset(FilesOf(SortNamed(s, safe))) == multiset(FilesOf(s))
  {
    if s != [] {
      FilesOfSortNamed(s[1..], safe);
      FilesOfInsert(s[0], SortNamed(s[1..], safe), safe);
      assert FilesOf(s) == [s[0].file] + FilesOf(s[1..]);
    }
  }

  /** Every record paired with the path its handle designates. */
  predicate PathsAgree(s: seq<Named>, paths: map<nat, CString>)
  {
    forall x :: x in s ==> x.file.name in paths && x.path == paths[x.file.name]
  }

  /** Sorted under compare_files, each record compared under its path. */
  predicate SortedFiles(s: seq<FileId>, paths: map<nat, CString>, safe: bool)
    requires Resolves(s, paths)
  {
    forall i, j :: 0 <= i < j < |s| ==> CompareFiles(s[i], s[j], paths[s[i].name], paths[s[j].name], safe) <= 0
  }

  /** Hard links that have a twin agree on the digests a comparison may
      read. Those are the only records whose digests compare_files reads:
      every other record compares by size or, with its hard links, by
      name. */
  predicate TwinsCoherent(s: seq<FileId>, safe: bool)
  {
    forall i, j :: 0 <= i < |s| && 0 <= j < |s| && HasTwin(s, i) ==> Coherent(s[i], s[j], safe)
  }

  /** A record without a twin is lone, so the coherence of twins is all a
      comparison needs. */
  lemma TwinsCoherentLinksAgree(s: seq<FileId>, safe: bool)
    requires TwinsCoherent(s, safe)
    ensures LinksAgree(s, safe)
  {
    forall i, j | 0 <= i < |s| && 0 <= j < |s|
      ensures Lone(s, s[i]) || Coherent(s[i], s[j], safe)
    {
      if !HasTwin(s, i) {
        forall k | 0 <= k < |s| && s[k].size == s[i].size
          ensures SameInode(s[k], s[i])
        {
          if k != i {
            assert !(k != i && s[k].size == s[i].size && !SameInode(s[k], s[i]));
          }
        }
      }
    }
  }

  lemma SortedPathsAgree(s: seq<FileId>, paths: map<nat, CString>, safe: bool)
    requires Resolves(s, paths)
    ensures PathsAgree(SortNamed(NamedOf(s, paths), safe), paths)
  {
    var ns := NamedOf(s, paths);
    forall x | x in SortNamed(ns, safe) ensures x.file.name in paths && x.path == paths[x.file.name] {
      assert x in multiset(SortNamed(ns, safe));
      assert x in multiset(ns);
    }
  }

  /** The sort returns a permutation of its input. */
  lemma SortRecordsPermutes(s: seq<FileId>, paths: map<nat, CString>, safe: bool)
    requires Resolves(s, paths)
    ensures multiset(SortRecords(s, paths, safe)) == multiset(s)
    ensures Resolves(SortRecords(s, paths, safe), paths)
  {
    var ns := NamedOf(s, paths);
    FilesOfSortNamed(ns, safe);
    assert FilesOf(ns) == s;
    SortedPathsAgree(s, paths, safe);
    var sorted := SortNamed(ns, safe);
    forall i | 0 <= i < |sorted| ensures FilesOf(sorted)[i].name in paths {
      assert sorted[i] in sorted;
    }
  }

  /** When hard links with a twin carry the same digests, the result of the
      sort is sorted under compare_files. */
  lemma SortRecordsSorted(s: seq<FileId>, paths: map<nat, CString>, safe: bool)
    requires Resolves(s, paths) && TwinsCoherent(s, safe)
    ensures Resolves(SortRecords(s, paths, safe), paths)
    ensures SortedFiles(SortRecords(s, paths, safe), paths, safe)
  {
    SortRecordsPermutes(s, paths, safe);
    var ns := NamedOf(s, paths);
    var sorted := SortNamed(ns, safe);
    var r := FilesOf(sorted);
    SortedPathsAgree(s, paths, safe);
    TwinsCoherentLinksAgree(s, safe);
    assert Within(ns, s) by {
      forall y | y in ns ensures y.file in s {
        var k :| 0 <= k < |ns| && ns[k] == y;
        assert y.file == s[k];
      }
    }
    SortNamedSorted(s, ns, safe);
    forall i, j | 0 <= i < j < |r|
      ensures CompareFiles(r[i], r[j], paths[r[i].name], paths[r[j].name], safe) <= 0
    {
      assert sorted[i] in sorted && sorted[j] in sorted;
      assert Cmp(sorted[i], sorted[j], safe) <= 0;
    }
  }

  /** Sorting a registry already sorted under compare_files changes
      nothing; in particular the sort of a sorted result is that result. */
  lemma SortRecordsIdempotent(s: seq<FileId>, paths: map<nat, CString>, safe: bool)
    requires Resolves(s, paths) && SortedFiles(s, paths, safe)
    ensures SortRecords(s, paths, safe) == s
  {
    var ns := NamedOf(s, paths);
    assert Sorted(ns, safe);
    SortNamedIdempotent(ns, safe);
    assert FilesOf(ns) == s;
  }

  lemma SortRecordsTwice(s: seq<FileId>, paths: map<nat, CString>, safe: bool)
    requires Resolves(s, paths) && TwinsCoherent(s, safe)
    ensures Resolves(SortRecords(s, paths, safe), paths)
    ensures SortRecords(SortRecords(s, paths, safe), paths, safe) == SortRecords(s, paths, safe)
  {
    SortRecordsSorted(s, paths, safe);
    SortRecordsIdempotent(SortRecords(s, paths, safe), paths, safe);
  }

  /** Settling changes neither paths, sizes nor inodes, so what resolves
      before resolves after. */
  lemma SettleKeepsFiles(rev: Revision, safe: bool, s: seq<FileId>, paths: map<nat, CString>, disk: Disk, sha1: Hash)
    requires Resolves(s, paths)
    ensures Resolves(Settle(rev, safe, s, paths, disk, sha1), paths)
    ensures IdentitiesOf(Settle(rev, safe, s, paths, disk, sha1)) == IdentitiesOf(s)
  {
    SettleSettlesPairs(rev, safe, s, paths, disk, sha1);
  }

  /** Whether a record has a twin depends only on the sizes and inodes. */
  lemma HasTwinByIdentity(s: seq<FileId>, t: seq<FileId>, i: nat)
    requires |s| == |t| && i < |s|
    requires forall m :: 0 <= m < |s| ==> IdentityOf(s[m]) == IdentityOf(t[m])
    ensures HasTwin(s, i) == HasTwin(t, i)
  {
    assert IdentityOf(s[i]) == IdentityOf(t[i]);
    if HasTwin(s, i) {
      var j :| 0 <= j < |s| && j != i && s[j].size == s[i].size && !SameInode(s[j], s[i]);
      assert IdentityOf(s[j]) == IdentityOf(t[j]);
    }
    if HasTwin(t, i) {
      var j :| 0 <= j < |t| && j != i && t[j].size == t[i].size && !SameInode(t[j], t[i]);
      assert IdentityOf(s[j]) == IdentityOf(t[j]);
    }
  }

  /** What file_list_sort leaves: the settled records in compare_files
      order. */
  function SortPass(rev: Revision, safe: bool, s: seq<FileId>, paths: map<nat, CString>, disk: Disk, sha1: Hash): seq<FileId>
    requires Resolves(s, paths)
  {
    SettleKeepsFiles(rev, safe, s, paths, disk, sha1);
    SortRecords(Settle(rev, safe, s, paths, disk, sha1), paths, safe)
  }

  /** The sort pass returns the settled records, rearranged: the same
      files, every handle still resolving. */
  lemma SortPassPermutes(rev: Revision, safe: bool, s: seq<FileId>, paths: map<nat, CString>, disk: Disk, sha1: Hash)
    requires Resolves(s, paths)
    ensures multiset(SortPass(rev, safe, s, paths, disk, sha1)) == multiset(Settle(rev, safe, s, paths, disk, sha1))
    ensures Resolves(SortPass(rev, safe, s, paths, disk, sha1), paths)
  {
    SettleKeepsFiles(rev, safe, s, paths, disk, sha1);
    SortRecordsPermutes(Settle(rev, safe, s, paths, disk, sha1), paths, safe);
  }

  /** When hard links with a twin carry the same digests after settling,
      the sort pass leaves the registry sorted under compare_files. */
  lemma SortPassSorted(rev: Revision, safe: bool, s: seq<FileId>, paths: map<nat, CString>, disk: Disk, sha1: Hash)
    requires Resolves(s, paths)
    requires TwinsCoherent(Settle(rev, safe, s, paths, disk, sha1), safe)
    ensures Resolves(SortPass(rev, safe, s, paths, disk, sha1), paths)
    ensures SortedFiles(SortPass(rev, safe, s, paths, disk, sha1), paths, safe)
  {
    SettleKeepsFiles(rev, safe, s, paths, disk, sha1);
    SortRecordsSorted(Settle(rev, safe, s, paths, disk, sha1), paths, safe);
  }

  /** The sorted registry holds the settled records, so no comparison
      between two of its records needs a digest that is not settled. */
  lemma SortPassSettled(rev: Revision, safe: bool, s: seq<FileId>, paths: map<nat, CString>, disk: Disk, sha1: Hash)
    requires Resolves(s, paths)
    ensures var r := SortPass(rev, safe, s, paths, disk, sha1);
            forall i, j :: 0 <= i < |r| && 0 <= j < |r| ==> PairSettled(r[i], r[j], safe)
  {
    var st := Settle(rev, safe, s, paths, disk, sha1);
    SettleKeepsFiles(rev, safe, s, paths, disk, sha1);
    SettleSettlesPairs(rev, safe, s, paths, disk, sha1);
    var r := SortPass(rev, safe, s, paths, disk, sha1);
    SortRecordsPermutes(st, paths, safe);
    forall i, j | 0 <= i < |r| && 0 <= j < |r| ensures PairSettled(r[i], r[j], safe) {
      assert r[i] in multiset(st) && r[j] in multiset(st);
      var i' :| 0 <= i' < |st| && st[i'] == r[i];
      var j' :| 0 <= j' < |st| && st[j'] == r[j];
    }
  }

  /** No getter of the record has run yet: how a scan registers it. */
  predicate Unread(f: FileId)
  {
    !f.vanished && !f.startEvaluated && !f.endEvaluated && !f.digestEvaluated
  }

  /** fopen succeeds and the stream can seek. */
  predicate Seekable(file: Option<OpenFile>)
  {
    file.Some? && file.value.seekable
  }

  /** Two unread hard links of one size, settled through the same file, end
      with the same consulted digests: both hash the same bytes, and where a
      getter fails both keep what they carried, which then must agree. */
  lemma SettleLinksAgree(rev: Revision, safe: bool, f: FileId, g: FileId, file: Option<OpenFile>, sha1: Hash)
    requires SameInode(f, g) && f.size == g.size && Unread(f) && Unread(g)
    requires Seekable(file) || SameDigests(f, g, safe)
    ensures SameDigests(SettleRecord(rev, safe, f, file, sha1, true), SettleRecord(rev, safe, g, file, sha1, true), safe)
  {
  }

  /** Settling an unread registry from a disk on which hard links open the
      same file leaves its twins coherent, provided each twin's file opens
      and seeks or its hard links already carry the same digests. */
  lemma SettleTwinsCoherent(rev: Revision, safe: bool, s: seq<FileId>, paths: map<nat, CString>, disk: Disk, sha1: Hash)
    requires Resolves(s, paths)
    requires forall i :: 0 <= i < |s| ==> Unread(s[i])
    requires forall i, j :: 0 <= i < |s| && 0 <= j < |s| && HasTwin(s, i) && SameInode(s[i], s[j]) && s[i].size == s[j].size ==>
               disk(paths[s[i].name]) == disk(paths[s[j].name]) && (Seekable(disk(paths[s[i].name])) || SameDigests(s[i], s[j], safe))
    ensures TwinsCoherent(Settle(rev, safe, s, paths, disk, sha1), safe)
  {
    var st := Settle(rev, safe, s, paths, disk, sha1);
    SettleKeepsFiles(rev, safe, s, paths, disk, sha1);
    forall i, j | 0 <= i < |st| && 0 <= j < |st| && HasTwin(st, i)
      ensures Coherent(st[i], st[j], safe)
    {
      assert IdentityOf(st[i]) == IdentityOf(s[i]) && IdentityOf(st[j]) == IdentityOf(s[j]);
      HasTwinByIdentity(s, st, i);
      if SameInode(s[i], s[j]) && s[i].size == s[j].size {
        var k :| 0 <= k < |s| && k != i && s[k].size == s[i].size && !SameInode(s[k], s[i]);
        assert k != j && !SameInode(s[k], s[j]);
        assert HasTwin(s, j);
        SettleLinksAgree(rev, safe, s[i], s[j], disk(paths[s[i].name]), sha1);
      }
    }
  }

  /** A registry in which no record has a twin ends sorted, whatever the
      digests its records carry: every comparison is decided by size or by
      name. */
  lemma NoTwinsSorted(rev: Revision, safe: bool, s: seq<FileId>, paths: map<nat, CString>, disk: Disk, sha1: Hash)
    requires Resolves(s, paths)
    requires forall i :: 0 <= i < |s| ==> !HasTwin(s, i)
    ensures Resolves(SortPass(rev, safe, s, paths, disk, sha1), paths)
    ensures SortedFiles(SortPass(rev, safe, s, paths, disk, sha1), paths, safe)
  {
    var st := Settle(rev, safe, s, paths, disk, sha1);
    SettleKeepsFiles(rev, safe, s, paths, disk, sha1);
    forall i | 0 <= i < |st| ensures !HasTwin(st, i) {
      HasTwinByIdentity(s, st, i);
    }
    SortPassSorted(rev, safe, s, paths, disk, sha1);
  }
}
