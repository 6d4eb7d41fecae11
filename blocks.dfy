// The grouping pass over the sorted registry: the walk that splits it into
// maximal runs of adjacent similar records, and the space each run wastes.
// Everything here is stated over the identities (device, inode, size) of the
// records and the similarity of each adjacent pair, which is all the walk
// and print_block look at.
module Blocks {
  import opened Common

  /** A block of the sorted registry: indices first..last, inclusive. */
  datatype Run = Run(first: nat, last: nat)

  /** Every adjacent pair inside the run is similar. */
  predicate AllSimilar(sims: seq<bool>, run: Run)
    requires run.last <= |sims|
  {
    forall i :: run.first <= i < run.last ==> sims[i]
  }

  /** The blocks the walk visits, for |sims| + 1 records where sims[i] is
      the similarity of records i and i + 1: record i extends the current
      block when it is similar to its predecessor, otherwise it starts a new
      one. */
  function Walk(sims: seq<bool>): (r: seq<Run>)
    ensures |r| >= 1 && r[|r| - 1].first <= r[|r| - 1].last == |sims|
  {
    if sims == [] then [Run(0, 0)]
    else
      var n := |sims|;
      var r := Walk(sims[..n - 1]);
      if sims[n - 1] then r[..|r| - 1] + [Run(r[|r| - 1].first, n)]
      else r + [Run(n, n)]
  }

  /** The runs of the walk are consecutive, cover every index from 0 to
      |sims|, hold only similar neighbours and are separated by dissimilar
      ones: they are the maximal runs of similar records. */
  predicate MaximalRuns(sims: seq<bool>, r: seq<Run>)
  {
    && |r| >= 1 && r[0].first == 0 && r[|r| - 1].last == |sims|
    && (forall k :: 0 <= k < |r| ==> r[k].first <= r[k].last <= |sims|)
    && (forall k :: 0 <= k < |r| - 1 ==> r[k + 1].first == r[k].last + 1)
    && (forall k :: 0 <= k < |r| ==> AllSimilar(sims, r[k]))
    && (forall k :: 0 <= k < |r| - 1 ==> r[k].last < |sims| && !sims[r[k].last])
  }

  lemma SimilarInPrefix(sims: seq<bool>, run: Run)
    requires |sims| >= 1 && run.last <= |sims| - 1 && AllSimilar(sims[..|sims| - 1], run)
    ensures AllSimilar(sims, run)
  {
    forall i | run.first <= i < run.last ensures sims[i] {
      assert sims[..|sims| - 1][i] == sims[i];
    }
  }

  lemma ExtendLastRun(sims: seq<bool>, r: seq<Run>)
    requires |sims| >= 1 && MaximalRuns(sims[..|sims| - 1], r) && sims[|sims| - 1]
    ensures MaximalRuns(sims, r[..|r| - 1] + [Run(r[|r| - 1].first, |sims|)])
  {
    var n, f := |sims|, r[|r| - 1].first;
    var w := r[..|r| - 1] + [Run(f, n)];
    forall k | 0 <= k < |r| - 1 ensures w[k] == r[k] && AllSimilar(sims, w[k]) && !sims[w[k].last] {
      SimilarInPrefix(sims, r[k]);
      assert sims[..n - 1][r[k].last] == sims[r[k].last];
    }
    assert AllSimilar(sims, Run(f, n)) by {
      SimilarInPrefix(sims, r[|r| - 1]);
    }
    assert w[|w| - 1] == Run(f, n);
  }

  lemma StartNewRun(sims: seq<bool>, r: seq<Run>)
    requires |sims| >= 1 && MaximalRuns(sims[..|sims| - 1], r) && !sims[|sims| - 1]
    ensures MaximalRuns(sims, r + [Run(|sims|, |sims|)])
  {
    var n := |sims|;
    var w := r + [Run(n, n)];
    forall k | 0 <= k < |r| ensures w[k] == r[k] && AllSimilar(sims, w[k]) {
      SimilarInPrefix(sims, r[k]);
    }
    forall k | 0 <= k < |r| - 1 ensures !sims[w[k].last] {
      assert sims[..n - 1][r[k].last] == sims[r[k].last];
    }
    assert w[|w| - 1] == Run(n, n);
  }

  lemma {:induction false} WalkMaximal(sims: seq<bool>)
    ensures MaximalRuns(sims, Walk(sims))
    decreases |sims|
  {
    if sims != [] {
      WalkMaximal(sims[..|sims| - 1]);
      if sims[|sims| - 1] {
        ExtendLastRun(sims, Walk(sims[..|sims| - 1]));
      } else {
        StartNewRun(sims, Walk(sims[..|sims| - 1]));
      }
    }
  }

  lemma {:induction false} RunsIncreasing(sims: seq<bool>, k: nat, k': nat)
    requires k < k' < |Walk(sims)|
    ensures Walk(sims)[k].last < Walk(sims)[k'].first
    decreases k' - k
  {
    WalkMaximal(sims);
    if k + 1 < k' {
      RunsIncreasing(sims, k + 1, k');
    }
  }

  /** Every record lies in exactly one block. */
  lemma {:induction false} RunOf(sims: seq<bool>, i: nat) returns (k: nat)
    requires i <= |sims|
    ensures k < |Walk(sims)| && Walk(sims)[k].first <= i <= Walk(sims)[k].last
    ensures forall k' :: 0 <= k' < |Walk(sims)| && Walk(sims)[k'].first <= i <= Walk(sims)[k'].last ==> k' == k
  {
    var r := Walk(sims);
    WalkMaximal(sims);
    k := 0;
    while r[k].last < i
      invariant k < |r| && r[k].first <= i
      invariant k > 0 ==> r[k - 1].last < i
      decreases |r| - k
    {
      k := k + 1;
    }
    forall k' | 0 <= k' < |r| && r[k'].first <= i <= r[k'].last
      ensures k' == k
    {
      if k' + 1 < k {
        RunsIncreasing(sims, k', k - 1);
      } else if k < k' {
        RunsIncreasing(sims, k, k');
      }
    }
  }

  // ---------------------------------------------------------------------
  // Space per block
  // ---------------------------------------------------------------------

  predicate SameNode(x: Identity, y: Identity)
  {
    x.device == y.device && x.inode == y.inode
  }

  /** Some earlier record of the block is the same physical file as x. */
  predicate SeenIn(s: seq<Identity>, x: Identity)
  {
    exists y :: y in s && SameNode(y, x)
  }

  /** Every record of the block is a hard link to its first record. */
  predicate AllOneInode(b: seq<Identity>)
  {
    forall i :: 0 <= i < |b| ==> SameNode(b[i], b[0])
  }

  /** The sizes of the records whose (device, inode) does not occur earlier
      in the block. */
  function NewFileSum(b: seq<Identity>): (r: nat)
    ensures b != [] ==> r >= b[0].size
  {
    if b == [] then 0
    else NewFileSum(b[..|b| - 1]) + (if SeenIn(b[..|b| - 1], b[|b| - 1]) then 0 else b[|b| - 1].size)
  }

  /** How the lost space of a block is counted: src/file_list.c and
      src/dedup.c add the size of every distinct file of a block that does
      not consist of hard links only; dedup.c counts the size once per
      record after the first. */
  datatype Accounting = HardLinkAware | PerRecord

  /** What the accounting adds for one block. */
  function Lost(acc: Accounting, b: seq<Identity>): (l: nat)
    ensures |b| <= 1 ==> l == 0
  {
    match acc
    case HardLinkAware => if |b| == 0 || AllOneInode(b) then 0 else NewFileSum(b)
    case PerRecord => if |b| == 0 then 0 else b[0].size * (|b| - 1)
  }

  /** The lost space of the blocks of the walk. */
  function SumLost(acc: Accounting, ids: seq<Identity>, runs: seq<Run>): nat
    requires forall k :: 0 <= k < |runs| ==> runs[k].first <= runs[k].last < |ids|
  {
    if runs == [] then 0
    else
      var run := runs[|runs| - 1];
      SumLost(acc, ids, runs[..|runs| - 1]) + Lost(acc, ids[run.first..run.last + 1])
  }

  /** The total the grouping pass reports for a registry with these
      identities and adjacent similarities. */
  function TotalLost(acc: Accounting, ids: seq<Identity>, sims: seq<bool>): nat
    requires |ids| == |sims| + 1
  {
    WalkMaximal(sims);
    SumLost(acc, ids, Walk(sims))
  }

  /** The distinct physical files of a block. */
  function Inodes(b: seq<Identity>): set<(nat, nat)>
  {
    if b == [] then {} else Inodes(b[..|b| - 1]) + {(b[|b| - 1].device, b[|b| - 1].inode)}
  }

  lemma {:induction false} SeenInIffInodes(s: seq<Identity>, x: Identity)
    ensures SeenIn(s, x) <==> (x.device, x.inode) in Inodes(s)
    decreases |s|
  {
    if s != [] {
      var p := s[..|s| - 1];
      SeenInIffInodes(p, x);
      assert s == p + [s[|s| - 1]];
      if SeenIn(p, x) {
        var y :| y in p && SameNode(y, x);
        assert y in s;
      }
      if SameNode(s[|s| - 1], x) {
        assert s[|s| - 1] in s;
      }
      if SeenIn(s, x) {
        var y :| y in s && SameNode(y, x);
        if y != s[|s| - 1] {
          assert y in p;
        }
      }
    }
  }

  /** The last record of a block adds a physical file exactly when it is
      not a hard link to an earlier one. */
  lemma InodesLast(b: seq<Identity>)
    requires b != []
    ensures |Inodes(b)| == |Inodes(b[..|b| - 1])| + (if SeenIn(b[..|b| - 1], b[|b| - 1]) then 0 else 1)
  {
    var p, x := b[..|b| - 1], b[|b| - 1];
    SeenInIffInodes(p, x);
    if (x.device, x.inode) in Inodes(p) {
      assert Inodes(b) == Inodes(p);
    }
  }

  /** In a block of files of one size, the hard-link aware sum is that size
      once per distinct physical file. */
  lemma {:induction false} NewFileSumCountsInodes(b: seq<Identity>, size: nat)
    requires forall i :: 0 <= i < |b| ==> b[i].size == size
    ensures NewFileSum(b) == size * |Inodes(b)|
    decreases |b|
  {
    if b != [] {
      var p := b[..|b| - 1];
      NewFileSumCountsInodes(p, size);
      InodesLast(b);
      var n, added := |Inodes(p)|, if SeenIn(p, b[|b| - 1]) then 0 else 1;
      assert NewFileSum(b) == size * n + size * added;
      assert size * n + size * added == size * (n + added);
    }
  }

  /** A block of hard links to one file wastes nothing. */
  lemma HardLinksLoseNothing(b: seq<Identity>)
    requires AllOneInode(b)
    ensures Lost(HardLinkAware, b) == 0
  {
  }

  /** Otherwise the hard-link aware count is the size once per distinct
      file of the block, the first one included. */
  lemma LostCountsDistinctFiles(b: seq<Identity>, size: nat)
    requires forall i :: 0 <= i < |b| ==> b[i].size == size
    requires !AllOneInode(b)
    ensures Lost(HardLinkAware, b) == size * |Inodes(b)|
    ensures |Inodes(b)| >= 2
  {
    NewFileSumCountsInodes(b, size);
    var i :| 0 <= i < |b| && !SameNode(b[i], b[0]);
    InodesOfMembers(b, 0);
    InodesOfMembers(b, i);
    assert {(b[0].device, b[0].inode), (b[i].device, b[i].inode)} <= Inodes(b);
    assert |{(b[0].device, b[0].inode), (b[i].device, b[i].inode)}| == 2;
    SubsetCardinality({(b[0].device, b[0].inode), (b[i].device, b[i].inode)}, Inodes(b));
  }

  lemma {:induction false} InodesOfMembers(b: seq<Identity>, i: nat)
    requires i < |b|
    ensures (b[i].device, b[i].inode) in Inodes(b)
    decreases |b|
  {
    if i < |b| - 1 {
      InodesOfMembers(b[..|b| - 1], i);
    }
  }

  lemma SubsetCardinality<T>(a: set<T>, b: set<T>)
    requires a <= b
    ensures |a| <= |b|
  {
    assert b == a + (b - a);
  }

  /** A single record wastes nothing under either accounting. */
  lemma SingletonLosesNothing(acc: Accounting, x: Identity)
    ensures Lost(acc, [x]) == 0
  {
  }

  // ---------------------------------------------------------------------
  // What the lost space evidently should be
  // ---------------------------------------------------------------------

  /** The space deleting all but one copy of each block would free: every
      distinct file of the block but one. */
  function Reclaimable(b: seq<Identity>): (r: nat)
    ensures r <= Lost(HardLinkAware, b)
  {
    if |b| == 0 || AllOneInode(b) then 0
    else NewFileSum(b) - b[0].size
  }

  /** The reclaimable space of a block of one size is that size once per
      distinct file but one, and hard links alone free nothing. */
  lemma ReclaimableCountsCopies(b: seq<Identity>, size: nat)
    requires b != []
    requires forall i :: 0 <= i < |b| ==> b[i].size == size
    ensures Reclaimable(b) == size * (|Inodes(b)| - 1)
  {
    if AllOneInode(b) {
      forall p | p in Inodes(b) ensures p == (b[0].device, b[0].inode) {
        InodesAreMembers(b, p);
      }
      InodesOfMembers(b, 0);
      assert Inodes(b) == {(b[0].device, b[0].inode)};
    } else {
      LostCountsDistinctFiles(b, size);
    }
  }

  lemma {:induction false} InodesAreMembers(b: seq<Identity>, p: (nat, nat))
    requires p in Inodes(b)
    ensures exists i :: 0 <= i < |b| && p == (b[i].device, b[i].inode)
    decreases |b|
  {
    if p != (b[|b| - 1].device, b[|b| - 1].inode) {
      InodesAreMembers(b[..|b| - 1], p);
      var i :| 0 <= i < |b| - 1 && p == (b[..|b| - 1][i].device, b[..|b| - 1][i].inode);
      assert b[..|b| - 1][i] == b[i];
    }
  }

  predicate DistinctInodes(b: seq<Identity>)
  {
    forall i, j :: 0 <= i < j < |b| ==> !SameNode(b[i], b[j])
  }

  lemma {:induction false} DistinctInodesCount(b: seq<Identity>)
    requires DistinctInodes(b)
    ensures |Inodes(b)| == |b|
    decreases |b|
  {
    if b != [] {
      var p := b[..|b| - 1];
      DistinctInodesCount(p);
      if (b[|b| - 1].device, b[|b| - 1].inode) in Inodes(p) {
        InodesAreMembers(p, (b[|b| - 1].device, b[|b| - 1].inode));
      }
    }
  }

  /** Without hard links the reclaimable space is what dedup.c reports. */
  lemma ReclaimableIsPerRecordWithoutHardLinks(b: seq<Identity>, size: nat)
    requires b != [] && DistinctInodes(b)
    requires forall i :: 0 <= i < |b| ==> b[i].size == size
    ensures Reclaimable(b) == Lost(PerRecord, b)
  {
    ReclaimableCountsCopies(b, size);
    DistinctInodesCount(b);
  }

  /** Two distinct files of 5000 bytes with the same content: print_block
      of src/file_list.c and src/dedup.c reports 10000 bytes, the space that
      can actually be freed is 5000, which is also what dedup.c reports. */
  lemma TwoCopiesReportedTwice()
    ensures var b := [Identity(1, 10, 5000), Identity(1, 11, 5000)];
            && Lost(HardLinkAware, b) == 10000
            && Reclaimable(b) == 5000
            && Lost(PerRecord, b) == 5000
  {
    var b := [Identity(1, 10, 5000), Identity(1, 11, 5000)];
    assert b[..1] == [b[0]] && b[..1][..0] == [];
    assert !SeenIn([], b[0]);
    assert !SeenIn(b[..1], b[1]);
    assert NewFileSum(b[..1]) == 5000;
    assert !AllOneInode(b) by {
      assert !SameNode(b[1], b[0]);
    }
  }

  /** Two hard links to one 5000-byte file: nothing is lost, but dedup.c,
      which counts records rather than files, reports 5000. */
  lemma HardLinksPerRecord()
    ensures var b := [Identity(1, 10, 5000), Identity(1, 10, 5000)];
            && Lost(HardLinkAware, b) == 0
            && Reclaimable(b) == 0
            && Lost(PerRecord, b) == 5000
  {
  }

  // ---------------------------------------------------------------------
  // What the grouping pass prints and adds up, run by run
  // ---------------------------------------------------------------------

  /** print_block prints a block that is not made of hard links only
      (src/file_list.c, src/dedup.c), or one of more than one record
      (dedup.c). */
  predicate ShownBlock(acc: Accounting, b: seq<Identity>)
  {
    match acc
    case HardLinkAware => b != [] && !AllOneInode(b)
    case PerRecord => |b| > 1
  }

  /** A printed block holds at least two records, and a block that is not
      printed adds nothing to the lost space. */
  lemma ShownBlockHasCopies(acc: Accounting, b: seq<Identity>)
    ensures ShownBlock(acc, b) ==> |b| >= 2
    ensures !ShownBlock(acc, b) ==> Lost(acc, b) == 0
    ensures acc == HardLinkAware && ShownBlock(acc, b) ==> |Inodes(b)| >= 2
  {
    if acc == HardLinkAware && ShownBlock(acc, b) {
      var i :| 0 <= i < |b| && !SameNode(b[i], b[0]);
      assert i != 0;
      InodesOfMembers(b, 0);
      InodesOfMembers(b, i);
      assert {(b[0].device, b[0].inode), (b[i].device, b[i].inode)} <= Inodes(b);
      SubsetCardinality({(b[0].device, b[0].inode), (b[i].device, b[i].inode)}, Inodes(b));
    }
  }

  /** The runs that are printed, in order. */
  function Printed(acc: Accounting, ids: seq<Identity>, runs: seq<Run>): seq<Run>
    requires forall k :: 0 <= k < |runs| ==> runs[k].first <= runs[k].last < |ids|
  {
    if runs == [] then []
    else
      var run := runs[|runs| - 1];
      Printed(acc, ids, runs[..|runs| - 1]) + (if ShownBlock(acc, ids[run.first..run.last + 1]) then [run] else [])
  }

  /** A run is printed exactly when it is one of the runs and its block is
      shown. */
  lemma {:induction false} PrintedIffShown(acc: Accounting, ids: seq<Identity>, runs: seq<Run>, run: Run)
    requires forall k :: 0 <= k < |runs| ==> runs[k].first <= runs[k].last < |ids|
    ensures run in Printed(acc, ids, runs) <==> run in runs && ShownBlock(acc, ids[run.first..run.last + 1])
    decreases |runs|
  {
    if runs != [] {
      var p := runs[..|runs| - 1];
      PrintedIffShown(acc, ids, p, run);
      assert runs == p + [runs[|runs| - 1]];
    }
  }

  /** What deleting the redundant copies of one block frees: the corrected
      count for src/file_list.c and src/dedup.c, and dedup.c's own count,
      which already leaves the first record out. */
  function Corrected(acc: Accounting, b: seq<Identity>): nat
  {
    match acc
    case HardLinkAware => Reclaimable(b)
    case PerRecord => Lost(PerRecord, b)
  }

  function SumCorrected(acc: Accounting, ids: seq<Identity>, runs: seq<Run>): nat
    requires forall k :: 0 <= k < |runs| ==> runs[k].first <= runs[k].last < |ids|
  {
    if runs == [] then 0
    else
      var run := runs[|runs| - 1];
      SumCorrected(acc, ids, runs[..|runs| - 1]) + Corrected(acc, ids[run.first..run.last + 1])
  }

  /** The corrected total of a registry with these identities and adjacent
      similarities. */
  function TotalCorrected(acc: Accounting, ids: seq<Identity>, sims: seq<bool>): nat
    requires |ids| == |sims| + 1
  {
    WalkMaximal(sims);
    SumCorrected(acc, ids, Walk(sims))
  }

  /** The blocks printed for a registry with these identities and adjacent
      similarities. */
  function TotalPrinted(acc: Accounting, ids: seq<Identity>, sims: seq<bool>): seq<Run>
    requires |ids| == |sims| + 1
  {
    WalkMaximal(sims);
    Printed(acc, ids, Walk(sims))
  }

  /** The corrected total never exceeds what is reported. */
  lemma {:induction false} CorrectedBelowLost(acc: Accounting, ids: seq<Identity>, runs: seq<Run>)
    requires forall k :: 0 <= k < |runs| ==> runs[k].first <= runs[k].last < |ids|
    ensures SumCorrected(acc, ids, runs) <= SumLost(acc, ids, runs)
    decreases |runs|
  {
    if runs != [] {
      CorrectedBelowLost(acc, ids, runs[..|runs| - 1]);
    }
  }

  /** Adding one run to the walk adds its block to each sum and to the
      printed runs. */
  lemma AppendRun(acc: Accounting, ids: seq<Identity>, runs: seq<Run>, run: Run)
    requires forall k :: 0 <= k < |runs| ==> runs[k].first <= runs[k].last < |ids|
    requires run.first <= run.last < |ids|
    ensures var b := ids[run.first..run.last + 1];
            && SumLost(acc, ids, runs + [run]) == SumLost(acc, ids, runs) + Lost(acc, b)
            && SumCorrected(acc, ids, runs + [run]) == SumCorrected(acc, ids, runs) + Corrected(acc, b)
            && Printed(acc, ids, runs + [run]) == Printed(acc, ids, runs) + (if ShownBlock(acc, b) then [run] else [])
  {
    assert (runs + [run])[..|runs|] == runs;
  }

  /** One more similarity either extends the last run of the walk or opens
      a new one. */
  lemma WalkAppend(sims: seq<bool>, sim: bool)
    ensures var w := Walk(sims);
            Walk(sims + [sim]) == if sim then w[..|w| - 1] + [Run(w[|w| - 1].first, |sims| + 1)]
                                  else w + [Run(|sims| + 1, |sims| + 1)]
  {
    assert (sims + [sim])[..|sims|] == sims;
  }
}
