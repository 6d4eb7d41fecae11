// The file registry (t_file_list): a growable array of per-file records,
// with the name arena that holds their paths. Both allocation APIs are
// here: New is file_list_new(path, name) of src/file_list.c, which also
// stats the file and drops the record when it is rejected; NewSlot and
// DropLast are file_list_new() and file_list_drop_last() of dedup.c, the API
// src/file_list.h declares and the scans of src/dedup.c and dedup.c use.
module FileList {
  import opened Common
  import NL = NameList
  import opened Tree
  import opened Digests
  import opened Order
  import opened Sorting
  import opened Blocks

  const MODULAR_FILE_CAPACITY: nat := 1024
  const LEGACY_FILE_CAPACITY: nat := 16

  /** How a scan registers a regular file: ByPath is file_list_new(path,
      name) of src/file_list.c; BySlot is file_list_new(), name_list_new and
      join_path, then file_list_drop_last on rejection (src/dedup.c,
      dedup.c). */
  datatype Registration = ByPath | BySlot

  /** A new record as the registration leaves it: memset clears the whole
      record in src/file_list.c; the scans that take a slot only reset the
      flags and leave the digests as the slot held them. */
  predicate FreshRecord(api: Registration, f: FileId)
  {
    && !f.startEvaluated && !f.endEvaluated && !f.digestEvaluated && !f.vanished
    && (api == ByPath ==> f.startDigest == ZERO_DIGEST && f.endDigest == ZERO_DIGEST && f.digest == ZERO_DIGEST)
  }

  /** A registry made by file_list_new(path, name) is unread with zero
      digests, so once hard links open the same file its twins end the
      settling coherent, and the sort pass leaves it sorted. */
  lemma ByPathSorted(rev: Revision, safe: bool, s: seq<FileId>, paths: map<nat, CString>, disk: Disk, sha1: Hash)
    requires Resolves(s, paths)
    requires forall i :: 0 <= i < |s| ==> FreshRecord(ByPath, s[i])
    requires forall i, j :: 0 <= i < |s| && 0 <= j < |s| && SameInode(s[i], s[j]) && s[i].size == s[j].size ==>
               disk(paths[s[i].name]) == disk(paths[s[j].name])
    ensures TwinsCoherent(Settle(rev, safe, s, paths, disk, sha1), safe)
    ensures Resolves(SortPass(rev, safe, s, paths, disk, sha1), paths)
    ensures SortedFiles(SortPass(rev, safe, s, paths, disk, sha1), paths, safe)
  {
    SettleTwinsCoherent(rev, safe, s, paths, disk, sha1);
    SortPassSorted(rev, safe, s, paths, disk, sha1);
  }

  /** The (path, stat) pairs the records hold, in registry order. */
  function ListingOf(s: seq<FileId>, paths: map<nat, CString>): (r: seq<Found>)
    requires Resolves(s, paths)
    ensures |r| == |s|
    ensures forall i :: 0 <= i < |s| ==> r[i] == Found(paths[s[i].name], Stat(s[i].size, s[i].device, s[i].inode))
  {
    seq(|s|, i requires 0 <= i < |s| => Found(paths[s[i].name], Stat(s[i].size, s[i].device, s[i].inode)))
  }

  /** t is s with records appended, each as the registration leaves it. */
  predicate Extended(api: Registration, s: seq<FileId>, t: seq<FileId>)
  {
    |s| <= |t| && t[..|s|] == s && forall i :: |s| <= i < |t| ==> FreshRecord(api, t[i])
  }

  lemma ExtendedTransitive(api: Registration, s: seq<FileId>, t: seq<FileId>, u: seq<FileId>)
    requires Extended(api, s, t) && Extended(api, t, u)
    ensures Extended(api, s, u)
  {
    assert u[..|s|] == u[..|t|][..|s|];
    forall i | |s| <= i < |u|
      ensures FreshRecord(api, u[i])
    {
      if i < |t| {
        assert u[i] == u[..|t|][i];
      }
    }
  }

  /** Every handle keeps designating the path it designated. */
  ghost predicate KeepsPaths(paths: map<nat, CString>, paths': map<nat, CString>)
  {
    forall h :: h in paths ==> h in paths' && paths'[h] == paths[h]
  }

  lemma ListingKept(s: seq<FileId>, paths: map<nat, CString>, paths': map<nat, CString>)
    requires Resolves(s, paths) && KeepsPaths(paths, paths')
    ensures Resolves(s, paths') && ListingOf(s, paths') == ListingOf(s, paths)
  {
  }

  lemma ListingAppend(s: seq<FileId>, f: FileId, paths: map<nat, CString>, paths': map<nat, CString>)
    requires Resolves(s, paths) && KeepsPaths(paths, paths') && f.name in paths'
    ensures Resolves(s + [f], paths')
    ensures ListingOf(s + [f], paths') == ListingOf(s, paths) + [Found(paths'[f.name], Stat(f.size, f.device, f.inode))]
  {
    ListingKept(s, paths, paths');
    assert (s + [f])[..|s|] == s;
  }

  /** The similarity of each adjacent pair of records. */
  function Adjacent(s: seq<FileId>, safe: bool): (r: seq<bool>)
    requires s != []
    ensures |r| == |s| - 1
    ensures forall k :: 0 <= k < |r| ==> r[k] == SimilarFiles(s[k], s[k + 1], safe)
  {
    seq(|s| - 1, k requires 0 <= k < |s| - 1 => SimilarFiles(s[k], s[k + 1], safe))
  }

  /** Records whose identities are those of ids form blocks with those
      identities. */
  lemma SliceIdentities(s: seq<FileId>, ids: seq<Identity>, first: nat, last: nat)
    requires first <= last < |s| && last < |ids|
    requires forall k :: first <= k <= last ==> IdentityOf(s[k]) == ids[k]
    ensures IdentitiesOf(s[first..last + 1]) == ids[first..last + 1]
  {
    var t, u := s[first..last + 1], ids[first..last + 1];
    forall m | 0 <= m < |t| ensures IdentitiesOf(t)[m] == u[m] {
      assert t[m] == s[first + m];
    }
  }

  /** Every record of t extends the record at the same index of s. */
  predicate ExtendsEach(s: seq<FileId>, t: seq<FileId>)
  {
    |s| == |t| && forall k :: 0 <= k < |s| ==> Extends(s[k], t[k])
  }

  lemma ExtendsEachReflexive(s: seq<FileId>)
    ensures ExtendsEach(s, s)
  {
    forall k | 0 <= k < |s| ensures Extends(s[k], s[k]) {
      ExtendsReflexive(s[k]);
    }
  }

  lemma ExtendsEachTransitive(s: seq<FileId>, t: seq<FileId>, u: seq<FileId>)
    requires ExtendsEach(s, t) && ExtendsEach(t, u)
    ensures ExtendsEach(s, u)
  {
    forall k | 0 <= k < |s| ensures Extends(s[k], u[k]) {
      ExtendsTransitive(s[k], t[k], u[k]);
    }
  }

  lemma ExtendsEachPrefix(s: seq<FileId>, t: seq<FileId>, n: nat)
    requires ExtendsEach(s, t) && n <= |s|
    ensures ExtendsEach(s[..n], t[..n])
  {
  }

  /** When every adjacent pair has its consulted tiers settled, later
      getter calls change no adjacent similarity. */
  lemma SettledAdjacentStable(s: seq<FileId>, t: seq<FileId>, safe: bool)
    requires s != [] && ExtendsEach(s, t)
    requires forall k :: 0 <= k < |s| - 1 ==> PairSettled(s[k], s[k + 1], safe)
    ensures Adjacent(t, safe) == Adjacent(s, safe)
  {
    forall k | 0 <= k < |s| - 1 ensures Adjacent(t, safe)[k] == Adjacent(s, safe)[k] {
      SettledDecisionStable(s[k], s[k + 1], t[k], t[k + 1], "", "", safe);
    }
  }

  /** Getter calls change no record's identity. */
  lemma ExtendsEachKeepsIdentities(s: seq<FileId>, t: seq<FileId>, n: nat)
    requires ExtendsEach(s, t) && n <= |s|
    ensures IdentitiesOf(t[..n]) == IdentitiesOf(s[..n])
  {
    forall k | 0 <= k < n ensures IdentitiesOf(t[..n])[k] == IdentitiesOf(s[..n])[k] {
      assert Extends(s[k], t[k]);
    }
  }

  /** The totals of the grouping pass after the blocks done. */
  predicate Tallied(acc: Accounting, ids: seq<Identity>, done: seq<Run>, lost: nat, reclaimable: nat, shown: seq<Run>)
  {
    && (forall k :: 0 <= k < |done| ==> done[k].first <= done[k].last < |ids|)
    && lost == SumLost(acc, ids, done)
    && reclaimable == SumCorrected(acc, ids, done)
    && shown == Printed(acc, ids, done)
  }

  /** The totals after one more block. */
  lemma TalliedAppend(acc: Accounting, ids: seq<Identity>, done: seq<Run>, run: Run,
                      lost: nat, reclaimable: nat, shown: seq<Run>, l: nat, c: nat, sh: bool)
    requires Tallied(acc, ids, done, lost, reclaimable, shown) && run.first <= run.last < |ids|
    requires var b := ids[run.first..run.last + 1];
             l == Lost(acc, b) && c == Corrected(acc, b) && sh == ShownBlock(acc, b)
    ensures Tallied(acc, ids, done + [run], lost + l, reclaimable + c, shown + if sh then [run] else [])
  {
    AppendRun(acc, ids, done, run);
  }

  /** Once the last run is tallied, the totals are those of the walk. */
  lemma TalliedWalk(acc: Accounting, ids: seq<Identity>, sims: seq<bool>, runs: seq<Run>,
                    lost: nat, reclaimable: nat, shown: seq<Run>)
    requires |ids| == |sims| + 1 && Walk(sims) == runs
    requires Tallied(acc, ids, runs, lost, reclaimable, shown)
    ensures lost == TotalLost(acc, ids, sims)
    ensures reclaimable == TotalCorrected(acc, ids, sims)
    ensures shown == TotalPrinted(acc, ids, sims)
  {
  }

  /** Two records compared with each other. */
  datatype Pair = Pair(a: FileId, b: FileId)

  /** Both getters of tier t, on the pair, given what fopen returns for
      each. */
  function StepBoth(rev: Revision, t: Tier, p: Pair, fa: Option<OpenFile>, fb: Option<OpenFile>, sha1: Hash): Pair
  {
    Pair(Step(rev, t, p.a, fa, sha1), Step(rev, t, p.b, fb, sha1))
  }

  /** The pair after the digest chain of compare_files and similar_files:
      the start getters, then the end getters when the start digests agree
      and the files are longer than PARTIAL_CONTENT_SIZE, then the full
      getters in safe mode when everything so far agrees and the files are
      longer than twice that. */
  function Chain(rev: Revision, safe: bool, p: Pair, fa: Option<OpenFile>, fb: Option<OpenFile>, sha1: Hash): Pair
  {
    var p1 := StepBoth(rev, Start, p, fa, fb, sha1);
    if p1.a.startDigest != p1.b.startDigest then p1 else ChainRest(rev, safe, p1, fa, fb, sha1)
  }

  /** The chain after the start digests agreed. */
  function ChainRest(rev: Revision, safe: bool, p1: Pair, fa: Option<OpenFile>, fb: Option<OpenFile>, sha1: Hash): Pair
  {
    var p2 := if UsesEnd(p1.a) then StepBoth(rev, End, p1, fa, fb, sha1) else p1;
    if UsesEnd(p1.a) && p2.a.endDigest != p2.b.endDigest then p2
    else ChainFull(rev, safe, p2, fa, fb, sha1)
  }

  /** The full getters, in safe mode above twice PARTIAL_CONTENT_SIZE. */
  function ChainFull(rev: Revision, safe: bool, p2: Pair, fa: Option<OpenFile>, fb: Option<OpenFile>, sha1: Hash): Pair
  {
    if UsesFull(p2.a, safe) then StepBoth(rev, Full, p2, fa, fb, sha1) else p2
  }

  /** Both getters of one tier add to their records, settle the tier in
      both and leave the other tiers as they were. */
  lemma StepBothSettles(rev: Revision, t: Tier, p: Pair, fa: Option<OpenFile>, fb: Option<OpenFile>, sha1: Hash)
    ensures var q := StepBoth(rev, t, p, fa, fb, sha1);
            && Extends(p.a, q.a) && Extends(p.b, q.b) && Settled(q.a, t) && Settled(q.b, t)
            && forall u :: u != t ==> TierKept(p.a, q.a, u) && TierKept(p.b, q.b, u)
  {
    StepSettles(rev, t, p.a, fa, sha1);
    StepSettles(rev, t, p.b, fb, sha1);
  }

  /** q is p after getter calls that only added to the records, left the
      tiers the comparison of q does not consult as they were, and settled
      every tier it does consult in both records. */
  predicate SettlesPair(p: Pair, q: Pair, safe: bool)
  {
    && Extends(p.a, q.a) && Extends(p.b, q.b)
    && PairSettled(q.a, q.b, safe)
    && forall t :: t !in Consulted(q.a, q.b, safe) ==> TierKept(p.a, q.a, t) && TierKept(p.b, q.b, t)
  }

  /** The chain stops after the start getters. */
  lemma StopsAfterStart(p: Pair, p1: Pair, safe: bool)
    requires p.a.size == p.b.size && !SameInode(p.a, p.b)
    requires Extends(p.a, p1.a) && Extends(p.b, p1.b) && Settled(p1.a, Start) && Settled(p1.b, Start)
    requires forall u :: u != Start ==> TierKept(p.a, p1.a, u) && TierKept(p.b, p1.b, u)
    requires p1.a.startDigest != p1.b.startDigest || !UsesEnd(p1.a)
    ensures SettlesPair(p, p1, safe)
  {
    assert Consulted(p1.a, p1.b, safe) == {Start};
  }

  /** The chain stops after the end getters. */
  lemma StopsAfterEnd(p: Pair, p1: Pair, p2: Pair, safe: bool)
    requires p.a.size == p.b.size && !SameInode(p.a, p.b)
    requires Extends(p.a, p1.a) && Extends(p.b, p1.b) && Settled(p1.a, Start) && Settled(p1.b, Start)
    requires forall u :: u != Start ==> TierKept(p.a, p1.a, u) && TierKept(p.b, p1.b, u)
    requires p1.a.startDigest == p1.b.startDigest && UsesEnd(p1.a)
    requires Extends(p1.a, p2.a) && Extends(p1.b, p2.b) && Settled(p2.a, End) && Settled(p2.b, End)
    requires forall u :: u != End ==> TierKept(p1.a, p2.a, u) && TierKept(p1.b, p2.b, u)
    requires p2.a.endDigest != p2.b.endDigest || !UsesFull(p2.a, safe)
    ensures SettlesPair(p, p2, safe)
  {
    ExtendsTransitive(p.a, p1.a, p2.a);
    ExtendsTransitive(p.b, p1.b, p2.b);
    assert TierKept(p1.a, p2.a, Start) && TierKept(p1.b, p2.b, Start);
    assert TierKept(p.a, p1.a, Full) && TierKept(p.b, p1.b, Full);
    assert TierKept(p1.a, p2.a, Full) && TierKept(p1.b, p2.b, Full);
    assert Consulted(p2.a, p2.b, safe) == {Start, End};
  }

  /** The chain runs to the full getters. */
  lemma StopsAfterFull(p: Pair, p1: Pair, p2: Pair, p3: Pair, safe: bool)
    requires p.a.size == p.b.size && !SameInode(p.a, p.b)
    requires Extends(p.a, p1.a) && Extends(p.b, p1.b) && Settled(p1.a, Start) && Settled(p1.b, Start)
    requires forall u :: u != Start ==> TierKept(p.a, p1.a, u) && TierKept(p.b, p1.b, u)
    requires p1.a.startDigest == p1.b.startDigest && UsesEnd(p1.a)
    requires Extends(p1.a, p2.a) && Extends(p1.b, p2.b) && Settled(p2.a, End) && Settled(p2.b, End)
    requires forall u :: u != End ==> TierKept(p1.a, p2.a, u) && TierKept(p1.b, p2.b, u)
    requires p2.a.endDigest == p2.b.endDigest && UsesFull(p2.a, safe)
    requires Extends(p2.a, p3.a) && Extends(p2.b, p3.b) && Settled(p3.a, Full) && Settled(p3.b, Full)
    requires forall u :: u != Full ==> TierKept(p2.a, p3.a, u) && TierKept(p2.b, p3.b, u)
    ensures SettlesPair(p, p3, safe)
  {
    ExtendsTransitive(p.a, p1.a, p2.a);
    ExtendsTransitive(p.b, p1.b, p2.b);
    ExtendsTransitive(p.a, p2.a, p3.a);
    ExtendsTransitive(p.b, p2.b, p3.b);
    assert TierKept(p1.a, p2.a, Start) && TierKept(p1.b, p2.b, Start);
    assert TierKept(p2.a, p3.a, Start) && TierKept(p2.b, p3.b, Start);
    assert TierKept(p2.a, p3.a, End) && TierKept(p2.b, p3.b, End);
    assert Consulted(p3.a, p3.b, safe) == {Start, End, Full};
  }

  /** The chain only adds to the records, leaves the tiers it does not
      consult as they were, and leaves every consulted tier settled in both:
      a later comparison of the pair calls no getter that can change its
      outcome. */
  lemma ChainSettles(rev: Revision, safe: bool, p: Pair, fa: Option<OpenFile>, fb: Option<OpenFile>, sha1: Hash)
    requires p.a.size == p.b.size && !SameInode(p.a, p.b)
    ensures SettlesPair(p, Chain(rev, safe, p, fa, fb, sha1), safe)
  {
    var p1 := StepBoth(rev, Start, p, fa, fb, sha1);
    StepBothSettles(rev, Start, p, fa, fb, sha1);
    if p1.a.startDigest != p1.b.startDigest || !UsesEnd(p1.a) {
      StopsAfterStart(p, p1, safe);
    } else {
      ChainRestSettles(rev, safe, p, p1, fa, fb, sha1);
    }
  }

  /** The same, for the part of the chain after equal start digests. */
  lemma ChainRestSettles(rev: Revision, safe: bool, p: Pair, p1: Pair, fa: Option<OpenFile>, fb: Option<OpenFile>, sha1: Hash)
    requires p.a.size == p.b.size && !SameInode(p.a, p.b)
    requires p1 == StepBoth(rev, Start, p, fa, fb, sha1)
    requires p1.a.startDigest == p1.b.startDigest && UsesEnd(p1.a)
    ensures SettlesPair(p, ChainRest(rev, safe, p1, fa, fb, sha1), safe)
  {
    StepBothSettles(rev, Start, p, fa, fb, sha1);
    var p2 := StepBoth(rev, End, p1, fa, fb, sha1);
    StepBothSettles(rev, End, p1, fa, fb, sha1);
    if p2.a.endDigest != p2.b.endDigest || !UsesFull(p2.a, safe) {
      StopsAfterEnd(p, p1, p2, safe);
    } else {
      var p3 := StepBoth(rev, Full, p2, fa, fb, sha1);
      StepBothSettles(rev, Full, p2, fa, fb, sha1);
      StopsAfterFull(p, p1, p2, p3, safe);
    }
  }

  /** Two files of one size above PARTIAL_CONTENT_SIZE that share their
      first bytes and differ in their last ones (their end digests differ),
      compared for the first time: the getter chain stops at the end
      digests and the files are not similar, in fast mode and in safe mode
      alike; the full getters are never called. */
  lemma TrailingBytesDiffer(rev: Revision, safe: bool, p: Pair, oa: OpenFile, ob: OpenFile, sha1: Hash)
    requires p.a.size == p.b.size > PARTIAL_CONTENT_SIZE && !SameInode(p.a, p.b)
    requires !Settled(p.a, Start) && !Settled(p.b, Start) && !Settled(p.a, End) && !Settled(p.b, End)
    requires |oa.content| == |ob.content| == p.a.size && oa.seekable && ob.seekable
    requires oa.content[..PARTIAL_CONTENT_SIZE] == ob.content[..PARTIAL_CONTENT_SIZE]
    requires sha1(oa.content[p.a.size - PARTIAL_CONTENT_SIZE..]) != sha1(ob.content[p.a.size - PARTIAL_CONTENT_SIZE..])
    ensures var q := Chain(rev, safe, p, Some(oa), Some(ob), sha1);
            && !SimilarFiles(q.a, q.b, safe)
            && Consulted(q.a, q.b, safe) == {Start, End}
            && TierKept(p.a, q.a, Full) && TierKept(p.b, q.b, Full)
  {
    var n := p.a.size;
    var p1 := StepBoth(rev, Start, p, Some(oa), Some(ob), sha1);
    StepBothSettles(rev, Start, p, Some(oa), Some(ob), sha1);
    StepSuccess(rev, Start, p.a, Some(oa), sha1);
    StepSuccess(rev, Start, p.b, Some(ob), sha1);
    assert p1.a.startDigest == p1.b.startDigest;
    assert TierKept(p.a, p1.a, End) && TierKept(p.b, p1.b, End);
    var p2 := StepBoth(rev, End, p1, Some(oa), Some(ob), sha1);
    StepBothSettles(rev, End, p1, Some(oa), Some(ob), sha1);
    StepSuccess(rev, End, p1.a, Some(oa), sha1);
    StepSuccess(rev, End, p1.b, Some(ob), sha1);
    assert p2.a.endDigest == sha1(oa.content[n - PARTIAL_CONTENT_SIZE..]);
    assert p2.b.endDigest == sha1(ob.content[n - PARTIAL_CONTENT_SIZE..]);
    assert Chain(rev, safe, p, Some(oa), Some(ob), sha1) == p2;
    assert TierKept(p1.a, p2.a, Start) && TierKept(p1.b, p2.b, Start);
  }

  class FileList {
    var capacity: nat
    var length: nat
    var files: array<FileId>
    var names: NL.NameList
    ghost var Repr: set<object>

    ghost predicate Valid()
      reads this, Repr
    {
      && this in Repr && files in Repr && names in Repr
      && names.Repr <= Repr && this !in names.Repr && files !in names.Repr
      && names.Valid()
      && files.Length == capacity && 0 < capacity && length <= capacity
    }

    /** Every record's path handle was issued by the arena. */
    ghost predicate Resolved()
      reads this, files, names
    {
      length <= files.Length && Resolves(files[..length], names.Names)
    }

    ghost function Listing(): seq<Found>
      reads this, files, names
      requires Resolved()
    {
      ListingOf(files[..length], names.Names)
    }

    /** file_list_init and name_list_init of src/file_list.c and
        src/name_list.c. */
    constructor InitModular()
      ensures Valid() && Resolved() && fresh(Repr)
      ensures capacity == MODULAR_FILE_CAPACITY && length == 0
      ensures names.capacity == NL.MODULAR_INITIAL_CAPACITY && names.length == 0 && names.Names == map[]
    {
      capacity := MODULAR_FILE_CAPACITY;
      length := 0;
      files := new FileId[MODULAR_FILE_CAPACITY](_ => CLEARED);
      names := new NL.NameList.InitModular();
      new;
      Repr := {this, files} + names.Repr;
    }

    /** file_list_init of dedup.c, which also initialises the arena. */
    constructor InitLegacy()
      ensures Valid() && Resolved() && fresh(Repr)
      ensures capacity == LEGACY_FILE_CAPACITY && length == 0
      ensures names.capacity == NL.LEGACY_INITIAL_CAPACITY && names.length == 0 && names.Names == map[]
    {
      capacity := LEGACY_FILE_CAPACITY;
      length := 0;
      files := new FileId[LEGACY_FILE_CAPACITY](_ => CLEARED);
      names := new NL.NameList.InitLegacy();
      new;
      Repr := {this, files} + names.Repr;
    }

    /** The capacity test both file_list_new share: a full array doubles. */
    method GrowFiles()
      requires Valid()
      modifies this
      ensures Valid() && fresh(Repr - old(Repr))
      ensures length == old(length) && names == old(names) && length < capacity
      ensures capacity == if old(length) == old(capacity) then 2 * old(capacity) else old(capacity)
      ensures files[..length] == old(files[..length])
      ensures old(length) < old(capacity) ==> files == old(files)
    {
      if length == capacity {
        capacity := capacity * 2;
        files := Realloc(files, capacity, CLEARED);
        Repr := Repr + {files};
      }
    }

    /** The first half of file_list_new of src/file_list.c: a cleared record
        at the end of the array, its path dir/name appended to the arena. */
    method Append(path: CString, name: CString) returns (i: nat)
      requires Valid() && Resolved()
      modifies Repr
      ensures Valid() && fresh(Repr - old(Repr)) && names == old(names)
      ensures i == old(length) && length == i + 1
      ensures capacity == if old(length) == old(capacity) then 2 * old(capacity) else old(capacity)
      ensures files[..i] == old(files[..length])
      ensures files[i] == CLEARED.(name := files[i].name)
      ensures files[i].name !in old(names.Names) && names.Names == old(names.Names)[files[i].name := Join(path, name)]
      ensures names.length == old(names.length) + |path| + 1 + |name| + 1
    {
      GrowFiles();
      i := length;
      length := length + 1;
      files[i] := CLEARED;
      var h := names.New(path, name);
      Repr := Repr + names.Repr;
      files[i] := files[i].(name := h);
    }

    /** file_list_new of src/file_list.c: appends a cleared record whose path
        is dir/name, then keeps it only when stat succeeds and the size
        reaches MINIMAL_FILE_SIZE. The path stays in the arena either way. */
    method New(path: CString, name: CString, st: Option<Stat>) returns (accepted: bool)
      requires Valid() && Resolved()
      modifies Repr
      ensures Valid() && Resolved() && fresh(Repr - old(Repr)) && names == old(names)
      ensures accepted <==> st.Some? && st.value.size >= MINIMAL_FILE_SIZE
      ensures length == old(length) + (if accepted then 1 else 0)
      ensures capacity == if old(length) == old(capacity) then 2 * old(capacity) else old(capacity)
      ensures files[..old(length)] == old(files[..length])
      ensures Listing() == old(Listing()) + (if accepted then [Found(Join(path, name), st.value)] else [])
      ensures accepted ==> FreshRecord(ByPath, files[old(length)])
      ensures names.length == old(names.length) + |path| + 1 + |name| + 1
      ensures KeepsPaths(old(names.Names), names.Names)
    {
      ghost var prefix := files[..length];
      ghost var paths := names.Names;
      var i := Append(path, name);
      if st.None? || st.value.size < MINIMAL_FILE_SIZE {
        // stat failed (reported with perror), or the file is too small
        length := length - 1;
        assert files[..length] == prefix;
        ListingKept(prefix, paths, names.Names);
        accepted := false;
      } else {
        files[i] := files[i].(size := st.value.size, device := st.value.device, inode := st.value.inode);
        accepted := true;
        assert files[..length] == prefix + [files[i]];
        ListingAppend(prefix, files[i], paths, names.Names);
      }
    }

    /** file_list_new of dedup.c: the next slot, as it is, after doubling a
        full array. */
    method NewSlot() returns (i: nat)
      requires Valid()
      modifies this
      ensures Valid() && fresh(Repr - old(Repr)) && names == old(names)
      ensures i == old(length) && length == old(length) + 1
      ensures capacity == if old(length) == old(capacity) then 2 * old(capacity) else old(capacity)
      ensures files[..old(length)] == old(files[..length])
    {
      GrowFiles();
      i := length;
      length := length + 1;
    }

    /** file_list_drop_last: forgets the last record, if there is one. */
    method DropLast()
      requires Valid()
      modifies this`length
      ensures Valid()
      ensures length == if old(length) > 0 then old(length) - 1 else 0
    {
      if length > 0 {
        length := length - 1;
      }
    }

    /** The allocation steps of the scans of src/dedup.c and dedup.c for a
        regular file: take a slot, reserve |path| + 1 + |name| bytes (and the
        NUL) in the arena and join the path there. The slot keeps whatever it
        held apart from its name. */
    method Claim(path: CString, name: CString) returns (i: nat)
      requires Valid() && Resolved()
      modifies Repr
      ensures Valid() && fresh(Repr - old(Repr)) && names == old(names)
      ensures i == old(length) && length == i + 1
      ensures files[..i] == old(files[..length])
      ensures files[i].name !in old(names.Names) && names.Names == old(names.Names)[files[i].name := Join(path, name)]
      ensures names.length == old(names.length) + |path| + 1 + |name| + 1
    {
      i := NewSlot();
      var h := names.Reserve(|path| + 1 + |name|);
      Repr := Repr + names.Repr;
      files[i] := files[i].(name := h);
      names.WriteJoin(h, path, name);
    }

    /** The regular-file case of the scans of src/dedup.c and dedup.c: claim
        a slot and its path, then drop the slot when stat fails or the size
        is below the threshold, or fill in size, identity and cleared flags. */
    method Register(path: CString, name: CString, st: Option<Stat>, minSize: nat) returns (accepted: bool)
      requires Valid() && Resolved()
      modifies Repr
      ensures Valid() && Resolved() && fresh(Repr - old(Repr)) && names == old(names)
      ensures accepted <==> st.Some? && st.value.size >= minSize
      ensures length == old(length) + (if accepted then 1 else 0)
      ensures files[..old(length)] == old(files[..length])
      ensures Listing() == old(Listing()) + (if accepted then [Found(Join(path, name), st.value)] else [])
      ensures accepted ==> FreshRecord(BySlot, files[old(length)])
      ensures names.length == old(names.length) + |path| + 1 + |name| + 1
      ensures KeepsPaths(old(names.Names), names.Names)
    {
      ghost var prefix := files[..length];
      ghost var paths := names.Names;
      var i := Claim(path, name);
      if st.None? || st.value.size < minSize {
        // stat failed (reported with perror), or the file is too small
        DropLast();
        assert files[..length] == prefix;
        ListingKept(prefix, paths, names.Names);
        return false;
      }
      files[i] := files[i].(size := st.value.size, device := st.value.device, inode := st.value.inode,
                            startEvaluated := false, endEvaluated := false, digestEvaluated := false,
                            vanished := false);
      accepted := true;
      assert files[..length] == prefix + [files[i]];
      ListingAppend(prefix, files[i], paths, names.Names);
    }

    /** file_list_scan of src/file_list.c and scan of src/dedup.c and
        dedup.c: nothing when the path is ignored or opendir fails, otherwise
        the entries in readdir order. The records it adds are exactly what
        ScanDir yields, in that order, and the records already there are
        untouched. */
    method Scan(api: Registration, p: Policy, path: CString, readable: bool, es: seq<Entry>) returns (n: nat)
      requires Valid() && Resolved()
      requires api == ByPath ==> p.minSize == MINIMAL_FILE_SIZE
      modifies Repr
      ensures Valid() && Resolved() && fresh(Repr - old(Repr)) && names == old(names)
      ensures length == old(length) + n
      ensures Extended(api, old(files[..length]), files[..length])
      ensures Listing() == old(Listing()) + ScanDir(p, path, readable, es)
      ensures n == |ScanDir(p, path, readable, es)|
      decreases SizeAll(es), 2
    {
      if p.ignored(path) {
        return 0;
      }
      if !readable {
        return 0;
      }
      ghost var before := Listing();
      n := ScanEntriesInto(api, p, path, es);
      assert |before| + n == |Listing()|;
    }

    /** The readdir loop of the scan. */
    method ScanEntriesInto(api: Registration, p: Policy, path: CString, es: seq<Entry>) returns (n: nat)
      requires Valid() && Resolved()
      requires api == ByPath ==> p.minSize == MINIMAL_FILE_SIZE
      modifies Repr
      ensures Valid() && Resolved() && fresh(Repr - old(Repr)) && names == old(names)
      ensures length == old(length) + n
      ensures Extended(api, old(files[..length]), files[..length])
      ensures Listing() == old(Listing()) + ScanEntries(p, path, es)
      decreases SizeAll(es), 1
    {
      n := 0;
      var k := 0;
      while k < |es|
        invariant 0 <= k <= |es|
        invariant Valid() && Resolved() && fresh(Repr - old(Repr)) && names == old(names)
        invariant length == old(length) + n
        invariant Extended(api, old(files[..length]), files[..length])
        invariant Listing() == old(Listing()) + ScanEntries(p, path, es[..k])
      {
        SizeOfMember(es, k);
        ghost var before := files[..length];
        var m := ScanEntryInto(api, p, path, es[k]);
        ScanEntriesPrefix(p, path, es, k);
        ExtendedTransitive(api, old(files[..length]), before, files[..length]);
        n := n + m;
        k := k + 1;
      }
      assert es[..k] == es;
    }

    /** One entry of the listing: dot-entries are skipped unless hidden files
        are shown, "." and ".." are not entered, a directory is scanned
        recursively under dir/name, a regular file is registered. */
    method ScanEntryInto(api: Registration, p: Policy, path: CString, e: Entry) returns (n: nat)
      requires Valid() && Resolved()
      requires api == ByPath ==> p.minSize == MINIMAL_FILE_SIZE
      modifies Repr
      ensures Valid() && Resolved() && fresh(Repr - old(Repr)) && names == old(names)
      ensures length == old(length) + n
      ensures Extended(api, old(files[..length]), files[..length])
      ensures Listing() == old(Listing()) + ScanEntry(p, path, e)
      decreases Size(e), 0
    {
      n := 0;
      if Hidden(e.name) && !p.showHidden {
        return;
      }
      match e {
        case Directory(dn, r, sub) =>
          if !IsSelfOrParent(dn) {
            n := Scan(api, p, Join(path, dn), r, sub);
          }
        case Regular(fn, st) =>
          var accepted;
          if api == ByPath {
            accepted := New(path, fn, st);
          } else {
            accepted := Register(path, fn, st, p.minSize);
          }
          if accepted {
            n := 1;
          }
        case Other(_) =>
      }
    }

    /** The path of record i, as name_list_get returns it. */
    ghost function PathOf(i: nat): CString
      reads this, files, names
      requires Resolved() && i < length
    {
      names.Names[files[i].name]
    }

    /** start_digest on record i. */
    method StartDigest(rev: Revision, i: nat, disk: Disk, sha1: Hash) returns (d: Digest)
      requires Valid() && Resolved() && i < length
      modifies files
      ensures Resolved()
      ensures files[i] == Step(rev, Start, old(files[i]), disk(old(PathOf(i))), sha1)
      ensures d == files[i].startDigest
      ensures forall j :: 0 <= j < files.Length && j != i ==> files[j] == old(files[j])
    {
      var f := files[i];
      if f.vanished || f.startEvaluated {
        if rev == Legacy {
          files[i] := f.(startEvaluated := true);
        }
        return files[i].startDigest;
      }
      var file := disk(names.Get(f.name));
      if file.None? {
        files[i] := Leave(rev, f.(vanished := true), Start);
        return files[i].startDigest;
      }
      var bytes := StartBytes(file.value.content);
      files[i] := f.(startDigest := sha1(bytes), startEvaluated := true);
      d := files[i].startDigest;
    }

    /** end_digest on record i: fseek to size - PARTIAL_CONTENT_SIZE, then
        one fread. */
    method EndDigest(rev: Revision, i: nat, disk: Disk, sha1: Hash) returns (d: Digest)
      requires Valid() && Resolved() && i < length
      modifies files
      ensures Resolved()
      ensures files[i] == Step(rev, End, old(files[i]), disk(old(PathOf(i))), sha1)
      ensures d == files[i].endDigest
      ensures forall j :: 0 <= j < files.Length && j != i ==> files[j] == old(files[j])
    {
      var f := files[i];
      if f.vanished || f.endEvaluated {
        if rev == Legacy {
          files[i] := f.(endEvaluated := true);
        }
        return files[i].endDigest;
      }
      var file := disk(names.Get(f.name));
      if file.None? {
        files[i] := Leave(rev, f.(vanished := true), End);
        return files[i].endDigest;
      }
      if f.size < PARTIAL_CONTENT_SIZE || !file.value.seekable {
        files[i] := Leave(rev, f.(vanished := true), End);
        return files[i].endDigest;
      }
      var bytes := EndBytes(file.value.content, f.size);
      files[i] := f.(endDigest := sha1(bytes), endEvaluated := true);
      d := files[i].endDigest;
    }

    /** digest on record i: the whole content, READ_BLOCK_SIZE bytes at a
        time. */
    method FullDigest(rev: Revision, i: nat, disk: Disk, sha1: Hash) returns (d: Digest)
      requires Valid() && Resolved() && i < length
      modifies files
      ensures Resolved()
      ensures files[i] == Step(rev, Full, old(files[i]), disk(old(PathOf(i))), sha1)
      ensures d == files[i].digest
      ensures forall j :: 0 <= j < files.Length && j != i ==> files[j] == old(files[j])
    {
      var f := files[i];
      if f.vanished || f.digestEvaluated {
        if rev == Legacy {
          files[i] := f.(digestEvaluated := true);
        }
        return files[i].digest;
      }
      var file := disk(names.Get(f.name));
      if file.None? {
        files[i] := Leave(rev, f.(vanished := true), Full);
        return files[i].digest;
      }
      var fed := ReadAll(file.value.content, ReadBlockSize(rev));
      files[i] := f.(digest := sha1(fed), digestEvaluated := true);
      d := files[i].digest;
    }

    /** compare_files on records i and j: size, hard link (by name), then
        start, end and, in safe mode, full digests, fetched through the
        getters, then name. The result is compare_files on the records as the
        getters leave them. Records of different sizes and hard links are
        left as they were; otherwise the pair is what the getter chain makes
        of it, only the consulted tiers were touched, and those are settled
        in both records. */
    method Compare(rev: Revision, i: nat, j: nat, safe: bool, disk: Disk, sha1: Hash) returns (r: int)
      requires Valid() && Resolved() && i < length && j < length
      modifies files
      ensures Valid() && Resolved()
      ensures r == CompareFiles(files[i], files[j], PathOf(i), PathOf(j), safe)
      ensures SettlesPair(Pair(old(files[i]), old(files[j])), Pair(files[i], files[j]), safe)
      ensures Pair(files[i], files[j])
              == if old(files[i]).size != old(files[j]).size || SameInode(old(files[i]), old(files[j]))
                 then Pair(old(files[i]), old(files[j]))
                 else Chain(rev, safe, Pair(old(files[i]), old(files[j])), disk(old(PathOf(i))), disk(old(PathOf(j))), sha1)
      ensures forall k :: 0 <= k < files.Length && k != i && k != j ==> files[k] == old(files[k])
    {
      var a, b := files[i], files[j];
      assert a == files[..length][i] && b == files[..length][j];
      if a.size < b.size {
        return -1;
      }
      if a.size > b.size {
        return 1;
      }
      if a.device == b.device && a.inode == b.inode {
        return StrCmp(names.Get(a.name), names.Get(b.name));
      }
      ghost var fa, fb := disk(PathOf(i)), disk(PathOf(j));
      r := Digests(rev, i, j, safe, disk, sha1);
      ChainSettles(rev, safe, Pair(a, b), fa, fb, sha1);
      if r == 0 {
        // the getters keep the records' names
        r := StrCmp(names.Get(a.name), names.Get(b.name));
      }
    }

    /** similar_files on records i and j: the same chain as compare_files,
        answering whether it reaches the name tie-break. */
    method Similar(rev: Revision, i: nat, j: nat, safe: bool, disk: Disk, sha1: Hash) returns (r: bool)
      requires Valid() && Resolved() && i < length && j < length
      modifies files
      ensures Valid() && Resolved()
      ensures r == SimilarFiles(files[i], files[j], safe)
      ensures SettlesPair(Pair(old(files[i]), old(files[j])), Pair(files[i], files[j]), safe)
      ensures Pair(files[i], files[j])
              == if old(files[i]).size != old(files[j]).size || SameInode(old(files[i]), old(files[j]))
                 then Pair(old(files[i]), old(files[j]))
                 else Chain(rev, safe, Pair(old(files[i]), old(files[j])), disk(old(PathOf(i))), disk(old(PathOf(j))), sha1)
      ensures forall k :: 0 <= k < files.Length && k != i && k != j ==> files[k] == old(files[k])
    {
      var a, b := files[i], files[j];
      if a.size != b.size {
        return false;
      }
      if a.device == b.device && a.inode == b.inode {
        return true;
      }
      ghost var fa, fb := disk(PathOf(i)), disk(PathOf(j));
      var o := Digests(rev, i, j, safe, disk, sha1);
      ChainSettles(rev, safe, Pair(a, b), fa, fb, sha1);
      r := o == 0;
    }

    /** The digest chain compare_files and similar_files share, for two
        records of one size that are not hard links: the first memcmp that
        is not 0, or 0 when every consulted digest is equal. */
    method Digests(rev: Revision, i: nat, j: nat, safe: bool, disk: Disk, sha1: Hash) returns (o: int)
      requires Valid() && Resolved() && i < length && j < length
      requires files[i].size == files[j].size && !SameInode(files[i], files[j])
      modifies files
      ensures Valid() && Resolved()
      ensures Pair(files[i], files[j]) == Chain(rev, safe, Pair(old(files[i]), old(files[j])), disk(old(PathOf(i))), disk(old(PathOf(j))), sha1)
      ensures o == DigestOrder(files[i], files[j], "", "", safe)
      ensures forall k :: 0 <= k < files.Length && k != i && k != j ==> files[k] == old(files[k])
    {
      ghost var p0 := Pair(files[i], files[j]);
      o := PairDigests(rev, Start, i, j, disk, sha1);
      StepBothSettles(rev, Start, p0, disk(PathOf(i)), disk(PathOf(j)), sha1);
      if o != 0 {
        return;
      }
      o := LaterDigests(rev, i, j, safe, disk, sha1);
    }

    /** The end and full digests of the chain, once the start digests
        agreed. */
    method LaterDigests(rev: Revision, i: nat, j: nat, safe: bool, disk: Disk, sha1: Hash) returns (o: int)
      requires Valid() && Resolved() && i < length && j < length && i != j
      requires files[i].size == files[j].size && files[i].startDigest == files[j].startDigest
      modifies files
      ensures Valid() && Resolved()
      ensures Pair(files[i], files[j]) == ChainRest(rev, safe, Pair(old(files[i]), old(files[j])), disk(old(PathOf(i))), disk(old(PathOf(j))), sha1)
      ensures o == DigestOrder(files[i], files[j], "", "", safe)
      ensures forall k :: 0 <= k < files.Length && k != i && k != j ==> files[k] == old(files[k])
    {
      ghost var p1 := Pair(files[i], files[j]);
      ghost var fa, fb := disk(PathOf(i)), disk(PathOf(j));
      o := 0;
      if files[i].size > PARTIAL_CONTENT_SIZE {
        o := PairDigests(rev, End, i, j, disk, sha1);
        StepBothSettles(rev, End, p1, fa, fb, sha1);
        assert TierKept(p1.a, files[i], Start) && TierKept(p1.b, files[j], Start);
        if o != 0 {
          return;
        }
      }
      o := FullDigests(rev, i, j, safe, disk, sha1);
    }

    /** The full digests of the chain, once the start digests and the
        consulted end digests agreed. */
    method FullDigests(rev: Revision, i: nat, j: nat, safe: bool, disk: Disk, sha1: Hash) returns (o: int)
      requires Valid() && Resolved() && i < length && j < length && i != j
      requires files[i].size == files[j].size && files[i].startDigest == files[j].startDigest
      requires UsesEnd(files[i]) ==> files[i].endDigest == files[j].endDigest
      modifies files
      ensures Valid() && Resolved()
      ensures Pair(files[i], files[j]) == ChainFull(rev, safe, Pair(old(files[i]), old(files[j])), disk(old(PathOf(i))), disk(old(PathOf(j))), sha1)
      ensures o == DigestOrder(files[i], files[j], "", "", safe)
      ensures forall k :: 0 <= k < files.Length && k != i && k != j ==> files[k] == old(files[k])
    {
      o := 0;
      if safe && files[i].size > 2 * PARTIAL_CONTENT_SIZE {
        ghost var p2 := Pair(files[i], files[j]);
        ghost var fa, fb := disk(PathOf(i)), disk(PathOf(j));
        o := PairDigests(rev, Full, i, j, disk, sha1);
        StepBothSettles(rev, Full, p2, fa, fb, sha1);
        assert TierKept(p2.a, files[i], Start) && TierKept(p2.b, files[j], Start);
        assert TierKept(p2.a, files[i], End) && TierKept(p2.b, files[j], End);
      }
    }

    /** The two getter calls of one tier in compare_files and similar_files,
        and the memcmp of the digests they return. */
    method PairDigests(rev: Revision, t: Tier, i: nat, j: nat, disk: Disk, sha1: Hash) returns (o: int)
      requires Valid() && Resolved() && i < length && j < length && i != j
      modifies files
      ensures Valid() && Resolved()
      ensures Pair(files[i], files[j]) == StepBoth(rev, t, Pair(old(files[i]), old(files[j])), disk(old(PathOf(i))), disk(old(PathOf(j))), sha1)
      ensures o == MemCmp(DigestOf(files[i], t), DigestOf(files[j], t))
      ensures forall k :: 0 <= k < files.Length && k != i && k != j ==> files[k] == old(files[k])
    {
      var d1, d2;
      match t {
        case Start =>
          d1 := StartDigest(rev, i, disk, sha1);
          d2 := StartDigest(rev, j, disk, sha1);
        case End =>
          d1 := EndDigest(rev, i, disk, sha1);
          d2 := EndDigest(rev, j, disk, sha1);
        case Full =>
          d1 := FullDigest(rev, i, disk, sha1);
          d2 := FullDigest(rev, j, disk, sha1);
      }
      o := MemCmp(d1, d2);
    }
 

    // -------------------------------------------------------------------
    // file_list_sort
    // -------------------------------------------------------------------

    /** The getters a comparison of record k may call, in compare_files'
        order: start, end above PARTIAL_CONTENT_SIZE, full in safe mode
        above twice that. */
    method SettleAt(rev: Revision, safe: bool, k: nat, disk: Disk, sha1: Hash)
      requires Valid() && Resolved() && k < length
      modifies files
      ensures Valid() && Resolved()
      ensures files[k] == SettleRecord(rev, safe, old(files[k]), disk(old(PathOf(k))), sha1, true)
      ensures forall m :: 0 <= m < files.Length && m != k ==> files[m] == old(files[m])
    {
      var d := StartDigest(rev, k, disk, sha1);
      if files[k].size > PARTIAL_CONTENT_SIZE {
        d := EndDigest(rev, k, disk, sha1);
      }
      if safe && files[k].size > 2 * PARTIAL_CONTENT_SIZE {
        d := FullDigest(rev, k, disk, sha1);
      }
    }

    /** Whether another record has the size of record k and another inode. */
    method Twin(k: nat) returns (t: bool)
      requires Valid() && k < length
      ensures t == HasTwin(files[..length], k)
    {
      var j := 0;
      while j < length
        invariant 0 <= j <= length
        invariant forall m :: 0 <= m < j && m != k ==> files[m].size != files[k].size || SameInode(files[m], files[k])
      {
        if j != k && files[j].size == files[k].size && (files[j].device != files[k].device || files[j].inode != files[k].inode) {
          assert files[..length][j] == files[j] && files[..length][k] == files[k];
          return true;
        }
        j := j + 1;
      }
      t := false;
    }

    /** One step of the settling pass: record k becomes what Settle makes
        of it, given that the records still have the identities of s0. */
    method SettleNext(rev: Revision, safe: bool, k: nat, disk: Disk, sha1: Hash, ghost s0: seq<FileId>)
      requires Valid() && Resolved() && k < length == |s0| && files[k] == s0[k]
      requires forall m :: 0 <= m < length ==> IdentityOf(files[m]) == IdentityOf(s0[m])
      requires Resolves(s0, names.Names)
      modifies files
      ensures Valid() && Resolved()
      ensures files[k] == Settle(rev, safe, s0, names.Names, disk, sha1)[k]
      ensures forall m :: 0 <= m < files.Length && m != k ==> files[m] == old(files[m])
    {
      var twin := Twin(k);
      HasTwinByIdentity(files[..length], s0, k);
      if twin {
        SettleAt(rev, safe, k, disk, sha1);
      }
    }

    /** The settling pass: every record with a twin gets the digests a
        comparison could ask for. */
    method SettleAll(rev: Revision, safe: bool, disk: Disk, sha1: Hash)
      requires Valid() && Resolved()
      modifies files
      ensures Valid() && Resolved()
      ensures files[..length] == Settle(rev, safe, old(files[..length]), names.Names, disk, sha1)
    {
      ghost var s0 := files[..length];
      ghost var target := Settle(rev, safe, s0, names.Names, disk, sha1);
      SettleKeepsFiles(rev, safe, s0, names.Names, disk, sha1);
      var k := 0;
      while k < length
        invariant 0 <= k <= length
        invariant Valid() && Resolved()
        invariant forall m :: 0 <= m < k ==> files[m] == target[m]
        invariant forall m :: k <= m < length ==> files[m] == s0[m]
      {
        forall m | 0 <= m < length ensures IdentityOf(files[m]) == IdentityOf(s0[m]) {
          if m < k {
            assert IdentitiesOf(target)[m] == IdentitiesOf(s0)[m];
          }
        }
        SettleNext(rev, safe, k, disk, sha1, s0);
        k := k + 1;
      }
      assert files[..length] == target;
    }

    /** Each record paired with its path, read through name_list_get. */
    method NamedRecords() returns (ns: seq<Named>)
      requires Valid() && Resolved()
      ensures ns == NamedOf(files[..length], names.Names)
    {
      ns := [];
      var m := 0;
      while m < length
        invariant 0 <= m <= length && |ns| == m
        invariant forall q :: 0 <= q < m ==> files[q].name in names.Names && ns[q] == Named(files[q], names.Names[files[q].name])
      {
        assert files[m] == files[..length][m];
        ns := ns + [Named(files[m], names.Get(files[m].name))];
        m := m + 1;
      }
    }

    /** Writes the sorted records back into the array. */
    method Store(sorted: seq<Named>)
      requires Valid() && |sorted| == length && Resolves(FilesOf(sorted), names.Names)
      modifies files
      ensures Valid() && Resolved()
      ensures files[..length] == FilesOf(sorted)
    {
      ghost var target := FilesOf(sorted);
      var m := 0;
      while m < length
        invariant 0 <= m <= length
        invariant forall q :: 0 <= q < m ==> files[q] == target[q]
      {
        files[m] := sorted[m].file;
        m := m + 1;
      }
      assert files[..length] == target;
    }

    /** file_list_sort: qsort under compare_files. The records end up as the
        settled records in compare_files order (SortPassPermutes,
        SortPassSettled and SortPassSorted say what that order is). */
    method Sort(rev: Revision, safe: bool, disk: Disk, sha1: Hash)
      requires Valid() && Resolved()
      modifies files
      ensures Valid() && Resolved()
      ensures files[..length] == SortPass(rev, safe, old(files[..length]), names.Names, disk, sha1)
    {
      ghost var s0 := files[..length];
      SettleAll(rev, safe, disk, sha1);
      SettleKeepsFiles(rev, safe, s0, names.Names, disk, sha1);
      var ns := NamedRecords();
      var sorted := SortNamed(ns, safe);
      assert |sorted| == length by {
        assert |multiset(sorted)| == |multiset(ns)|;
      }
      SortRecordsPermutes(files[..length], names.Names, safe);
      Store(sorted);
    }

    // -------------------------------------------------------------------
    // The grouping pass
    // -------------------------------------------------------------------

    /** The identities of records first..last. */
    ghost function BlockOf(first: nat, last: nat): (b: seq<Identity>)
      reads this, files
      requires first <= last < files.Length
      ensures |b| == last + 1 - first
      ensures forall m :: first <= m <= last ==> b[m - first] == IdentityOf(files[m])
    {
      var b := IdentitiesOf(files[first..last + 1]);
      assert forall m :: first <= m <= last ==> files[first..last + 1][m - first] == files[m];
      b
    }

    /** The identities of a block of the registry are a slice of those of
        the registry. */
    lemma BlockIdentities(first: nat, last: nat)
      requires first <= last < length <= files.Length
      ensures BlockOf(first, last) == IdentitiesOf(files[..length])[first..last + 1]
    {
      var b, ids := BlockOf(first, last), IdentitiesOf(files[..length]);
      forall m | 0 <= m < |b| ensures b[m] == ids[first..last + 1][m] {
        assert files[..length][first + m] == files[first + m];
      }
    }

    /** The first loop of print_block: every record of the block is a hard
        link to the first one. */
    method AllHardLinks(first: nat, last: nat) returns (same: bool)
      requires Valid() && first <= last < files.Length
      ensures same == AllOneInode(BlockOf(first, last))
    {
      ghost var b := BlockOf(first, last);
      var i := first + 1;
      while i <= last
        invariant first + 1 <= i <= last + 1
        invariant forall m :: first <= m < i ==> files[m].device == files[first].device && files[m].inode == files[first].inode
      {
        if files[i].device != files[first].device || files[i].inode != files[first].inode {
          assert !SameNode(b[i - first], b[0]);
          return false;
        }
        i := i + 1;
      }
      same := true;
    }

    /** The inner loop of print_block: no earlier record of the block is the
        same physical file as record i. */
    method NewFile(first: nat, i: nat, last: nat) returns (isNew: bool)
      requires Valid() && first <= i <= last < files.Length
      ensures isNew == !SeenIn(BlockOf(first, last)[..i - first], BlockOf(first, last)[i - first])
    {
      ghost var b := BlockOf(first, last);
      var j := first;
      while j < i
        invariant first <= j <= i
        invariant !SeenIn(b[..j - first], b[i - first])
      {
        if files[i].device == files[j].device && files[i].inode == files[j].inode {
          assert b[j - first] in b[..i - first];
          return false;
        }
        assert b[..j + 1 - first] == b[..j - first] + [b[j - first]];
        j := j + 1;
      }
      isNew := true;
    }

    /** print_block of src/file_list.c and src/dedup.c: a block of hard
        links only is skipped; otherwise it is printed and its lost space is
        the size of every record whose inode does not occur earlier in the
        block. */
    method PrintBlock(first: nat, last: nat) returns (lost: nat, shown: bool)
      requires Valid() && first <= last < files.Length
      ensures shown == ShownBlock(HardLinkAware, BlockOf(first, last))
      ensures lost == Lost(HardLinkAware, BlockOf(first, last))
    {
      ghost var b := BlockOf(first, last);
      var same := AllHardLinks(first, last);
      if same {
        return 0, false;
      }
      lost := 0;
      var i := first;
      while i <= last
        invariant first <= i <= last + 1
        invariant lost == NewFileSum(b[..i - first])
      {
        var isNew := NewFile(first, i, last);
        assert b[..i + 1 - first][..i - first] == b[..i - first];
        if isNew {
          lost := lost + files[i].size;
        }
        i := i + 1;
      }
      assert b[..last + 1 - first] == b;
      shown := true;
    }

    /** One block of the grouping pass under either accounting: print_block
        of the newer sources, or dedup.c's size times the number of records
        after the first, with its print_block printing every block of more
        than one record. reclaimable is what removing all but one copy of
        each distinct file of the block frees. */
    method Block(acc: Accounting, first: nat, last: nat) returns (lost: nat, reclaimable: nat, shown: bool)
      requires Valid() && first <= last < files.Length
      ensures shown == ShownBlock(acc, BlockOf(first, last))
      ensures lost == Lost(acc, BlockOf(first, last))
      ensures reclaimable == Corrected(acc, BlockOf(first, last))
    {
      ghost var b := BlockOf(first, last);
      match acc {
        case HardLinkAware =>
          lost, shown := PrintBlock(first, last);
          if shown {
            reclaimable := lost - files[first].size;
          } else {
            reclaimable := 0;
          }
        case PerRecord =>
          lost := files[first].size * (last - first);
          reclaimable := lost;
          shown := last > first;
      }
    }

    /** Block, added to the totals of the blocks before it. */
    method AddBlock(acc: Accounting, first: nat, last: nat, ghost ids: seq<Identity>, ghost done: seq<Run>,
                    lost0: nat, reclaimable0: nat, shown0: seq<Run>)
        returns (lost: nat, reclaimable: nat, shown: seq<Run>)
      requires Valid() && first <= last < length && ids == IdentitiesOf(files[..length])
      requires Tallied(acc, ids, done, lost0, reclaimable0, shown0)
      ensures Tallied(acc, ids, done + [Run(first, last)], lost, reclaimable, shown)
    {
      var l, c, sh := Block(acc, first, last);
      BlockIdentities(first, last);
      TalliedAppend(acc, ids, done, Run(first, last), lost0, reclaimable0, shown0, l, c, sh);
      lost, reclaimable := lost0 + l, reclaimable0 + c;
      shown := shown0 + if sh then [Run(first, last)] else [];
    }

    /** Records 0..|sims| were compared with their successors; sims holds
        the answers, which no further getter call can change. */
    ghost predicate Judged(sims: seq<bool>, safe: bool)
      reads this, files
    {
      && |sims| < length <= files.Length
      && forall k :: 0 <= k < |sims| ==>
           sims[k] == SimilarFiles(files[k], files[k + 1], safe) && PairSettled(files[k], files[k + 1], safe)
    }

    /** Once every adjacent pair was judged, the answers are the
        similarities of the records as they are now. */
    lemma JudgedAll(sims: seq<bool>, safe: bool)
      requires Judged(sims, safe) && |sims| + 1 == length
      ensures sims == Adjacent(files[..length], safe)
    {
      var r := Adjacent(files[..length], safe);
      forall k | 0 <= k < |sims| ensures sims[k] == r[k] {
        assert files[..length][k] == files[k] && files[..length][k + 1] == files[k + 1];
      }
    }

    /** similar_files on the next adjacent pair of the walk. */
    method JudgeNext(rev: Revision, safe: bool, i: nat, disk: Disk, sha1: Hash, ghost sims: seq<bool>) returns (sim: bool)
      requires Valid() && Resolved() && Judged(sims, safe) && i == |sims| + 1 && i < length
      modifies files
      ensures Valid() && Resolved() && Judged(sims + [sim], safe)
      ensures ExtendsEach(old(files[..]), files[..])
    {
      ghost var a := files[i - 1];
      sim := Similar(rev, i - 1, i, safe, disk, sha1);
      forall k | 0 <= k < files.Length ensures Extends(old(files[..])[k], files[..][k]) {
        if k != i - 1 && k != i {
          ExtendsReflexive(files[k]);
        }
      }
      forall k | 0 <= k < i
        ensures (sims + [sim])[k] == SimilarFiles(files[k], files[k + 1], safe)
        ensures PairSettled(files[k], files[k + 1], safe)
      {
        if k + 2 < i {
          assert files[k] == old(files[k]) && files[k + 1] == old(files[k + 1]);
        } else if k + 2 == i {
          ExtendsReflexive(files[k]);
          SettledDecisionStable(old(files[k]), a, files[k], files[k + 1], "", "", safe);
        }
      }
    }

    /** The state of the walk after records 0..end were compared with their
        successors: blocks done are tallied, start..end is the open block,
        and the records still extend those of s0. */
    ghost predicate Walking(acc: Accounting, safe: bool, s0: seq<FileId>, ids: seq<Identity>, sims: seq<bool>,
                            done: seq<Run>, start: nat, end: nat, lost: nat, reclaimable: nat, shown: seq<Run>)
      reads this, files
    {
      && Judged(sims, safe)
      && ExtendsEach(s0, files[..]) && ids == IdentitiesOf(files[..length])
      && |sims| == end && start <= end
      && Walk(sims) == done + [Run(start, end)]
      && Tallied(acc, ids, done, lost, reclaimable, shown)
    }

    /** One iteration of the walk: similar_files on records end and end + 1,
        which either extends the open block or closes it. */
    method WalkNext(acc: Accounting, rev: Revision, safe: bool, disk: Disk, sha1: Hash,
                    ghost s0: seq<FileId>, ghost ids: seq<Identity>, ghost sims: seq<bool>, ghost done: seq<Run>,
                    start: nat, end: nat, lost: nat, reclaimable: nat, shown: seq<Run>)
        returns (ghost sims': seq<bool>, ghost done': seq<Run>,
                 start': nat, end': nat, lost': nat, reclaimable': nat, shown': seq<Run>)
      requires Valid() && Resolved() && end + 1 < length
      requires Walking(acc, safe, s0, ids, sims, done, start, end, lost, reclaimable, shown)
      modifies files
      ensures Valid() && Resolved() && end' == end + 1
      ensures Walking(acc, safe, s0, ids, sims', done', start', end', lost', reclaimable', shown')
    {
      ghost var before := files[..];
      assert before[..length] == files[..length];
      var sim := JudgeNext(rev, safe, end + 1, disk, sha1, sims);
      ExtendsEachTransitive(s0, before, files[..]);
      ExtendsEachKeepsIdentities(before, files[..], length);
      assert files[..][..length] == files[..length];
      WalkAppend(sims, sim);
      sims' := sims + [sim];
      if sim {
        done', start', end' := done, start, end + 1;
        lost', reclaimable', shown' := lost, reclaimable, shown;
      } else {
        lost', reclaimable', shown' := AddBlock(acc, start, end, ids, done, lost, reclaimable, shown);
        done', start', end' := done + [Run(start, end)], end + 1, end + 1;
      }
    }

    /** The walk over a non-empty registry: similar_files on each adjacent
        pair, print_block on each maximal run of similar records. */
    method WalkBlocks(acc: Accounting, rev: Revision, safe: bool, disk: Disk, sha1: Hash)
        returns (lost: nat, reclaimable: nat, shown: seq<Run>)
      requires Valid() && Resolved() && length > 0
      modifies files
      ensures Valid() && Resolved()
      ensures ExtendsEach(old(files[..]), files[..])
      ensures var ids := IdentitiesOf(files[..length]);
              var sims := Adjacent(files[..length], safe);
              && lost == TotalLost(acc, ids, sims)
              && reclaimable == TotalCorrected(acc, ids, sims)
              && shown == TotalPrinted(acc, ids, sims)
    {
      ghost var ids, sims, done;
      var start, end, lost0, reclaimable0, shown0;
      ids, sims, done, start, end, lost0, reclaimable0, shown0 := WalkRuns(acc, rev, safe, disk, sha1);
      lost, reclaimable, shown := AddBlock(acc, start, end, ids, done, lost0, reclaimable0, shown0);
      JudgedAll(sims, safe);
      TalliedWalk(acc, ids, sims, done + [Run(start, end)], lost, reclaimable, shown);
    }

    /** The loop of the walk: every adjacent pair compared, every run but
        the last one tallied. */
    method WalkRuns(acc: Accounting, rev: Revision, safe: bool, disk: Disk, sha1: Hash)
        returns (ghost ids: seq<Identity>, ghost sims: seq<bool>, ghost done: seq<Run>,
                 start: nat, end: nat, lost: nat, reclaimable: nat, shown: seq<Run>)
      requires Valid() && Resolved() && length > 0
      modifies files
      ensures Valid() && Resolved() && end + 1 == length
      ensures Walking(acc, safe, old(files[..]), ids, sims, done, start, end, lost, reclaimable, shown)
    {
      lost, reclaimable, shown := 0, 0, [];
      start, end := 0, 0;
      ghost var s0 := files[..];
      ids := IdentitiesOf(files[..length]);
      sims, done := [], [];
      ExtendsEachReflexive(s0);
      var i := 1;
      while i < length
        invariant 1 <= i <= length && end == i - 1
        invariant Valid() && Resolved()
        invariant Walking(acc, safe, s0, ids, sims, done, start, end, lost, reclaimable, shown)
      {
        sims, done, start, end, lost, reclaimable, shown :=
          WalkNext(acc, rev, safe, disk, sha1, s0, ids, sims, done, start, end, lost, reclaimable, shown);
        i := i + 1;
      }
    }

    /** file_list_print_similar_files (src/file_list.c) and the grouping
        loops of src/dedup.c and dedup.c. lost is the total the pass
        reports, shown the blocks it prints, reclaimable the corrected
        total. An empty registry still gets print_block(0, 0), on a slot no
        scan filled, which prints and adds nothing. */
    method ReportSimilar(acc: Accounting, rev: Revision, safe: bool, disk: Disk, sha1: Hash)
        returns (lost: nat, reclaimable: nat, shown: seq<Run>)
      requires Valid() && Resolved()
      modifies files
      ensures Valid() && Resolved()
      ensures ExtendsEach(old(files[..]), files[..])
      ensures length == 0 ==> lost == 0 && reclaimable == 0 && shown == []
      ensures length > 0 ==>
                var ids := IdentitiesOf(files[..length]);
                var sims := Adjacent(files[..length], safe);
                && lost == TotalLost(acc, ids, sims)
                && reclaimable == TotalCorrected(acc, ids, sims)
                && shown == TotalPrinted(acc, ids, sims)
    {
      if length > 0 {
        lost, reclaimable, shown := WalkBlocks(acc, rev, safe, disk, sha1);
        return;
      }
      var sh;
      lost, reclaimable, sh := Block(acc, 0, 0);
      SingletonLosesNothing(acc, IdentityOf(files[0]));
      assert BlockOf(0, 0) == [IdentityOf(files[0])];
      // a single record is never printed
      shown := [];
      ExtendsEachReflexive(files[..]);
    }
  }
}
