// The directory scan, stated over an abstract directory tree: what readdir
// lists, whether opendir succeeds and what stat reports are part of the tree,
// and the ignore patterns are an uninterpreted predicate on paths.
//
// ScanDir is the specification every scan of the model is proved against:
// the sequence of (path, stat) pairs a scan accepts, in readdir order.
module Tree {
  import opened Common

  /** A directory entry as readdir reports it (d_type decides the kind).
      A directory carries whether opendir succeeds on it and its own
      listing; a regular file carries what stat reports, None when stat
      fails. "." and ".." are directories like any other entry. */
  datatype Entry =
    | Directory(name: CString, readable: bool, entries: seq<Entry>)
    | Regular(name: CString, stat: Option<Stat>)
    | Other(name: CString)

  /** A file the scan accepted, with the stat result that was recorded. */
  datatype Found = Found(path: CString, stat: Stat)

  /** The scan's configuration: the size threshold, the ignore predicate on
      directory paths (fnmatch over the configured patterns) and whether
      dot-entries are visited. */
  datatype Policy = Policy(minSize: nat, ignored: CString -> bool, showHidden: bool)

  /** src/file_list.c and src/dedup.c: MINIMAL_FILE_SIZE. */
  const MINIMAL_FILE_SIZE: nat := 1024

  predicate Hidden(name: string)
  {
    |name| > 0 && name[0] == '.'
  }

  predicate IsSelfOrParent(name: string)
  {
    name == "." || name == ".."
  }

  function Size(e: Entry): (n: nat)
    ensures n >= 1
    decreases e
  {
    match e
    case Directory(_, _, es) => 1 + SizeAll(es)
    case _ => 1
  }

  function SizeAll(es: seq<Entry>): nat
    decreases es
  {
    if es == [] then 0 else SizeAll(es[..|es| - 1]) + Size(es[|es| - 1])
  }

  lemma {:induction false} SizeOfMember(es: seq<Entry>, k: nat)
    requires k < |es|
    ensures Size(es[k]) <= SizeAll(es)
    decreases |es|
  {
    if k < |es| - 1 {
      SizeOfMember(es[..|es| - 1], k);
    }
  }

  lemma SizeOfPrefix(es: seq<Entry>, k: nat)
    requires k < |es|
    ensures SizeAll(es[..k + 1]) == SizeAll(es[..k]) + Size(es[k])
  {
    assert es[..k + 1][..k] == es[..k];
  }

  /** p lies strictly below directory d. */
  predicate Under(d: string, p: string)
  {
    |p| > |d| && p[..|d|] == d && p[|d|] == '/'
  }

  lemma UnderJoin(d: CString, n: CString, p: string)
    requires Under(Join(d, n), p)
    ensures Under(d, p)
  {
    assert p[..|d|] == p[..|Join(d, n)|][..|d|];
  }

  /** What scanning the directory at path accepts: nothing when the path is
      ignored or opendir fails, otherwise what its entries yield. */
  function ScanDir(p: Policy, path: CString, readable: bool, es: seq<Entry>): (r: seq<Found>)
    ensures p.ignored(path) || !readable ==> r == []
    ensures forall f :: f in r ==> f.stat.size >= p.minSize && Under(path, f.path)
    decreases SizeAll(es), 2
  {
    if p.ignored(path) || !readable then [] else ScanEntries(p, path, es)
  }

  /** What the entries of one directory yield, in readdir order. */
  function ScanEntries(p: Policy, path: CString, es: seq<Entry>): (r: seq<Found>)
    ensures forall f :: f in r ==> f.stat.size >= p.minSize && Under(path, f.path)
    decreases SizeAll(es), 1
  {
    if es == [] then []
    else ScanEntries(p, path, es[..|es| - 1]) + ScanEntry(p, path, es[|es| - 1])
  }

  /** What one entry yields: dot-entries are skipped unless hidden files are
      shown, "." and ".." are never entered, other directories are scanned
      recursively, a regular file is kept when stat succeeds and its size
      reaches the threshold, anything else is ignored. */
  function ScanEntry(p: Policy, path: CString, e: Entry): (r: seq<Found>)
    ensures forall f :: f in r ==> f.stat.size >= p.minSize && Under(path, f.path)
    decreases Size(e), 0
  {
    if Hidden(e.name) && !p.showHidden then []
    else match e
      case Directory(n, readable, es) =>
        if IsSelfOrParent(n) then []
        else
          var r := ScanDir(p, Join(path, n), readable, es);
          forall f | f in r ensures Under(path, f.path) { UnderJoin(path, n, f.path); }
          r
      case Regular(n, st) =>
        if st.Some? && st.value.size >= p.minSize then [Found(Join(path, n), st.value)] else []
      case Other(_) => []
  }

  /** A regular entry is accepted exactly when it is visible under the
      policy, stat succeeds and the size reaches the threshold. */
  lemma RegularAcceptedIff(p: Policy, path: CString, n: CString, st: Option<Stat>)
    ensures |ScanEntry(p, path, Regular(n, st))| <= 1
    ensures ScanEntry(p, path, Regular(n, st)) != [] <==>
              (p.showHidden || !Hidden(n)) && st.Some? && st.value.size >= p.minSize
    ensures ScanEntry(p, path, Regular(n, st)) != [] ==>
              ScanEntry(p, path, Regular(n, st)) == [Found(Join(path, n), st.value)]
  {
  }

  /** "." and ".." add nothing, whatever listing they carry. */
  lemma SelfAndParentNotEntered(p: Policy, path: CString, n: CString, readable: bool, es: seq<Entry>)
    requires IsSelfOrParent(n)
    ensures ScanEntry(p, path, Directory(n, readable, es)) == []
  {
  }

  /** With hidden files not shown, a dot-entry adds nothing. */
  lemma HiddenSkipped(p: Policy, path: CString, e: Entry)
    requires Hidden(e.name) && !p.showHidden
    ensures ScanEntry(p, path, e) == []
  {
  }

  /** The threshold is inclusive: a file of MINIMAL_FILE_SIZE - 1 bytes is
      dropped, one of MINIMAL_FILE_SIZE bytes is kept. */
  lemma ThresholdBoundary(ignored: CString -> bool, path: CString, n: CString, dev: nat, ino: nat)
    requires !Hidden(n)
    ensures ScanEntry(Policy(MINIMAL_FILE_SIZE, ignored, false), path,
                      Regular(n, Some(Stat(MINIMAL_FILE_SIZE - 1, dev, ino)))) == []
    ensures ScanEntry(Policy(MINIMAL_FILE_SIZE, ignored, false), path,
                      Regular(n, Some(Stat(MINIMAL_FILE_SIZE, dev, ino))))
            == [Found(Join(path, n), Stat(MINIMAL_FILE_SIZE, dev, ino))]
  {
  }

  /** Scanning a listing entry by entry: the prefix property the readdir
      loops rely on. */
  lemma ScanEntriesPrefix(p: Policy, path: CString, es: seq<Entry>, k: nat)
    requires k < |es|
    ensures ScanEntries(p, path, es[..k + 1]) == ScanEntries(p, path, es[..k]) + ScanEntry(p, path, es[k])
  {
    assert es[..k + 1][..k] == es[..k];
  }

  /** Showing hidden files never loses a file: every file a scan that skips
      dot-entries accepts is also accepted when they are shown. */
  lemma {:induction false} ShowingHiddenOnlyAdds(m: nat, ig: CString -> bool, path: CString, readable: bool, es: seq<Entry>)
    ensures forall f :: f in ScanDir(Policy(m, ig, false), path, readable, es) ==>
                        f in ScanDir(Policy(m, ig, true), path, readable, es)
    decreases SizeAll(es), 2
  {
    if !ig(path) && readable {
      ShowingHiddenOnlyAddsEntries(m, ig, path, es);
    }
  }

  lemma {:induction false} ShowingHiddenOnlyAddsEntries(m: nat, ig: CString -> bool, path: CString, es: seq<Entry>)
    ensures forall f :: f in ScanEntries(Policy(m, ig, false), path, es) ==>
                        f in ScanEntries(Policy(m, ig, true), path, es)
    decreases SizeAll(es), 1
  {
    if es != [] {
      var skipDots, showDots := Policy(m, ig, false), Policy(m, ig, true);
      ShowingHiddenOnlyAddsEntries(m, ig, path, es[..|es| - 1]);
      var e := es[|es| - 1];
      if e.Directory? && !IsSelfOrParent(e.name) && !Hidden(e.name) {
        assert SizeAll(e.entries) < Size(e) <= SizeAll(es);
        ShowingHiddenOnlyAdds(m, ig, Join(path, e.name), e.readable, e.entries);
      }
      assert forall f :: f in ScanEntry(skipDots, path, e) ==> f in ScanEntry(showDots, path, e);
    }
  }
}
