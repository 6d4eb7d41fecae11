// compare_files and similar_files, on the values the getters leave in the
// records, and what they promise: the comparator is antisymmetric, it is a
// total order as long as the hard links whose digests it reads carry the
// same digests, similarity is exactly "the comparison fell through to the
// name tie-break", and both consult only the digests they need.
module Order {
  import opened Common
  import opened Digests

  predicate SameInode(a: FileId, b: FileId)
  {
    a.device == b.device && a.inode == b.inode
  }

  /** The end digest takes part when the files are longer than
      PARTIAL_CONTENT_SIZE, the full digest in safe mode when they are longer
      than twice that. */
  predicate UsesEnd(a: FileId)
  {
    a.size > PARTIAL_CONTENT_SIZE
  }

  predicate UsesFull(a: FileId, safe: bool)
  {
    safe && a.size > 2 * PARTIAL_CONTENT_SIZE
  }

  /** The digest chain both functions share, from the start digest on. */
  function DigestOrder(a: FileId, b: FileId, na: string, nb: string, safe: bool): int
  {
    var s := MemCmp(a.startDigest, b.startDigest);
    if s != 0 then s
    else
      var e := if UsesEnd(a) then MemCmp(a.endDigest, b.endDigest) else 0;
      if e != 0 then e
      else
        var d := if UsesFull(a, safe) then MemCmp(a.digest, b.digest) else 0;
        if d != 0 then d else StrCmp(na, nb)
  }

  /** compare_files: size, then hard links by name, then start, end and
      (in safe mode) full digests, then name; na and nb are the paths. */
  function CompareFiles(a: FileId, b: FileId, na: string, nb: string, safe: bool): (r: int)
    ensures -1 <= r <= 1
    ensures a.size != b.size ==> (r < 0 <==> a.size < b.size)
    ensures r == 0 ==> a.size == b.size && na == nb
  {
    if a.size < b.size then -1
    else if a.size > b.size then 1
    else if SameInode(a, b) then StrCmp(na, nb)
    else DigestOrder(a, b, na, nb, safe)
  }

  /** The digests that take part in the comparison are equal. */
  predicate SameDigests(a: FileId, b: FileId, safe: bool)
  {
    && a.startDigest == b.startDigest
    && (UsesEnd(a) ==> a.endDigest == b.endDigest)
    && (UsesFull(a, safe) ==> a.digest == b.digest)
  }

  /** similar_files. */
  function SimilarFiles(a: FileId, b: FileId, safe: bool): (r: bool)
    ensures r <==> a.size == b.size && (SameInode(a, b) || SameDigests(a, b, safe))
  {
    if a.size != b.size then false
    else if SameInode(a, b) then true
    else if MemCmp(a.startDigest, b.startDigest) != 0 then false
    else if UsesEnd(a) && MemCmp(a.endDigest, b.endDigest) != 0 then false
    else if UsesFull(a, safe) && MemCmp(a.digest, b.digest) != 0 then false
    else true
  }

  /** Where compare_files returns. */
  datatype Decision = BySize | ByHardLink | ByStart | ByEnd | ByFull | ByName

  function DecidedBy(a: FileId, b: FileId, safe: bool): Decision
  {
    if a.size != b.size then BySize
    else if SameInode(a, b) then ByHardLink
    else if a.startDigest != b.startDigest then ByStart
    else if UsesEnd(a) && a.endDigest != b.endDigest then ByEnd
    else if UsesFull(a, safe) && a.digest != b.digest then ByFull
    else ByName
  }

  /** similar_files holds exactly when compare_files reaches a name
      comparison; then the order is that of the names, otherwise the order
      is not 0 and does not depend on the names at all. */
  lemma SimilarIffNameDecides(a: FileId, b: FileId, na: string, nb: string, safe: bool)
    ensures SimilarFiles(a, b, safe) <==> DecidedBy(a, b, safe) == ByHardLink || DecidedBy(a, b, safe) == ByName
    ensures SimilarFiles(a, b, safe) <==> a.size == b.size && (SameInode(a, b) || SameDigests(a, b, safe))
    ensures SimilarFiles(a, b, safe) ==> CompareFiles(a, b, na, nb, safe) == StrCmp(na, nb)
    ensures !SimilarFiles(a, b, safe) ==> CompareFiles(a, b, na, nb, safe) != 0
    ensures !SimilarFiles(a, b, safe) ==> forall na', nb' :: CompareFiles(a, b, na', nb', safe) == CompareFiles(a, b, na, nb, safe)
  {
  }

  /** Only equal paths compare equal. */
  lemma CompareZeroIff(a: FileId, b: FileId, na: string, nb: string, safe: bool)
    ensures CompareFiles(a, b, na, nb, safe) == 0 <==> SimilarFiles(a, b, safe) && na == nb
  {
    SimilarIffNameDecides(a, b, na, nb, safe);
  }

  lemma SimilarSymmetric(a: FileId, b: FileId, safe: bool)
    ensures SimilarFiles(a, b, safe) == SimilarFiles(b, a, safe)
  {
    SimilarIffNameDecides(a, b, "", "", safe);
    SimilarIffNameDecides(b, a, "", "", safe);
  }

  lemma {:induction false} CompareAntisymmetric(a: FileId, b: FileId, na: string, nb: string, safe: bool)
    ensures CompareFiles(a, b, na, nb, safe) == -CompareFiles(b, a, nb, na, safe)
  {
    StrCmpAntisymmetric(na, nb);
    MemCmpAntisymmetric(a.startDigest, b.startDigest);
    MemCmpAntisymmetric(a.endDigest, b.endDigest);
    MemCmpAntisymmetric(a.digest, b.digest);
  }

  /** Hard links of one size carry the digests the comparison uses: what
      holds when every getter saw the same file content. */
  predicate Coherent(a: FileId, b: FileId, safe: bool)
  {
    SameInode(a, b) && a.size == b.size ==> SameDigests(a, b, safe)
  }

  /** The same chain without the hard-link shortcut. */
  function KeyCompare(a: FileId, b: FileId, na: string, nb: string, safe: bool): int
  {
    if a.size < b.size then -1
    else if a.size > b.size then 1
    else DigestOrder(a, b, na, nb, safe)
  }

  lemma CoherentCompareIsKey(a: FileId, b: FileId, na: string, nb: string, safe: bool)
    requires Coherent(a, b, safe)
    ensures CompareFiles(a, b, na, nb, safe) == KeyCompare(a, b, na, nb, safe)
  {
  }

  lemma DigestOrderTransitive(a: FileId, b: FileId, c: FileId, na: string, nb: string, nc: string, safe: bool)
    requires a.size == b.size == c.size
    requires DigestOrder(a, b, na, nb, safe) <= 0 && DigestOrder(b, c, nb, nc, safe) <= 0
    ensures DigestOrder(a, c, na, nc, safe) <= 0
  {
    var ab, bc, ac := MemCmp(a.startDigest, b.startDigest), MemCmp(b.startDigest, c.startDigest), MemCmp(a.startDigest, c.startDigest);
    if ab != 0 || bc != 0 {
      MemCmpTransitive(a.startDigest, b.startDigest, c.startDigest);
      MemCmpAntisymmetric(a.startDigest, c.startDigest);
      if ac == 0 {
        MemCmpAntisymmetric(a.startDigest, b.startDigest);
      }
      return;
    }
    var eab := if UsesEnd(a) then MemCmp(a.endDigest, b.endDigest) else 0;
    var ebc := if UsesEnd(b) then MemCmp(b.endDigest, c.endDigest) else 0;
    if eab != 0 || ebc != 0 {
      MemCmpTransitive(a.endDigest, b.endDigest, c.endDigest);
      MemCmpAntisymmetric(a.endDigest, b.endDigest);
      MemCmpAntisymmetric(a.endDigest, c.endDigest);
      return;
    }
    var dab := if UsesFull(a, safe) then MemCmp(a.digest, b.digest) else 0;
    var dbc := if UsesFull(b, safe) then MemCmp(b.digest, c.digest) else 0;
    if dab != 0 || dbc != 0 {
      MemCmpTransitive(a.digest, b.digest, c.digest);
      MemCmpAntisymmetric(a.digest, b.digest);
      MemCmpAntisymmetric(a.digest, c.digest);
      return;
    }
    StrCmpTransitive(na, nb, nc);
  }

  lemma KeyCompareTransitive(a: FileId, b: FileId, c: FileId, na: string, nb: string, nc: string, safe: bool)
    requires KeyCompare(a, b, na, nb, safe) <= 0 && KeyCompare(b, c, nb, nc, safe) <= 0
    ensures KeyCompare(a, c, na, nc, safe) <= 0
  {
    if a.size == b.size == c.size {
      DigestOrderTransitive(a, b, c, na, nb, nc, safe);
    }
  }

  /** compare_files is transitive on records whose hard links agree. */
  lemma CompareTransitive(a: FileId, b: FileId, c: FileId, na: string, nb: string, nc: string, safe: bool)
    requires Coherent(a, b, safe) && Coherent(b, c, safe) && Coherent(a, c, safe)
    requires CompareFiles(a, b, na, nb, safe) <= 0 && CompareFiles(b, c, nb, nc, safe) <= 0
    ensures CompareFiles(a, c, na, nc, safe) <= 0
  {
    CoherentCompareIsKey(a, b, na, nb, safe);
    CoherentCompareIsKey(b, c, nb, nc, safe);
    CoherentCompareIsKey(a, c, na, nc, safe);
    KeyCompareTransitive(a, b, c, na, nb, nc, safe);
  }

  /** similar_files is an equivalence on records whose hard links agree. */
  lemma SimilarTransitive(a: FileId, b: FileId, c: FileId, safe: bool)
    requires Coherent(a, b, safe) && Coherent(b, c, safe) && Coherent(a, c, safe)
    requires SimilarFiles(a, b, safe) && SimilarFiles(b, c, safe)
    ensures SimilarFiles(a, c, safe)
  {
    SimilarIffNameDecides(a, b, "", "", safe);
    SimilarIffNameDecides(b, c, "", "", safe);
    SimilarIffNameDecides(a, c, "", "", safe);
  }

  /** Every record of u with the size of x is a hard link of x: comparing x
      with a record of u is decided by size or by name, and never reads the
      digests of x. */
  predicate Lone(u: seq<FileId>, x: FileId)
  {
    forall k :: 0 <= k < |u| && u[k].size == x.size ==> SameInode(u[k], x)
  }

  /** Among the records of u, hard links agree on the digests a comparison
      may read; the hard links of a lone record may carry any digests. */
  predicate LinksAgree(u: seq<FileId>, safe: bool)
  {
    forall i, j :: 0 <= i < |u| && 0 <= j < |u| ==> Lone(u, u[i]) || Coherent(u[i], u[j], safe)
  }

  /** compare_files is transitive on the records of a list whose hard links
      agree wherever a comparison could read their digests. */
  lemma CompareTransitiveAmong(u: seq<FileId>, a: FileId, b: FileId, c: FileId, na: string, nb: string, nc: string, safe: bool)
    requires LinksAgree(u, safe) && a in u && b in u && c in u
    requires CompareFiles(a, b, na, nb, safe) <= 0 && CompareFiles(b, c, nb, nc, safe) <= 0
    ensures CompareFiles(a, c, na, nc, safe) <= 0
  {
    if a.size == b.size == c.size {
      var ia :| 0 <= ia < |u| && u[ia] == a;
      var ib :| 0 <= ib < |u| && u[ib] == b;
      var ic :| 0 <= ic < |u| && u[ic] == c;
      if Lone(u, a) || Lone(u, b) || Lone(u, c) {
        assert SameInode(a, b) && SameInode(b, c) && SameInode(a, c) by {
          if Lone(u, a) {
            assert SameInode(u[ib], a) && SameInode(u[ic], a);
          } else if Lone(u, b) {
            assert SameInode(u[ia], b) && SameInode(u[ic], b);
          } else {
            assert SameInode(u[ia], c) && SameInode(u[ib], c);
          }
        }
        StrCmpTransitive(na, nb, nc);
      } else {
        assert Coherent(u[ia], u[ib], safe) && Coherent(u[ib], u[ic], safe) && Coherent(u[ia], u[ic], safe);
        CompareTransitive(a, b, c, na, nb, nc, safe);
      }
    }
  }

  function DigestStartingWith(x: byte): (d: Digest)
    ensures d[0] == x
  {
    [x] + seq(DIGEST_SIZE - 1, _ => 0)
  }

  /** Without coherence compare_files is not transitive: a and b are hard
      links whose start digests differ (one of them was read after the file
      changed), c is another file of the same size. Then a <= b by name,
      b <= c by start digest, yet a > c. */
  lemma IncoherentNotTransitive()
    ensures var a := FileId(0, 1, 1, 2000, DigestStartingWith(2), ZERO_DIGEST, ZERO_DIGEST, true, false, false, false);
            var b := FileId(1, 1, 1, 2000, DigestStartingWith(0), ZERO_DIGEST, ZERO_DIGEST, true, false, false, false);
            var c := FileId(2, 1, 2, 2000, DigestStartingWith(1), ZERO_DIGEST, ZERO_DIGEST, true, false, false, false);
            && !Coherent(a, b, false)
            && CompareFiles(a, b, "/d/a", "/d/b", false) < 0
            && CompareFiles(b, c, "/d/b", "/d/c", false) < 0
            && CompareFiles(a, c, "/d/a", "/d/c", false) > 0
  {
    var a := FileId(0, 1, 1, 2000, DigestStartingWith(2), ZERO_DIGEST, ZERO_DIGEST, true, false, false, false);
    var b := FileId(1, 1, 1, 2000, DigestStartingWith(0), ZERO_DIGEST, ZERO_DIGEST, true, false, false, false);
    var c := FileId(2, 1, 2, 2000, DigestStartingWith(1), ZERO_DIGEST, ZERO_DIGEST, true, false, false, false);
    assert StrCmp("/d/a", "/d/b") < 0 by {
      assert Codes("/d/a")[..3] == Codes("/d/b")[..3];
      assert Lex(Codes("/d/a"), Codes("/d/b")) == Lex(Codes("/d/a")[3..], Codes("/d/b")[3..]);
    }
    assert MemCmp(b.startDigest, c.startDigest) < 0;
    assert MemCmp(a.startDigest, c.startDigest) > 0;
  }

  // ---------------------------------------------------------------------
  // Which digests a comparison consults
  // ---------------------------------------------------------------------

  /** The tiers whose getters compare_files and similar_files call on both
      records, evaluated on the values those getters return. */
  function Consulted(a: FileId, b: FileId, safe: bool): set<Tier>
  {
    if a.size != b.size || SameInode(a, b) then {}
    else if a.startDigest != b.startDigest then {Start}
    else if UsesEnd(a) && a.endDigest != b.endDigest then {Start, End}
    else {Start} + (if UsesEnd(a) then {End} else {}) + (if UsesFull(a, safe) then {Full} else {})
  }

  /** Every tier the comparison consults is settled in both records. */
  predicate PairSettled(a: FileId, b: FileId, safe: bool)
  {
    forall t :: t in Consulted(a, b, safe) ==> Settled(a, t) && Settled(b, t)
  }

  /** Once the consulted tiers are settled, further getter calls cannot
      change the outcome: the consulted tiers, the order and the similarity
      stay what they are. */
  lemma SettledDecisionStable(a: FileId, b: FileId, a': FileId, b': FileId, na: string, nb: string, safe: bool)
    requires PairSettled(a, b, safe) && Extends(a, a') && Extends(b, b')
    ensures Consulted(a', b', safe) == Consulted(a, b, safe)
    ensures PairSettled(a', b', safe)
    ensures CompareFiles(a', b', na, nb, safe) == CompareFiles(a, b, na, nb, safe)
    ensures SimilarFiles(a', b', safe) == SimilarFiles(a, b, safe)
  {
    assert Start in Consulted(a, b, safe) ==> a'.startDigest == a.startDigest && b'.startDigest == b.startDigest;
    assert End in Consulted(a, b, safe) ==> a'.endDigest == a.endDigest && b'.endDigest == b.endDigest;
    assert Full in Consulted(a, b, safe) ==> a'.digest == a.digest && b'.digest == b.digest;
  }

  /** The end digest is asked for only above PARTIAL_CONTENT_SIZE bytes: a
      pair of 4096-byte files never consults it, a pair of 4097-byte files
      that are not hard links and share the start digest does. The full
      digest likewise starts at 8193 bytes in safe mode. */
  lemma PartialSizeBoundary(a: FileId, b: FileId, safe: bool)
    ensures a.size == PARTIAL_CONTENT_SIZE ==> End !in Consulted(a, b, safe) && Full !in Consulted(a, b, safe)
    ensures a.size == b.size == PARTIAL_CONTENT_SIZE + 1 && !SameInode(a, b) && a.startDigest == b.startDigest
            ==> End in Consulted(a, b, safe) && Full !in Consulted(a, b, safe)
    ensures a.size == b.size == 2 * PARTIAL_CONTENT_SIZE && !SameInode(a, b) && a.startDigest == b.startDigest
            ==> Full !in Consulted(a, b, safe)
    ensures a.size == b.size == 2 * PARTIAL_CONTENT_SIZE + 1 && !SameInode(a, b)
            && a.startDigest == b.startDigest && a.endDigest == b.endDigest
            ==> (Full in Consulted(a, b, safe) <==> safe)
  {
  }

  // ---------------------------------------------------------------------
  // The sort
  // ---------------------------------------------------------------------

  /** A record with the path its handle designates. */
  datatype Named = Named(file: FileId, path: CString)

  function Cmp(x: Named, y: Named, safe: bool): int
  {
    CompareFiles(x.file, y.file, x.path, y.path, safe)
  }

  predicate Sorted(s: seq<Named>, safe: bool)
  {
    forall i, j :: 0 <= i < j < |s| ==> Cmp(s[i], s[j], safe) <= 0
  }

  function Insert(x: Named, s: seq<Named>, safe: bool): (r: seq<Named>)
    ensures multiset(r) == multiset(s) + multiset{x}
  {
    if s == [] then [x]
    else if Cmp(x, s[0], safe) <= 0 then [x] + s
    else
      var r := [s[0]] + Insert(x, s[1..], safe);
      assert s == [s[0]] + s[1..];
      r
  }

  /** The order qsort leaves: the records sorted under compare_files. */
  function SortNamed(s: seq<Named>, safe: bool): (r: seq<Named>)
    ensures multiset(r) == multiset(s)
  {
    if s == [] then []
    else
      var r := Insert(s[0], SortNamed(s[1..], safe), safe);
      assert s == [s[0]] + s[1..];
      r
  }

  lemma SortedCons(a: Named, t: seq<Named>, safe: bool)
    requires Sorted(t, safe)
    requires forall y :: y in t ==> Cmp(a, y, safe) <= 0
    ensures Sorted([a] + t, safe)
  {
    forall i, j | 0 <= i < j < |[a] + t|
      ensures Cmp(([a] + t)[i], ([a] + t)[j], safe) <= 0
    {
      assert ([a] + t)[j] == t[j - 1];
      if i > 0 {
        assert ([a] + t)[i] == t[i - 1];
      }
    }
  }

  lemma SortedTail(s: seq<Named>, safe: bool)
    requires s != [] && Sorted(s, safe)
    ensures Sorted(s[1..], safe)
    ensures forall y :: y in s[1..] ==> Cmp(s[0], y, safe) <= 0
  {
    forall i, j | 0 <= i < j < |s[1..]|
      ensures Cmp(s[1..][i], s[1..][j], safe) <= 0
    {
      assert s[1..][i] == s[i + 1] && s[1..][j] == s[j + 1];
    }
  }

  /** All records of a list are drawn from u. */
  predicate Within(s: seq<Named>, u: seq<FileId>)
  {
    forall y :: y in s ==> y.file in u
  }

  lemma {:induction false} InsertSorted(u: seq<FileId>, x: Named, s: seq<Named>, safe: bool)
    requires LinksAgree(u, safe) && x.file in u && Within(s, u)
    requires Sorted(s, safe)
    ensures Sorted(Insert(x, s, safe), safe)
  {
    if s == [] {
      return;
    }
    SortedTail(s, safe);
    if Cmp(x, s[0], safe) <= 0 {
      forall y | y in s
        ensures Cmp(x, y, safe) <= 0
      {
        if y != s[0] {
          assert y in s[1..];
          CompareTransitiveAmong(u, x.file, s[0].file, y.file, x.path, s[0].path, y.path, safe);
        }
      }
      SortedCons(x, s, safe);
    } else {
      CompareAntisymmetric(x.file, s[0].file, x.path, s[0].path, safe);
      InsertSorted(u, x, s[1..], safe);
      var r := Insert(x, s[1..], safe);
      forall y | y in r
        ensures Cmp(s[0], y, safe) <= 0
      {
        assert y in multiset(r);
        if y != x {
          assert y in multiset(s[1..]);
        }
      }
      SortedCons(s[0], r, safe);
    }
  }

  /** The sort leaves a list drawn from u sorted, when the hard links of u
      agree wherever a comparison reads their digests. */
  lemma {:induction false} SortNamedSorted(u: seq<FileId>, s: seq<Named>, safe: bool)
    requires LinksAgree(u, safe) && Within(s, u)
    ensures Sorted(SortNamed(s, safe), safe)
  {
    if s != [] {
      assert Within(s[1..], u) by {
        forall y | y in s[1..] ensures y.file in u {
          assert y in s;
        }
      }
      SortNamedSorted(u, s[1..], safe);
      var t := SortNamed(s[1..], safe);
      assert Within(t, u) by {
        forall y | y in t ensures y.file in u {
          assert y in multiset(s[1..]);
          assert y in s;
        }
      }
      InsertSorted(u, s[0], t, safe);
    }
  }

  /** Sorting a sorted list changes nothing. */
  lemma {:induction false} SortNamedIdempotent(s: seq<Named>, safe: bool)
    requires Sorted(s, safe)
    ensures SortNamed(s, safe) == s
  {
    if s != [] {
      SortedTail(s, safe);
      SortNamedIdempotent(s[1..], safe);
      if |s| > 1 {
        assert Cmp(s[0], s[1..][0], safe) <= 0;
      }
      assert [s[0]] + s[1..] == s;
    }
  }

  /** Sorting twice sorts once, for records whose hard links agree. */
  lemma SortNamedTwice(u: seq<FileId>, s: seq<Named>, safe: bool)
    requires LinksAgree(u, safe) && Within(s, u)
    ensures SortNamed(SortNamed(s, safe), safe) == SortNamed(s, safe)
  {
    SortNamedSorted(u, s, safe);
    SortNamedIdempotent(SortNamed(s, safe), safe);
  }
}
