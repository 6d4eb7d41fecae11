// The three lazily computed digests of a record (start_digest, end_digest,
// digest). Each getter is one transition of a small state machine on the
// record: a tier that is settled (computed before, or the file vanished)
// is returned without any I/O; otherwise the file is opened, the bytes the
// tier covers are hashed and stored, or, when opening or seeking fails, the
// record is marked vanished.
//
// The two revisions differ in one place only: src/file_list.c sets the
// "evaluated" flag after a successful hash, dedup.c sets it on every path
// (its `end:` label), failures included. RevisionsAgree proves that this
// difference is never observable.
module Digests {
  import opened Common

  /** Modular: the getters of src/file_list.c. Legacy: those of dedup.c. */
  datatype Revision = Modular | Legacy

  /** The three digests: first bytes, last bytes, whole content. */
  datatype Tier = Start | End | Full

  /** The fread buffer of digest(): READ_BLOCK_SIZE, 4 KiB in
      src/file_list.c and 64 KiB in dedup.c. */
  function ReadBlockSize(rev: Revision): (n: nat)
    ensures n > 0
  {
    match rev
    case Modular => 4 * 1024
    case Legacy => 64 * 1024
  }

  function Evaluated(f: FileId, t: Tier): bool
  {
    match t
    case Start => f.startEvaluated
    case End => f.endEvaluated
    case Full => f.digestEvaluated
  }

  function DigestOf(f: FileId, t: Tier): Digest
  {
    match t
    case Start => f.startDigest
    case End => f.endDigest
    case Full => f.digest
  }

  /** The getter of tier t returns at once, without opening the file. */
  predicate Settled(f: FileId, t: Tier)
  {
    f.vanished || Evaluated(f, t)
  }

  function MarkEvaluated(f: FileId, t: Tier): (g: FileId)
    ensures Evaluated(g, t)
  {
    match t
    case Start => f.(startEvaluated := true)
    case End => f.(endEvaluated := true)
    case Full => f.(digestEvaluated := true)
  }

  function StoreDigest(f: FileId, t: Tier, d: Digest): (g: FileId)
    ensures DigestOf(g, t) == d
  {
    match t
    case Start => f.(startDigest := d)
    case End => f.(endDigest := d)
    case Full => f.(digest := d)
  }

  function Min(a: nat, b: nat): nat
  {
    if a <= b then a else b
  }

  /** What one fread of PARTIAL_CONTENT_SIZE bytes from the start returns. */
  function StartBytes(content: seq<byte>): (r: seq<byte>)
    ensures |r| == Min(|content|, PARTIAL_CONTENT_SIZE) && r == content[..|r|]
  {
    content[..Min(|content|, PARTIAL_CONTENT_SIZE)]
  }

  /** What one fread of PARTIAL_CONTENT_SIZE bytes returns after
      fseek(size - PARTIAL_CONTENT_SIZE): size is the size stat reported
      during the scan; the file may have shrunk since, and a position at or
      beyond its end reads nothing. */
  function EndBytes(content: seq<byte>, size: nat): (r: seq<byte>)
    requires size >= PARTIAL_CONTENT_SIZE
    ensures |r| <= PARTIAL_CONTENT_SIZE
    ensures |content| == size ==> r == content[size - PARTIAL_CONTENT_SIZE..]
  {
    var off := size - PARTIAL_CONTENT_SIZE;
    if off >= |content| then [] else content[off..Min(|content|, off + PARTIAL_CONTENT_SIZE)]
  }

  /** The bytes the getter of tier t hashes, or None when fopen fails or
      fseek is refused. The offset size - PARTIAL_CONTENT_SIZE is computed in
      size_t; below PARTIAL_CONTENT_SIZE it wraps to a value that is negative
      as a long, which fseek refuses. */
  function Read(t: Tier, file: Option<OpenFile>, size: nat): (r: Option<seq<byte>>)
    ensures file.None? ==> r.None?
    ensures t != End ==> (r.Some? <==> file.Some?)
    ensures r.Some? ==> |r.value| <= |file.value.content|
  {
    match file
    case None => None
    case Some(o) =>
      match t
      case Start => Some(StartBytes(o.content))
      case End => if size < PARTIAL_CONTENT_SIZE || !o.seekable then None else Some(EndBytes(o.content, size))
      case Full => Some(o.content)
  }

  /** The tail of a getter, at its `end:` label. */
  function Leave(rev: Revision, f: FileId, t: Tier): FileId
  {
    if rev == Legacy then MarkEvaluated(f, t) else f
  }

  /** One call of the getter of tier t, given what fopen would return. */
  function Step(rev: Revision, t: Tier, f: FileId, file: Option<OpenFile>, sha1: Hash): (g: FileId)
    ensures SameFile(f, g) && Settled(g, t)
    ensures f.vanished ==> g.vanished && DigestOf(g, t) == DigestOf(f, t)
  {
    if Settled(f, t) then Leave(rev, f, t)
    else match Read(t, file, f.size)
      case None => Leave(rev, f.(vanished := true), t)
      case Some(bytes) => MarkEvaluated(StoreDigest(f, t, sha1(bytes)), t)
  }

  /** The record's path, identity and size. */
  predicate SameFile(f: FileId, g: FileId)
  {
    f.name == g.name && f.device == g.device && f.inode == g.inode && f.size == g.size
  }

  /** Tier t is the same in both records. */
  predicate TierKept(f: FileId, g: FileId, t: Tier)
  {
    Evaluated(g, t) == Evaluated(f, t) && DigestOf(g, t) == DigestOf(f, t)
  }

  /** g is f after some getter calls: the same file, a vanished record stays
      vanished, and a settled tier stays settled with the digest it had. */
  predicate Extends(f: FileId, g: FileId)
  {
    && SameFile(f, g)
    && (f.vanished ==> g.vanished)
    && (Settled(f, Start) ==> Settled(g, Start) && DigestOf(g, Start) == DigestOf(f, Start))
    && (Settled(f, End) ==> Settled(g, End) && DigestOf(g, End) == DigestOf(f, End))
    && (Settled(f, Full) ==> Settled(g, Full) && DigestOf(g, Full) == DigestOf(f, Full))
  }

  lemma ExtendsReflexive(f: FileId)
    ensures Extends(f, f)
  {
  }

  lemma ExtendsTransitive(f: FileId, g: FileId, h: FileId)
    requires Extends(f, g) && Extends(g, h)
    ensures Extends(f, h)
  {
  }

  /** After a getter call its tier is settled, the other tiers are
      untouched, and the record extends the one before. */
  lemma StepSettles(rev: Revision, t: Tier, f: FileId, file: Option<OpenFile>, sha1: Hash)
    ensures Settled(Step(rev, t, f, file, sha1), t)
    ensures rev == Legacy ==> Evaluated(Step(rev, t, f, file, sha1), t)
    ensures forall u :: u != t ==> TierKept(f, Step(rev, t, f, file, sha1), u)
    ensures Extends(f, Step(rev, t, f, file, sha1))
  {
  }

  /** A settled tier is a memo: the call does not depend on the file system,
      and it changes no digest and no vanished flag (src/file_list.c changes
      nothing at all). */
  lemma StepMemo(rev: Revision, t: Tier, f: FileId, file1: Option<OpenFile>, file2: Option<OpenFile>, sha1: Hash)
    requires Settled(f, t)
    ensures Step(rev, t, f, file1, sha1) == Step(rev, t, f, file2, sha1)
    ensures rev == Modular ==> Step(rev, t, f, file1, sha1) == f
    ensures Step(rev, t, f, file1, sha1) == f.(startEvaluated := Step(rev, t, f, file1, sha1).startEvaluated,
                                                endEvaluated := Step(rev, t, f, file1, sha1).endEvaluated,
                                                digestEvaluated := Step(rev, t, f, file1, sha1).digestEvaluated)
  {
  }

  /** When the bytes can be read, the tier's digest becomes the hash of
      exactly those bytes and the record is not marked vanished. */
  lemma StepSuccess(rev: Revision, t: Tier, f: FileId, file: Option<OpenFile>, sha1: Hash)
    requires !Settled(f, t) && Read(t, file, f.size).Some?
    ensures DigestOf(Step(rev, t, f, file, sha1), t) == sha1(Read(t, file, f.size).value)
    ensures Evaluated(Step(rev, t, f, file, sha1), t)
    ensures !Step(rev, t, f, file, sha1).vanished
  {
  }

  /** When fopen fails, or fseek does for the end digest, the record is
      marked vanished and the digest keeps its previous value; only dedup.c
      marks the tier evaluated. */
  lemma StepFailure(rev: Revision, t: Tier, f: FileId, file: Option<OpenFile>, sha1: Hash)
    requires !Settled(f, t) && Read(t, file, f.size).None?
    ensures Step(rev, t, f, file, sha1).vanished
    ensures DigestOf(Step(rev, t, f, file, sha1), t) == DigestOf(f, t)
    ensures Evaluated(Step(rev, t, f, file, sha1), t) <==> rev == Legacy
  {
  }

  /** The end digest of a file whose content still has the scanned size
      covers exactly its last PARTIAL_CONTENT_SIZE bytes; the start digest its
      first ones. */
  lemma PartialBytes(o: OpenFile, size: nat)
    requires |o.content| == size && size > PARTIAL_CONTENT_SIZE && o.seekable
    ensures Read(End, Some(o), size) == Some(o.content[size - PARTIAL_CONTENT_SIZE..])
    ensures Read(Start, Some(o), size) == Some(o.content[..PARTIAL_CONTENT_SIZE])
  {
  }

  /** The observable part of a record: everything but the evaluated flags. */
  predicate Agree(m: FileId, l: FileId)
  {
    && m.(startEvaluated := false, endEvaluated := false, digestEvaluated := false)
       == l.(startEvaluated := false, endEvaluated := false, digestEvaluated := false)
    && (Settled(m, Start) <==> Settled(l, Start))
    && (Settled(m, End) <==> Settled(l, End))
    && (Settled(m, Full) <==> Settled(l, Full))
  }

  /** The revisions compute the same digests: records that agree keep
      agreeing after the same getter call on the same file system. */
  lemma RevisionsAgree(t: Tier, m: FileId, l: FileId, file: Option<OpenFile>, sha1: Hash)
    requires Agree(m, l)
    ensures Agree(Step(Modular, t, m, file, sha1), Step(Legacy, t, l, file, sha1))
  {
  }

  /** Successive calls of one getter, each seeing the file system of its
      own moment. */
  function Calls(rev: Revision, t: Tier, f: FileId, files: seq<Option<OpenFile>>, sha1: Hash): FileId
    decreases |files|
  {
    if files == [] then f else Calls(rev, t, Step(rev, t, f, files[0], sha1), files[1..], sha1)
  }

  /** How many of those calls open the file. */
  function Opens(rev: Revision, t: Tier, f: FileId, files: seq<Option<OpenFile>>, sha1: Hash): nat
    decreases |files|
  {
    if files == [] then 0
    else (if Settled(f, t) then 0 else 1) + Opens(rev, t, Step(rev, t, f, files[0], sha1), files[1..], sha1)
  }

  lemma {:induction false} SettledOpensNothing(rev: Revision, t: Tier, f: FileId, files: seq<Option<OpenFile>>, sha1: Hash)
    requires Settled(f, t)
    ensures Opens(rev, t, f, files, sha1) == 0
    ensures DigestOf(Calls(rev, t, f, files, sha1), t) == DigestOf(f, t)
    decreases |files|
  {
    if files != [] {
      SettledOpensNothing(rev, t, Step(rev, t, f, files[0], sha1), files[1..], sha1);
    }
  }

  /** Each digest of a file is read at most once however often it is asked
      for, and every later call returns what the first one stored. */
  lemma {:induction false} AtMostOneOpen(rev: Revision, t: Tier, f: FileId, files: seq<Option<OpenFile>>, sha1: Hash)
    ensures Opens(rev, t, f, files, sha1) <= 1
    ensures files != [] ==>
      DigestOf(Calls(rev, t, f, files, sha1), t) == DigestOf(Step(rev, t, f, files[0], sha1), t)
  {
    if files != [] {
      var g := Step(rev, t, f, files[0], sha1);
      SettledOpensNothing(rev, t, g, files[1..], sha1);
    }
  }

  /** The fread loop of digest(): blocks of at most blockSize bytes are fed
      to the hash until fread returns 0. The hash context is modelled by the
      bytes fed so far. */
  method ReadAll(content: seq<byte>, blockSize: nat) returns (fed: seq<byte>)
    requires blockSize > 0
    ensures fed == content
  {
    fed := [];
    var pos := 0;
    while true
      invariant 0 <= pos <= |content| && fed == content[..pos]
      decreases |content| - pos
    {
      var len := Min(blockSize, |content| - pos);
      if len == 0 {
        break;
      }
      fed := fed + content[pos..pos + len];
      pos := pos + len;
    }
  }
}
