// Types and helpers shared by the whole dedup model: bytes and C strings,
// the lexicographic comparisons behind strcmp and memcmp, the per-file record
// (t_file_id), and the abstraction of the file system that digests read from.
module Common {

  /** An unsigned char. */
  type byte = x: int | 0 <= x < 256

  datatype Option<T> = None | Some(value: T)

  const DIGEST_SIZE: nat := 20
  const PARTIAL_CONTENT_SIZE: nat := 4 * 1024

  /** A SHA-1 value: DIGEST_SIZE bytes. */
  type Digest = d: seq<byte> | |d| == DIGEST_SIZE witness [0, 0, 0, 0, 0, 0, 0, 0, 0, 0, 0, 0, 0, 0, 0, 0, 0, 0, 0, 0]

  /** The value a digest has after the record was cleared (memset to 0). */
  const ZERO_DIGEST: Digest := [0, 0, 0, 0, 0, 0, 0, 0, 0, 0, 0, 0, 0, 0, 0, 0, 0, 0, 0, 0]

  /** A C string: it cannot contain the terminating NUL character. */
  type CString = s: string | '\0' !in s

  // ---------------------------------------------------------------------
  // Lexicographic comparison (the sign of strcmp / memcmp)
  // ---------------------------------------------------------------------

  /** Three-way lexicographic comparison; a proper prefix comes first.
      memcmp and strcmp only promise the sign of their result, so the model
      returns -1, 0 or +1. */
  function Lex(a: seq<int>, b: seq<int>): (r: int)
    ensures -1 <= r <= 1
    ensures r == 0 <==> a == b
  {
    if |a| == 0 then (if |b| == 0 then 0 else -1)
    else if |b| == 0 then 1
    else if a[0] < b[0] then -1
    else if a[0] > b[0] then 1
    else
      var r := Lex(a[1..], b[1..]);
      assert a == [a[0]] + a[1..] && b == [b[0]] + b[1..];
      r
  }

  lemma {:induction false} LexAntisymmetric(a: seq<int>, b: seq<int>)
    ensures Lex(a, b) == -Lex(b, a)
  {
    if |a| > 0 && |b| > 0 && a[0] == b[0] {
      LexAntisymmetric(a[1..], b[1..]);
    }
  }

  lemma {:induction false} LexTransitive(a: seq<int>, b: seq<int>, c: seq<int>)
    requires Lex(a, b) <= 0 && Lex(b, c) <= 0
    ensures Lex(a, c) <= 0
  {
    if |a| > 0 && |b| > 0 && |c| > 0 && a[0] == b[0] && b[0] == c[0] {
      LexTransitive(a[1..], b[1..], c[1..]);
    }
  }

  /** The character codes of a string, the unsigned chars strcmp compares. */
  function Codes(s: string): (r: seq<int>)
    ensures |r| == |s|
    ensures forall i :: 0 <= i < |s| ==> r[i] == s[i] as int
  {
    seq(|s|, i requires 0 <= i < |s| => s[i] as int)
  }

  lemma CodesInjective(a: string, b: string)
    requires Codes(a) == Codes(b)
    ensures a == b
  {
    assert |a| == |b|;
    forall i | 0 <= i < |a| ensures a[i] == b[i] {
      assert Codes(a)[i] == Codes(b)[i];
    }
  }

  /** strcmp on two C strings (only its sign). */
  function StrCmp(a: string, b: string): (r: int)
    ensures -1 <= r <= 1
    ensures r == 0 <==> a == b
  {
    var r := Lex(Codes(a), Codes(b));
    if r == 0 then CodesInjective(a, b); r else r
  }

  lemma StrCmpAntisymmetric(a: string, b: string)
    ensures StrCmp(a, b) == -StrCmp(b, a)
  {
    LexAntisymmetric(Codes(a), Codes(b));
  }

  lemma StrCmpTransitive(a: string, b: string, c: string)
    requires StrCmp(a, b) <= 0 && StrCmp(b, c) <= 0
    ensures StrCmp(a, c) <= 0
  {
    LexTransitive(Codes(a), Codes(b), Codes(c));
  }

  /** memcmp over the DIGEST_SIZE bytes of two digests (only its sign). */
  function MemCmp(a: Digest, b: Digest): (r: int)
    ensures -1 <= r <= 1
    ensures r == 0 <==> a == b
  {
    Lex(a, b)
  }

  lemma MemCmpAntisymmetric(a: Digest, b: Digest)
    ensures MemCmp(a, b) == -MemCmp(b, a)
  {
    LexAntisymmetric(a, b);
  }

  lemma MemCmpTransitive(a: Digest, b: Digest, c: Digest)
    requires MemCmp(a, b) <= 0 && MemCmp(b, c) <= 0
    ensures MemCmp(a, c) <= 0
  {
    LexTransitive(a, b, c);
  }

  // ---------------------------------------------------------------------
  // Paths and NUL-terminated strings in a byte buffer
  // ---------------------------------------------------------------------

  /** The path join_path writes: dir, a slash, then name. */
  function Join(dir: CString, name: CString): (p: CString)
    ensures |p| == |dir| + 1 + |name|
    ensures p[..|dir|] == dir && p[|dir|] == '/' && p[|dir| + 1..] == name
  {
    dir + "/" + name
  }

  /** Copies s into buf at offset off, character by character. */
  method WriteString(buf: array<char>, off: nat, s: string)
    requires off + |s| <= buf.Length
    modifies buf
    ensures buf[..] == old(buf[..off]) + s + old(buf[off + |s|..])
  {
    var k := 0;
    while k < |s|
      invariant 0 <= k <= |s|
      invariant buf[..] == old(buf[..off]) + s[..k] + old(buf[off + k..])
    {
      buf[off + k] := s[k];
      k := k + 1;
      assert s[..k] == s[..k - 1] + [s[k - 1]];
    }
    assert s[..k] == s;
  }

  /** join_path (dedup.c): strcpy(path, dir), then strcat "/" and name, which
      leaves dir + "/" + name and its NUL at the given offset of the buffer. */
  method JoinPath(dir: CString, name: CString, path: array<char>, off: nat)
    requires off + |dir| + 1 + |name| + 1 <= path.Length
    modifies path
    ensures path[..] == old(path[..off]) + Join(dir, name) + ['\0']
                        + old(path[off + |dir| + 1 + |name| + 1..])
    ensures Stored(path[..], off, Join(dir, name))
  {
    WriteString(path, off, Join(dir, name) + ['\0']);
    assert path[off..off + |Join(dir, name)|] == Join(dir, name);
  }

  /** The C string that starts at offset h of buf: every character up to the
      first NUL (or up to the end of buf). */
  function CStr(buf: seq<char>, h: nat): string
    decreases |buf| - h
  {
    if h >= |buf| || buf[h] == '\0' then [] else [buf[h]] + CStr(buf, h + 1)
  }

  /** s is stored at offset h of buf, followed by its terminating NUL. */
  ghost predicate Stored(buf: seq<char>, h: nat, s: CString)
  {
    h + |s| < |buf| && buf[h..h + |s|] == s && buf[h + |s|] == '\0'
  }

  lemma {:induction false} StoredIsCStr(buf: seq<char>, h: nat, s: CString)
    requires Stored(buf, h, s)
    ensures CStr(buf, h) == s
    decreases |s|
  {
    if |s| > 0 {
      assert buf[h] == s[0];
      assert buf[h + 1..h + 1 + |s[1..]|] == s[1..];
      StoredIsCStr(buf, h + 1, s[1..]);
    }
  }

  /** Writing beyond h + |s| leaves a stored string intact. */
  lemma StoredPrefix(buf: seq<char>, buf': seq<char>, limit: nat, h: nat, s: CString)
    requires Stored(buf, h, s) && h + |s| < limit <= |buf| && limit <= |buf'|
    requires buf'[..limit] == buf[..limit]
    ensures Stored(buf', h, s)
  {
    assert buf'[h..h + |s|] == buf'[..limit][h..h + |s|];
    assert buf[h..h + |s|] == buf[..limit][h..h + |s|];
    assert buf'[h + |s|] == buf'[..limit][h + |s|];
    assert buf[h + |s|] == buf[..limit][h + |s|];
  }

  // ---------------------------------------------------------------------
  // The per-file record and what the file system reports
  // ---------------------------------------------------------------------

  /** What stat reports about a path. */
  datatype Stat = Stat(size: nat, device: nat, inode: nat)

  /** One registry record (t_file_id): an arena handle for the path, the
      identity and size from stat, three lazily computed digests, one
      "evaluated" flag per digest and the vanished flag. */
  datatype FileId = FileId(
    name: nat,
    device: nat, inode: nat,
    size: nat,
    startDigest: Digest, endDigest: Digest, digest: Digest,
    startEvaluated: bool, endEvaluated: bool, digestEvaluated: bool,
    vanished: bool)

  /** A record after memset(0). */
  const CLEARED: FileId :=
    FileId(0, 0, 0, 0, ZERO_DIGEST, ZERO_DIGEST, ZERO_DIGEST, false, false, false, false)

  /** The physical file a record designates, and its size: what the
      grouping pass and the lost-space computation look at. */
  datatype Identity = Identity(device: nat, inode: nat, size: nat)

  function IdentityOf(f: FileId): Identity
  {
    Identity(f.device, f.inode, f.size)
  }

  function IdentitiesOf(s: seq<FileId>): (r: seq<Identity>)
    ensures |r| == |s|
    ensures forall i :: 0 <= i < |s| ==> r[i] == IdentityOf(s[i])
  {
    seq(|s|, i requires 0 <= i < |s| => IdentityOf(s[i]))
  }

  /** An opened file, as far as the digest getters can observe it: the bytes
      fread would return from the start, and whether fseek succeeds. */
  datatype OpenFile = OpenFile(content: seq<byte>, seekable: bool)

  /** fopen(path, "rb"): None when the file cannot be opened (it vanished or
      became unreadable after the scan). */
  type Disk = CString -> Option<OpenFile>

  /** SHA-1 is not modelled: any function from bytes to digests stands for it. */
  type Hash = seq<byte> -> Digest

  /** realloc: a larger array whose prefix holds the old contents. */
  method Realloc<T>(a: array<T>, newCapacity: nat, fill: T) returns (b: array<T>)
    requires a.Length <= newCapacity
    ensures fresh(b) && b.Length == newCapacity
    ensures b[..a.Length] == a[..]
  {
    b := new T[newCapacity](_ => fill);
    forall i | 0 <= i < a.Length {
      b[i] := a[i];
    }
  }
}
