/**
 The per-file record of the comparison engine (struct file_data): where the file
 is, how many bytes it has, a SHA-1 digest of those bytes, and the bytes a later
 read returns. File-system access and the SHA-1 routine itself are outside the
 model: a record is built from the bytes read and from a digest function passed
 in as a parameter.
 */
module FileData {

  type byte = bv8

  /** SHA_DIGEST_LENGTH: the number of bytes in a SHA-1 digest. */
  const DigestLength: nat := 20

  type Digest = d: seq<byte> | |d| == DigestLength witness seq(20, _ => 0 as byte)

  type Path = string

  datatype FileInfo = FileInfo(path: Path, size: nat, digest: Digest, content: seq<byte>)

  /** A record whose size is the number of bytes read back from the file:
      read_file always returns a buffer of exactly `size` bytes. */
  type FileRecord = f: FileInfo | f.size == |f.content|
    witness FileInfo("", 0, seq(20, _ => 0 as byte), [])

  /** A record together with the sticky "similar or equal" flag the driver sets. */
  datatype Entry = Entry(file: FileRecord, matched: bool)

  /** The record was built from its own content with the digest function `sha1`. */
  ghost predicate Fingerprinted(f: FileRecord, sha1: seq<byte> -> Digest) {
    f.digest == sha1(f.content)
  }

  /** The constructor of file_data: hash the bytes, record their number. */
  function Fingerprint(path: Path, content: seq<byte>, sha1: seq<byte> -> Digest): (f: FileRecord)
    ensures Fingerprinted(f, sha1)
    ensures f.path == path && f.content == content && f.size == |content|
    ensures forall g: FileRecord :: Fingerprinted(g, sha1) && g.content == content ==> Equals(f, g)
  {
    FileInfo(path, |content|, sha1(content), content)
  }

  /** The digest loop of equals: compares bytes from index i on and stops at
      the first pair that differs. */
  function DigestsAgreeFrom(a: Digest, b: Digest, i: nat): (r: bool)
    requires i <= DigestLength
    decreases DigestLength - i
    ensures r <==> forall k :: i <= k < DigestLength ==> a[k] == b[k]
  {
    if i == DigestLength then true
    else if a[i] != b[i] then false
    else DigestsAgreeFrom(a, b, i + 1)
  }

  /** file_data::equals: sizes first, then the 20 digest bytes; the content
      itself is never compared. */
  function Equals(f: FileRecord, g: FileRecord): (r: bool)
    ensures r <==> f.size == g.size && f.digest == g.digest
    ensures f.size != g.size ==> !r
  {
    var agree := DigestsAgreeFrom(f.digest, g.digest, 0);
    assert agree ==> f.digest == g.digest;
    f.size == g.size && agree
  }

  lemma EqualsReflexive(f: FileRecord)
    ensures Equals(f, f)
  {
  }

  lemma EqualsSymmetric(f: FileRecord, g: FileRecord)
    ensures Equals(f, g) <==> Equals(g, f)
  {
  }

  /** Two files with the same bytes, hashed by the same function, are equal. */
  lemma SameContentEquals(f: FileRecord, g: FileRecord, sha1: seq<byte> -> Digest)
    requires Fingerprinted(f, sha1) && Fingerprinted(g, sha1)
    requires f.content == g.content
    ensures Equals(f, g)
  {
  }

  /** Equality is decided by size and digest alone: under a digest function
      that collides, two records with different bytes still compare equal. */
  lemma EqualsIgnoresContent(sha1: seq<byte> -> Digest)
    requires forall c :: sha1(c) == seq(20, _ => 0 as byte)
    ensures var f := Fingerprint("a", [0], sha1);
            var g := Fingerprint("b", [1], sha1);
            Equals(f, g) && f.content != g.content
  {
    var f := Fingerprint("a", [0], sha1);
    var g := Fingerprint("b", [1], sha1);
    assert f.content[0] != g.content[0];
  }
}
