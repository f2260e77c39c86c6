/** The integrity gate: a file matched by a rule that carries a non-zero
    SHA-256 digest has its content hashed and compared with that digest
    (defex_check_integrity), except for one fixed path
    (defex_integrity_default). The digest itself, the crypto allocations and
    the file reads are inputs of the model. */
module Integrity {
  import opened ByteStrings
  import opened RuleTree

  /** buff_size: the size of each read (the kernel's PAGE_SIZE). */
  const PAGE_SIZE: nat := 4096

  /** The one path whose files are never hash-checked, as bytes:
      "/system/bin/install-recovery.sh". */
  const INTEGRITY_EXEMPT: seq<byte> :=
    [47, 115, 121, 115, 116, 101, 109, 47, 98, 105, 110, 47, 105, 110, 115, 116,
     97, 108, 108, 45, 114, 101, 99, 111, 118, 101, 114, 121, 46, 115, 104]

  /** What one local_fread call returns: an error, or the bytes read (none
      at end of file). */
  datatype Chunk = ReadFailure | Bytes(data: seq<byte>)

  /** The file handle passed to the lookup: an error pointer, or a file whose
      read at each offset is readAt(offset); no read returns data that ends
      past size. */
  datatype TargetFile = ErrPtr | Readable(readAt: nat -> Chunk, size: nat)

  ghost predicate FileOk(f: TargetFile) {
    f.Readable? ==>
      forall off: nat :: f.readAt(off).Bytes? ==>
        && |f.readAt(off).data| <= PAGE_SIZE
        && (|f.readAt(off).data| > 0 ==> off + |f.readAt(off).data| <= f.size)
  }

  /** The crypto_shash services: whether each allocation and step succeeds,
      and the digest function, which the streaming init/update/final
      interface computes over everything fed to it. */
  datatype Crypto = Crypto(
    allocOk: bool,    // crypto_alloc_shash("sha256")
    descOk: bool,     // the shash_desc allocation
    bufferOk: bool,   // the read buffer allocation
    initOk: bool,     // crypto_shash_init
    updateOk: bool,   // every crypto_shash_update
    finalOk: bool,    // crypto_shash_final
    sha256: seq<byte> -> seq<byte>)

  ghost predicate CryptoOk(c: Crypto) {
    forall s :: |c.sha256(s)| == HASH_SIZE
  }

  /** The content read from off to end of file, one chunk at a time, each
      chunk read at the offset where the previous ones end; None when a read
      fails. */
  function ReadFrom(f: TargetFile, off: nat): (r: Option<seq<byte>>)
    requires f.Readable? && FileOk(f)
    ensures r.Some? && r.value != [] ==> off + |r.value| <= f.size
    decreases f.size - off
  {
    match f.readAt(off)
    case ReadFailure => None
    case Bytes(d) =>
      if d == [] then Some([])
      else
        match ReadFrom(f, off + |d|)
        case None => None
        case Some(rest) => Some(d + rest)
  }

  /** What defex_check_integrity(f, hash) returns. */
  function CheckIntegrity(f: TargetFile, hash: seq<byte>, c: Crypto): (r: int)
    requires |hash| == HASH_SIZE && FileOk(f) && CryptoOk(c)
    ensures AllZero(hash) ==> r == 0
    ensures !AllZero(hash) && (f.ErrPtr? || !c.allocOk || !c.descOk || !c.bufferOk || !c.initOk) ==> r == -1
  {
    ZeroDigestTest(hash);
    if MemCmp(Zeros(HASH_SIZE), hash, HASH_SIZE) == 0 then 0
    else if f.ErrPtr? then -1
    else if !c.allocOk || !c.descOk || !c.bufferOk || !c.initOk then -1
    else
      match ReadFrom(f, 0)
      case None => -1
      case Some(content) =>
        if content != [] && !c.updateOk then -1
        else if !c.finalOk then -1
        else MemCmp(c.sha256(content), hash, HASH_SIZE)
  }

  /** Every service the check needs succeeds, the whole file can be read, and
      the SHA-256 of its content is hash. */
  predicate ContentMatches(f: TargetFile, hash: seq<byte>, c: Crypto)
    requires FileOk(f)
  {
    && f.Readable?
    && c.allocOk && c.descOk && c.bufferOk && c.initOk && c.finalOk
    && ReadFrom(f, 0).Some?
    && (ReadFrom(f, 0).value != [] ==> c.updateOk)
    && c.sha256(ReadFrom(f, 0).value) == hash
  }

  /** The check passes (returns 0) exactly when the stored hash is all zero
      or the file's content hashes to it; an error handle, a failed
      allocation, a failed read or a failed hash step gives -1. */
  lemma {:induction false} CheckIntegrityMeaning(f: TargetFile, hash: seq<byte>, c: Crypto)
    requires |hash| == HASH_SIZE && FileOk(f) && CryptoOk(c)
    ensures CheckIntegrity(f, hash, c) == 0 <==> AllZero(hash) || ContentMatches(f, hash, c)
    ensures !AllZero(hash) && (f.ErrPtr? || !c.allocOk || !c.descOk || !c.bufferOk || !c.initOk) ==>
              CheckIntegrity(f, hash, c) == -1
    ensures !AllZero(hash) && f.Readable? && ReadFrom(f, 0).None? ==> CheckIntegrity(f, hash, c) == -1
    ensures (!AllZero(hash) && f.Readable? && ReadFrom(f, 0).Some? &&
             ((ReadFrom(f, 0).value != [] && !c.updateOk) || !c.finalOk)) ==>
              CheckIntegrity(f, hash, c) == -1
  {
    ZeroDigestTest(hash);
    if f.Readable? && ReadFrom(f, 0).Some? {
      MemCmpEqual(c.sha256(ReadFrom(f, 0).value), hash);
    }
  }

  /** memcmp of the stored hash against a zero digest is an all-zero test. */
  lemma {:induction false} ZeroDigestTest(hash: seq<byte>)
    requires |hash| == HASH_SIZE
    ensures MemCmp(Zeros(HASH_SIZE), hash, HASH_SIZE) == 0 <==> AllZero(hash)
  {
    MemCmpZero(Zeros(HASH_SIZE), hash, HASH_SIZE);
    assert Zeros(HASH_SIZE)[..HASH_SIZE] == Zeros(HASH_SIZE) && hash[..HASH_SIZE] == hash;
    if AllZero(hash) {
      assert hash == Zeros(HASH_SIZE);
    }
  }

  function Prepend(p: seq<byte>, o: Option<seq<byte>>): Option<seq<byte>> {
    match o
    case None => None
    case Some(s) => Some(p + s)
  }

  /** defex_check_integrity: skips when the stored hash is zero, otherwise
      feeds the file to the digest chunk by chunk, each read at the total
      size of the chunks before it, and compares the digest with hash. */
  method DefexCheckIntegrity(f: TargetFile, hash: seq<byte>, c: Crypto) returns (r: int)
    requires |hash| == HASH_SIZE && FileOk(f) && CryptoOk(c)
    ensures r == CheckIntegrity(f, hash, c)
  {
    if MemCmp(Zeros(HASH_SIZE), hash, HASH_SIZE) == 0 {
      return 0;
    }
    if f.ErrPtr? {
      return -1;
    }
    if !c.allocOk || !c.descOk || !c.bufferOk || !c.initOk {
      return -1;
    }
    var fileSize: nat := 0;
    var fed: seq<byte> := [];  // all that crypto_shash_update has been given
    assert Prepend(fed, ReadFrom(f, fileSize)) == ReadFrom(f, 0) by {
      if ReadFrom(f, 0).Some? { assert [] + ReadFrom(f, 0).value == ReadFrom(f, 0).value; }
    }
    while true
      invariant fileSize <= f.size
      invariant ReadFrom(f, 0) == Prepend(fed, ReadFrom(f, fileSize))
      invariant fed != [] ==> c.updateOk
      decreases f.size - fileSize
    {
      var chunk := f.readAt(fileSize);
      if chunk.ReadFailure? {
        return -1;
      }
      if chunk.data == [] {
        assert ReadFrom(f, 0) == Some(fed) by { assert fed + [] == fed; }
        break;
      }
      ghost var before := fileSize;
      fileSize := fileSize + |chunk.data|;
      if !c.updateOk {
        return -1;
      }
      assert ReadFrom(f, 0) == Prepend(fed + chunk.data, ReadFrom(f, fileSize)) by {
        assert ReadFrom(f, before) == Prepend(chunk.data, ReadFrom(f, fileSize));
        if ReadFrom(f, fileSize).Some? {
          assert fed + (chunk.data + ReadFrom(f, fileSize).value) == (fed + chunk.data) + ReadFrom(f, fileSize).value;
        }
      }
      fed := fed + chunk.data;
    }
    if !c.finalOk {
      return -1;
    }
    r := MemCmp(c.sha256(fed), hash, HASH_SIZE);
  }

  /** defex_integrity_default: strncmp of the exempt path against path over
      sizeof(integrity_default) bytes, terminator included. */
  function IntegrityDefault(path: seq<byte>): (r: int)
    requires CString(path)
    ensures r == 0 <==> path == INTEGRITY_EXEMPT
  {
    ExemptIsCString();
    StrNCmpWhole(INTEGRITY_EXEMPT, path);
    StrNCmp(INTEGRITY_EXEMPT, path, |INTEGRITY_EXEMPT| + 1)
  }

  lemma {:induction false} ExemptIsCString()
    ensures CString(INTEGRITY_EXEMPT) && |INTEGRITY_EXEMPT| == 31
  {
  }
}
