/**
 * zip.cpp: the zip wrapper (open an archive, open one of its entries) and
 * zip::file, the stream that a file's bytes are drained into.
 */
module Zip {
  import opened Wrappers
  import opened Libzip
  import opened Errors

  /** zip::file::READ_BLOCK_SIZE: the size every zip_fread call of zip::file asks for. */
  const READ_BLOCK_SIZE: nat := 1024

  /** The largest zip_uint64_t. */
  const UINT64_MAX: int := 0xFFFF_FFFF_FFFF_FFFF

  /** zip_int64_t to zip_uint64_t, as the assignment to `written_size` converts it (modulo 2^64). */
  function ToUint64(n: int): (u: int)
    requires -0x8000_0000_0000_0000 <= n < 0x8000_0000_0000_0000
    ensures 0 <= u <= UINT64_MAX
    ensures n >= 0 ==> u == n
    ensures n == -1 ==> u == UINT64_MAX
  {
    if n < 0 then n + UINT64_MAX + 1 else n
  }

  /** A zip object: the path it was built from and the zip_t it opened. */
  datatype Zip = Zip(path: string, archive: Archive)

  /**
   * zip::zip: opens the archive read-only (without consistency checks); when zip_open
   * yields null, throws libzip_failure built from the error number zip_open stored.
   */
  function OpenZip(path: string, zipOpen: (string, int) -> OpenResult): (r: Result<Zip, Error>)
    ensures r.Err? <==> zipOpen(path, ZIP_RDONLY).OpenFailed?
    ensures r.Err? ==> r.error == LibzipError(zipOpen(path, ZIP_RDONLY).code)
    ensures r.Ok? ==> r.value.path == path && r.value.archive == zipOpen(path, ZIP_RDONLY).archive
  {
    match zipOpen(path, ZIP_RDONLY)
    case OpenFailed(code) => Err(LibzipError(code))
    case Opened(a) => Ok(Zip(path, a))
  }

  /**
   * Whether an answer ends the do-while of zip::file::file as written: its condition
   * `written_size < READ_BLOCK_SIZE` keeps looping after every short answer, so only
   * a full block, or the error sentinel (-1, read back as the largest zip_uint64_t),
   * which throws, leaves it.
   */
  predicate EndsAsWritten(r: ReadResult)
  {
    r.ReadFailed? || |r.data| >= READ_BLOCK_SIZE
  }

  /** The first call from k on whose answer ends the as-written loop. */
  function FirstEndAsWritten(script: seq<ReadResult>, k: nat): (j: nat)
    requires k <= |script| && exists i :: k <= i < |script| && EndsAsWritten(script[i])
    ensures k <= j < |script| && EndsAsWritten(script[j])
    ensures forall i :: k <= i < j ==> !EndsAsWritten(script[i])
    decreases |script| - k
  {
    if EndsAsWritten(script[k]) then k else FirstEndAsWritten(script, k + 1)
  }

  /** zip::file: a std::stringstream filled from one open entry. */
  class File {
    const handle: FileHandle
    /** The contents written to the stringstream base. */
    var stream: seq<byte>

    constructor (handle: FileHandle)
      ensures this.handle == handle && stream == []
    {
      this.handle := handle;
      stream := [];
    }

    /**
     * The block-read loop of zip::file::file as written: every call asks for
     * READ_BLOCK_SIZE bytes, the error sentinel throws before anything of that call
     * is written, every other answer is appended, and the loop goes on while
     * answers are short.
     */
    method ReadBlocksAsWritten(script: seq<ReadResult>) returns (failed: bool)
      requires exists i :: 0 <= i < |script| && EndsAsWritten(script[i])
      requires WithinRequest(script, READ_BLOCK_SIZE)
      modifies this`stream
      ensures var j := FirstEndAsWritten(script, 0);
              failed == script[j].ReadFailed? &&
              stream == old(stream) + Delivered(script, if failed then j else j + 1)
    {
      ghost var j := FirstEndAsWritten(script, 0);
      var k := 0;
      var more := true;
      failed := false;
      while more
        invariant 0 <= k <= j + 1
        invariant more ==> k <= j && !failed
        invariant more ==> stream == old(stream) + Delivered(script, k)
        invariant !more ==> k == j + 1 && !failed && !script[j].ReadFailed?
        invariant !more ==> stream == old(stream) + Delivered(script, j + 1)
        decreases j + 1 - k
      {
        var r := ReadAt(script, k);
        assert |Bytes(r)| <= READ_BLOCK_SIZE;
        var written := ToUint64(Returned(r));
        if written == UINT64_MAX {
          failed := true;
          return;
        }
        stream := stream + Bytes(r);
        k := k + 1;
        more := written < READ_BLOCK_SIZE;
      }
    }

    /**
     * The block-read loop as evidently intended: it goes on while answers fill the
     * block, and stops at the first short answer, which end of stream always gives.
     */
    method ReadBlocks(script: seq<ReadResult>) returns (failed: bool)
      requires WithinRequest(script, READ_BLOCK_SIZE)
      modifies this`stream
      ensures var j := FirstNotFull(script, READ_BLOCK_SIZE, 0);
              failed == ReadAt(script, j).ReadFailed? &&
              stream == old(stream) + Delivered(script, if failed then j else j + 1)
    {
      ghost var j := FirstNotFull(script, READ_BLOCK_SIZE, 0);
      var k := 0;
      var more := true;
      failed := false;
      while more
        invariant 0 <= k <= j + 1
        invariant more ==> k <= j && !failed
        invariant more ==> stream == old(stream) + Delivered(script, k)
        invariant !more ==> k == j + 1 && !failed && !ReadAt(script, j).ReadFailed?
        invariant !more ==> stream == old(stream) + Delivered(script, j + 1)
        decreases j + 1 - k
      {
        var r := ReadAt(script, k);
        assert |Bytes(r)| <= READ_BLOCK_SIZE;
        var written := ToUint64(Returned(r));
        if written == UINT64_MAX {
          failed := true;
          return;
        }
        stream := stream + Bytes(r);
        k := k + 1;
        more := written == READ_BLOCK_SIZE;
      }
    }
  }

  /** The entry zip_fopen opens for a name: the first entry so named, when it opens. */
  function FopenIndex(z: Zip, name: string): (r: Option<nat>)
    ensures r.Some? ==> r.value < |z.archive.entries| && z.archive.entries[r.value].opens &&
                        z.archive.entries[r.value].stat == StatOk(name)
    ensures r.Some? ==> r == Locate(z.archive, name)
    ensures r.None? <==> Locate(z.archive, name).None? ||
                         !z.archive.entries[Locate(z.archive, name).value].opens
  {
    var i := Locate(z.archive, name);
    if i.Some? && z.archive.entries[i.value].opens then i else None
  }

  /**
   * The stream zip::open yields for a name, with the corrected read loop: the bytes of
   * the entry's answers up to its first short one; a failed open or a failed read
   * throws libzip_failure built from the archive's error.
   */
  function FileContent(z: Zip, name: string): Result<seq<byte>, Error>
    requires forall i :: 0 <= i < |z.archive.entries| ==>
               WithinRequest(z.archive.entries[i].script, READ_BLOCK_SIZE)
  {
    match FopenIndex(z, name)
    case None => Err(LibzipError(z.archive.error))
    case Some(i) =>
      var s := z.archive.entries[i].script;
      var j := FirstNotFull(s, READ_BLOCK_SIZE, 0);
      if ReadAt(s, j).ReadFailed? then Err(LibzipError(z.archive.error))
      else Ok(Delivered(s, j + 1))
  }

  /**
   * zip::open: zip_fopen on the name; a null handle throws libzip_failure from the
   * archive's error, and so does a failure of the read loop, which zip::open catches
   * and rethrows that way.
   */
  method Open(z: Zip, name: string) returns (r: Result<File, Error>)
    requires forall i :: 0 <= i < |z.archive.entries| ==>
               WithinRequest(z.archive.entries[i].script, READ_BLOCK_SIZE)
    ensures r.Err? <==> FileContent(z, name).Err?
    ensures r.Err? ==> r.error == LibzipError(z.archive.error)
    ensures r.Ok? ==> fresh(r.value) && r.value.handle == FileAt(FopenIndex(z, name).value) &&
                      r.value.stream == FileContent(z, name).value
  {
    var i := FopenIndex(z, name);
    if i.None? {
      return Err(LibzipError(z.archive.error));
    }
    var f := new File(FileAt(i.value));
    var failed := f.ReadBlocks(z.archive.entries[i.value].script);
    if failed {
      return Err(LibzipError(z.archive.error));
    }
    return Ok(f);
  }

  /** zip::open on an entry whose reads are those of a real file of content c yields exactly c. */
  lemma OpenReadsWholeEntry(z: Zip, name: string, c: seq<byte>)
    requires forall i :: 0 <= i < |z.archive.entries| ==>
               WithinRequest(z.archive.entries[i].script, READ_BLOCK_SIZE)
    requires FopenIndex(z, name).Some?
    requires z.archive.entries[FopenIndex(z, name).value].script == Blocks(c, READ_BLOCK_SIZE)
    ensures FileContent(z, name) == Ok(c)
  {
    DrainReadsWholeFile(c, READ_BLOCK_SIZE);
  }

  /**
   * The as-written loop on a real file of at least one block stops after the first
   * block, so everything past the first READ_BLOCK_SIZE bytes is lost.
   */
  lemma AsWrittenKeepsFirstBlock(c: seq<byte>)
    requires |c| >= READ_BLOCK_SIZE
    ensures exists i :: 0 <= i < |Blocks(c, READ_BLOCK_SIZE)| &&
                        EndsAsWritten(Blocks(c, READ_BLOCK_SIZE)[i])
    ensures FirstEndAsWritten(Blocks(c, READ_BLOCK_SIZE), 0) == 0
    ensures !Blocks(c, READ_BLOCK_SIZE)[0].ReadFailed?
    ensures Delivered(Blocks(c, READ_BLOCK_SIZE), 1) == c[..READ_BLOCK_SIZE]
  {
    var s := Blocks(c, READ_BLOCK_SIZE);
    assert s[0] == Chunk(c[..READ_BLOCK_SIZE]);
    assert 0 < |s| && EndsAsWritten(s[0]);
    assert exists i :: 0 <= i < |s| && EndsAsWritten(s[i]);
  }

  /**
   * The as-written loop on a real file shorter than one block never stops: no answer,
   * the end-of-stream ones included, is a full block.
   */
  lemma AsWrittenNeverEndsOnShortFile(c: seq<byte>, k: nat)
    requires |c| < READ_BLOCK_SIZE
    ensures !EndsAsWritten(ReadAt(Blocks(c, READ_BLOCK_SIZE), k))
  {
  }
}
