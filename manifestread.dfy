/**
 * The read of the `project.json` entry in project::project: a buffer that starts at
 * 4096 bytes and grows in steps of 4096, filled by zip_fread.
 */
module ManifestRead {
  import opened Libzip
  import opened Json

  /** buffer_block_step: the initial buffer size and the growth step. */
  const BUFFER_BLOCK_STEP: nat := 4096

  /** n zero bytes: what calloc returns (and what the model puts where realloc grows). */
  function Zeros(n: nat): (z: seq<byte>)
    ensures |z| == n && forall i :: 0 <= i < n ==> z[i] == 0
  {
    seq(n, _ => 0)
  }

  /** A buffer after zip_fread delivered an answer's bytes at its start. */
  function WriteAtStart(buffer: seq<byte>, r: ReadResult): (b: seq<byte>)
    requires |Bytes(r)| <= |buffer|
    ensures |b| == |buffer| && b[..|Bytes(r)|] == Bytes(r) && b[|Bytes(r)|..] == buffer[|Bytes(r)|..]
  {
    Bytes(r) + buffer[|Bytes(r)|..]
  }

  /** The first call from k on that does not return 0: it delivered bytes, or failed. */
  function FirstNonZero(script: seq<ReadResult>, k: nat): (j: nat)
    requires k <= |script| && exists i :: k <= i < |script| && Returned(script[i]) != 0
    ensures k <= j < |script| && Returned(script[j]) != 0
    ensures forall i :: k <= i < j ==> Returned(script[i]) == 0
    decreases |script| - k
  {
    if Returned(script[k]) != 0 then k else FirstNonZero(script, k + 1)
  }

  /**
   * The loop as written: `while (!zip_fread(file, buffer, buffer_size))` grows the
   * buffer by 4096 after every call that returns 0 and leaves at the first call that
   * does not, -1 included. Every call reads into the start of the buffer and asks for
   * the whole buffer, so call k asks for 4096 * (k + 1) bytes.
   */
  method ReadManifestAsWritten(script: seq<ReadResult>) returns (bufferSize: nat, buffer: seq<byte>)
    requires exists i :: 0 <= i < |script| && Returned(script[i]) != 0
    requires forall k :: 0 <= k < |script| ==> |Bytes(script[k])| <= BUFFER_BLOCK_STEP * (k + 1)
    ensures var k := FirstNonZero(script, 0);
            bufferSize == BUFFER_BLOCK_STEP * (k + 1) && |buffer| == bufferSize &&
            buffer[..|Bytes(script[k])|] == Bytes(script[k]) &&
            forall i :: |Bytes(script[k])| <= i < |buffer| ==> buffer[i] == 0
  {
    ghost var j := FirstNonZero(script, 0);
    bufferSize := BUFFER_BLOCK_STEP;
    buffer := Zeros(bufferSize);
    var k := 0;
    while true
      invariant 0 <= k <= j
      invariant bufferSize == BUFFER_BLOCK_STEP * (k + 1) && |buffer| == bufferSize
      invariant forall i :: 0 <= i < |buffer| ==> buffer[i] == 0
      decreases j - k
    {
      var r := ReadAt(script, k);
      buffer := WriteAtStart(buffer, r);
      if Returned(r) != 0 {
        return;
      }
      bufferSize := bufferSize + BUFFER_BLOCK_STEP;
      buffer := buffer + Zeros(BUFFER_BLOCK_STEP);
      k := k + 1;
    }
  }

  /**
   * The read as evidently intended: every call reads into the first unwritten byte
   * and asks for the rest of the buffer (always 4096 bytes); a call that fills the
   * buffer grows it by 4096 and reads on, a short call ends the read, and -1 fails it.
   */
  method ReadManifest(script: seq<ReadResult>) returns (content: seq<byte>, failed: bool)
    requires WithinRequest(script, BUFFER_BLOCK_STEP)
    ensures var j := FirstNotFull(script, BUFFER_BLOCK_STEP, 0);
            failed == ReadAt(script, j).ReadFailed? &&
            (!failed ==> content == Delivered(script, j + 1))
  {
    ghost var j := FirstNotFull(script, BUFFER_BLOCK_STEP, 0);
    var bufferSize := BUFFER_BLOCK_STEP;
    var buffer := Zeros(bufferSize);
    var used := 0;
    var k := 0;
    var more := true;
    failed := false;
    while more
      invariant 0 <= k <= j + 1
      invariant |buffer| == bufferSize
      invariant 0 <= used <= bufferSize
      invariant buffer[..used] == Delivered(script, k)
      invariant more ==> k <= j && !failed && used + BUFFER_BLOCK_STEP == bufferSize
      invariant !more ==> failed == ReadAt(script, j).ReadFailed?
      invariant !more && !failed ==> k == j + 1
      decreases j + 1 - k, more
    {
      var r := ReadAt(script, k);
      if r.ReadFailed? {
        failed := true;
        more := false;
      } else {
        assert |r.data| <= BUFFER_BLOCK_STEP;
        buffer := buffer[..used] + r.data + buffer[used + |r.data|..];
        assert buffer[..used + |r.data|] == Delivered(script, k) + r.data;
        used := used + |r.data|;
        k := k + 1;
        if used == bufferSize {
          bufferSize := bufferSize + BUFFER_BLOCK_STEP;
          buffer := buffer + Zeros(BUFFER_BLOCK_STEP);
        } else {
          more := false;
        }
      }
    }
    content := buffer[..used];
  }

  /** The bytes a C string starting at the buffer covers: everything before the first NUL. */
  function UpToNul(b: seq<byte>): (s: seq<byte>)
    ensures |s| <= |b| && s == b[..|s|] && forall i :: 0 <= i < |s| ==> s[i] != 0
    ensures |s| < |b| ==> b[|s|] == 0
  {
    if |b| == 0 || b[0] == 0 then [] else [b[0]] + UpToNul(b[1..])
  }

  /**
   * The value project::project builds from the buffer as written: the constructor
   * boost::json::value(char const*) makes a JSON string of the text, not a parse.
   */
  function ManifestValueAsWritten(buffer: seq<byte>): (v: Json)
    ensures v.JString? && |v.str| == |UpToNul(buffer)|
    ensures forall i :: 0 <= i < |v.str| ==> v.str[i] == UpToNul(buffer)[i] as int as char
  {
    JString(seq(|UpToNul(buffer)|, i requires 0 <= i < |UpToNul(buffer)| => UpToNul(buffer)[i] as int as char))
  }

  /**
   * The as-written loop on a real entry larger than one step stops after the first
   * call, which delivers only its first 4096 bytes.
   */
  lemma AsWrittenTruncatesLargeManifest(c: seq<byte>)
    requires |c| > BUFFER_BLOCK_STEP
    ensures var s := Blocks(c, BUFFER_BLOCK_STEP);
            Returned(s[0]) != 0 && FirstNonZero(s, 0) == 0 && Bytes(s[0]) == c[..BUFFER_BLOCK_STEP] &&
            Bytes(s[0]) != c
  {
    var s := Blocks(c, BUFFER_BLOCK_STEP);
    assert s[0] == Chunk(c[..BUFFER_BLOCK_STEP]);
  }

  /** On an empty entry every as-written call returns 0, so the loop only grows the buffer. */
  lemma AsWrittenSpinsOnEmptyManifest(k: nat)
    ensures Returned(ReadAt(Blocks([], BUFFER_BLOCK_STEP), k)) == 0
  {
  }

  /**
   * A null manifest handle (no `project.json` entry, or one that does not open): the
   * first zip_fread returns -1, which ends the as-written loop and fails the corrected one.
   */
  lemma NullHandleEndsBothReads(a: Archive, h: FileHandle)
    requires !(h.FileAt? && h.index < |a.entries|)
    ensures var s := HandleReads(a, h);
            |s| > 0 && Returned(s[0]) == -1 && FirstNonZero(s, 0) == 0 && FirstNotFull(s, BUFFER_BLOCK_STEP, 0) == 0 &&
            ReadAt(s, 0).ReadFailed?
  {
  }

  /** The corrected read on a real entry delivers all of it. */
  lemma ReadManifestReadsWholeEntry(c: seq<byte>)
    ensures var s := Blocks(c, BUFFER_BLOCK_STEP);
            var j := FirstNotFull(s, BUFFER_BLOCK_STEP, 0);
            !ReadAt(s, j).ReadFailed? && Delivered(s, j + 1) == c
  {
    DrainReadsWholeFile(c, BUFFER_BLOCK_STEP);
  }
}
