/**
 * The libzip calls the loader makes, replaced by scripted answers: an archive is
 * the sequence of its entries as zip_stat_index, zip_fopen_index and zip_fread
 * report them.
 */
module Libzip {
  import opened Wrappers

  newtype byte = b: int | 0 <= b < 256

  /** Flag bits of zip_open, as libzip's zip.h defines them. */
  const ZIP_CHECKCONS: int := 4
  const ZIP_RDONLY: int := 16

  /** The answer of one zip_fread call: the bytes it delivered, or its -1 error return. */
  datatype ReadResult = Chunk(data: seq<byte>) | ReadFailed

  /** The zip_int64_t that zip_fread returns for an answer. */
  function Returned(r: ReadResult): (n: int)
    ensures n == -1 <==> r.ReadFailed?
    ensures r.Chunk? ==> n == |r.data|
  {
    match r
    case Chunk(d) => |d|
    case ReadFailed => -1
  }

  /** The bytes an answer puts into the caller's buffer. */
  function Bytes(r: ReadResult): seq<byte>
  {
    if r.Chunk? then r.data else []
  }

  /**
   * The answer to call k on a file whose calls are scripted by `script`; once the
   * script is used up the file is at end of stream and every call delivers 0 bytes.
   */
  function ReadAt(script: seq<ReadResult>, k: nat): ReadResult
  {
    if k < |script| then script[k] else Chunk([])
  }

  /** Whether no scripted answer delivers more than `request` bytes (zip_fread never does). */
  predicate WithinRequest(script: seq<ReadResult>, request: nat)
  {
    forall k :: 0 <= k < |script| ==> |Bytes(script[k])| <= request
  }

  /** The bytes the first n calls deliver, in call order. */
  function Delivered(script: seq<ReadResult>, n: nat): seq<byte>
  {
    if n == 0 then [] else Delivered(script, n - 1) + Bytes(ReadAt(script, n - 1))
  }

  /** Whether an answer filled a request of `block` bytes. */
  predicate Full(r: ReadResult, block: nat)
  {
    r.Chunk? && |r.data| == block
  }

  /**
   * The call at which a loop that reads blocks of `block` bytes for as long as they
   * come back full stops: the first failed or short answer from call k on.
   */
  function FirstNotFull(script: seq<ReadResult>, block: nat, k: nat): (j: nat)
    requires 0 < block && k <= |script|
    ensures k <= j <= |script|
    ensures !Full(ReadAt(script, j), block)
    ensures forall i :: k <= i < j ==> Full(ReadAt(script, i), block)
    decreases |script| - k
  {
    if !Full(ReadAt(script, k), block) then k else FirstNotFull(script, block, k + 1)
  }

  /**
   * What a real file of content c answers to calls that each ask for `block` bytes:
   * full blocks, then the short remainder (empty when block divides |c|).
   */
  function Blocks(c: seq<byte>, block: nat): (s: seq<ReadResult>)
    requires 0 < block
    ensures |s| > 0 && !Full(s[|s| - 1], block) && s[|s| - 1].Chunk?
    ensures forall i :: 0 <= i < |s| - 1 ==> Full(s[i], block)
    ensures WithinRequest(s, block)
    decreases |c|
  {
    if |c| < block then [Chunk(c)] else [Chunk(c[..block])] + Blocks(c[block..], block)
  }

  lemma {:induction false} DeliveredCons(x: ReadResult, s: seq<ReadResult>, n: nat)
    ensures Delivered([x] + s, n + 1) == Bytes(x) + Delivered(s, n)
  {
    if n > 0 {
      DeliveredCons(x, s, n - 1);
      assert ReadAt([x] + s, n) == ReadAt(s, n - 1);
    }
  }

  /** Draining a real file block by block, up to its short final answer, yields its content. */
  lemma {:induction false} BlocksDeliverContent(c: seq<byte>, block: nat)
    requires 0 < block
    ensures Delivered(Blocks(c, block), |Blocks(c, block)|) == c
    decreases |c|
  {
    if |c| >= block {
      var x := Chunk(c[..block]);
      var rest := Blocks(c[block..], block);
      assert Blocks(c, block) == [x] + rest;
      calc {
        Delivered([x] + rest, |rest| + 1);
        == { DeliveredCons(x, rest, |rest|); }
        c[..block] + Delivered(rest, |rest|);
        == { BlocksDeliverContent(c[block..], block); }
        c[..block] + c[block..];
      }
      assert c[..block] + c[block..] == c;
    }
  }

  /**
   * A loop that keeps reading while blocks come back full, run on a real file, stops
   * at the file's last answer without failure and has then delivered all of it.
   */
  lemma DrainReadsWholeFile(c: seq<byte>, block: nat)
    requires 0 < block
    ensures var s := Blocks(c, block);
            FirstNotFull(s, block, 0) == |s| - 1 && ReadAt(s, |s| - 1).Chunk? &&
            Delivered(s, FirstNotFull(s, block, 0) + 1) == c
  {
    BlocksDeliverContent(c, block);
  }

  /**
   * What zip_stat_index reports for one entry: its name, or, when it fails, the
   * code it leaves in the archive's error (which zip_get_error then reads).
   */
  datatype Stat = StatOk(name: string) | StatFailed(code: int)

  /** One archive entry: its stat, whether zip_fopen_index opens it, and its scripted reads. */
  datatype Entry = Entry(stat: Stat, opens: bool, script: seq<ReadResult>)

  /**
   * An open zip_t: its entries in index order, and the code zip_get_error reports
   * after a call on it fails.
   */
  datatype Archive = Archive(entries: seq<Entry>, error: int)

  /** The answer of zip_open: an archive, or the error number it stored. */
  datatype OpenResult = Opened(archive: Archive) | OpenFailed(code: int)

  /** A zip_file_t*: the index of the entry it reads, or null. */
  datatype FileHandle = FileAt(index: nat) | NullFile

  /**
   * The scripted reads of a handle. zip_fread on a null file returns -1; the model
   * scripts only the first such call, which ends every read loop of the loader.
   */
  function HandleReads(a: Archive, h: FileHandle): seq<ReadResult>
  {
    if h.FileAt? && h.index < |a.entries| then a.entries[h.index].script else [ReadFailed]
  }

  /** zip_name_locate: the index of the first entry whose stat carries that name. */
  function Locate(a: Archive, name: string): (r: Option<nat>)
    ensures r.Some? ==> r.value < |a.entries| && a.entries[r.value].stat == StatOk(name) &&
                        forall j :: 0 <= j < r.value ==> a.entries[j].stat != StatOk(name)
    ensures r.None? ==> forall j :: 0 <= j < |a.entries| ==> a.entries[j].stat != StatOk(name)
  {
    LocateFrom(a.entries, name, 0)
  }

  function LocateFrom(entries: seq<Entry>, name: string, k: nat): (r: Option<nat>)
    requires k <= |entries|
    ensures r.Some? ==> k <= r.value < |entries| && entries[r.value].stat == StatOk(name) &&
                        forall j :: k <= j < r.value ==> entries[j].stat != StatOk(name)
    ensures r.None? ==> forall j :: k <= j < |entries| ==> entries[j].stat != StatOk(name)
    decreases |entries| - k
  {
    if k == |entries| then None
    else if entries[k].stat == StatOk(name) then Some(k)
    else LocateFrom(entries, name, k + 1)
  }
}
