/**
 * project::project: opens the bundle, indexes its entries, reads and parses
 * `project.json`, and builds the target table.
 */
module Project {
  import opened Wrappers
  import opened Json
  import opened Errors
  import opened Libzip
  import opened Targets
  import opened TargetTable
  import opened ManifestRead

  const MANIFEST_NAME: string := "project.json"

  /** ZIP_CHECKCONS | ZIP_RDONLY (the two bits are distinct, so | is +). */
  const PROJECT_OPEN_FLAGS: int := ZIP_CHECKCONS + ZIP_RDONLY

  /** What zip_fopen_index returns for entry i. */
  function HandleOf(entries: seq<Entry>, i: nat): FileHandle
    requires i < |entries|
  {
    if entries[i].opens then FileAt(i) else NullFile
  }

  /** The first index from k on whose zip_stat_index fails, or |entries| when none does. */
  function FirstFailedStat(entries: seq<Entry>, k: nat): (j: nat)
    requires k <= |entries|
    ensures k <= j <= |entries|
    ensures j < |entries| ==> entries[j].stat.StatFailed?
    ensures forall i :: k <= i < j ==> entries[i].stat.StatOk?
    decreases |entries| - k
  {
    if k == |entries| || entries[k].stat.StatFailed? then k else FirstFailedStat(entries, k + 1)
  }

  /** element_list after insert_or_assign of the first n entries, name to handle. */
  function Indexed(entries: seq<Entry>, n: nat): map<string, FileHandle>
    requires n <= |entries|
    requires forall i :: 0 <= i < n ==> entries[i].stat.StatOk?
  {
    if n == 0 then map[]
    else Indexed(entries, n - 1)[entries[n - 1].stat.name := HandleOf(entries, n - 1)]
  }

  /** Whether entry i is the last of the first n with its name. */
  predicate IsLastName(entries: seq<Entry>, n: nat, i: int)
    requires n <= |entries|
    requires forall i :: 0 <= i < n ==> entries[i].stat.StatOk?
  {
    0 <= i < n && forall j :: i < j < n ==> entries[j].stat.name != entries[i].stat.name
  }

  /** element_list has one key per distinct entry name. */
  lemma {:induction false} IndexedKeys(entries: seq<Entry>, n: nat)
    requires n <= |entries|
    requires forall i :: 0 <= i < n ==> entries[i].stat.StatOk?
    ensures Indexed(entries, n).Keys == set i | 0 <= i < n :: entries[i].stat.name
  {
    if n > 0 {
      IndexedKeys(entries, n - 1);
      assert (set i | 0 <= i < n :: entries[i].stat.name) ==
             (set i | 0 <= i < n - 1 :: entries[i].stat.name) + {entries[n - 1].stat.name};
    }
  }

  /** insert_or_assign: a name is bound to the handle of the last entry so named. */
  lemma {:induction false} IndexedLastWins(entries: seq<Entry>, n: nat, i: nat)
    requires n <= |entries|
    requires forall i :: 0 <= i < n ==> entries[i].stat.StatOk?
    requires IsLastName(entries, n, i)
    ensures entries[i].stat.name in Indexed(entries, n)
    ensures Indexed(entries, n)[entries[i].stat.name] == HandleOf(entries, i)
  {
    if i < n - 1 {
      IndexedLastWins(entries, n - 1, i);
    }
  }

  /** The fields project::project fills. */
  class Project {
    var elementList: map<string, FileHandle>
    var targetList: map<string, Target>
    var stageTarget: Option<string>
    var projectSource: Json

    constructor ()
      ensures elementList == map[] && targetList == map[] && stageTarget == None
      ensures projectSource == JNull
    {
      elementList := map[];
      targetList := map[];
      stageTarget := None;
      projectSource := JNull;
    }

    /**
     * The entry-index loop: zip_stat_index on every index in order; a failure throws
     * libzip_runtime_error with the code the failed zip_stat_index left in the archive's
     * error, and no later index is visited;
     * otherwise the entry's name is insert_or_assigned its zip_fopen_index handle.
     */
    method IndexEntries(a: Archive) returns (err: Option<Error>)
      requires elementList == map[]
      modifies this`elementList
      ensures var j := FirstFailedStat(a.entries, 0);
              elementList == Indexed(a.entries, j) &&
              err == if j < |a.entries| then Some(LibzipError(a.entries[j].stat.code)) else None
    {
      ghost var j := FirstFailedStat(a.entries, 0);
      var i := 0;
      while i < |a.entries|
        invariant 0 <= i <= j
        invariant elementList == Indexed(a.entries, i)
      {
        var stat := a.entries[i].stat;
        if stat.StatFailed? {
          return Some(LibzipError(stat.code));
        }
        elementList := elementList[stat.name := HandleOf(a.entries, i)];
        i := i + 1;
      }
      return None;
    }

    /**
     * element_list["project.json"]: the manifest's handle; when the name is absent,
     * operator[] inserts it with a null handle.
     */
    method ManifestHandle() returns (h: FileHandle)
      modifies this`elementList
      ensures MANIFEST_NAME in old(elementList) ==>
                h == old(elementList)[MANIFEST_NAME] && elementList == old(elementList)
      ensures MANIFEST_NAME !in old(elementList) ==>
                h == NullFile && elementList == old(elementList)[MANIFEST_NAME := NullFile]
    {
      if MANIFEST_NAME !in elementList {
        elementList := elementList[MANIFEST_NAME := NullFile];
      }
      h := elementList[MANIFEST_NAME];
    }

    /**
     * The targets loop over projectSource: a stage is decoded, emplaced and recorded,
     * a second one throws; a sprite before any stage throws, one after it is decoded
     * bound to the stage and emplaced.
     */
    method BuildTargets() returns (err: Option<Error>)
      modifies this`targetList, this`stageTarget
      ensures var o := Build(old(targetList), projectSource);
              targetList == o.table.targets && stageTarget == o.table.stage && err == o.error
    {
      stageTarget := None;
      if !projectSource.JObject? {
        return Some(JsonTypeError(ObjectKind));
      }
      var ts := Member(projectSource.members, "targets");
      if !ts.JArray? {
        return Some(JsonTypeError(ArrayKind));
      }
      var vs := ts.elems;
      var i := 0;
      while i < |vs|
        invariant 0 <= i <= |vs|
        invariant Run(Table(targetList, stageTarget), vs[i..]) == Build(old(targetList), projectSource)
      {
        var v := vs[i];
        assert vs[i..][0] == v && vs[i..][1..] == vs[i + 1..];
        ghost var o := Step(Table(targetList, stageTarget), v);
        if !v.JObject? {
          return Some(JsonTypeError(ObjectKind));
        }
        var name := Member(v.members, "name");
        if !name.JString? {
          return Some(JsonTypeError(StringKind));
        }
        var isStage := Member(v.members, "isStage");
        if !isStage.JBool? {
          return Some(JsonTypeError(BoolKind));
        }
        if isStage.b {
          var s := DecodeStage(v);
          if s.Err? {
            return Some(s.error);
          }
          if name.str !in targetList {
            targetList := targetList[name.str := s.value];
          }
          if stageTarget.None? {
            stageTarget := Some(name.str);
          } else {
            return Some(FormatError(DUPLICATED_STAGE, v));
          }
        } else {
          if stageTarget.None? {
            return Some(FormatError(STAGE_NOT_FIRST, v));
          }
          var t := DecodeTarget(v, Sprite(stageTarget.value));
          if t.Err? {
            return Some(t.error);
          }
          if name.str !in targetList {
            targetList := targetList[name.str := t.value];
          }
        }
        assert Table(targetList, stageTarget) == o.table;
        i := i + 1;
      }
      return None;
    }
  }

  /** Whether no entry's scripted read delivers more than one buffer step. */
  predicate ReadsWithinStep(r: OpenResult)
  {
    r.Opened? ==> forall i :: 0 <= i < |r.archive.entries| ==>
                    WithinRequest(r.archive.entries[i].script, BUFFER_BLOCK_STEP)
  }

  /** A loaded project's fields. */
  datatype Loaded = Loaded(elements: map<string, FileHandle>, source: Json, table: Table)

  /**
   * project::project with the corrected manifest read and a real parse: zip_open
   * with ZIP_CHECKCONS | ZIP_RDONLY, the entry index, the project.json read, the
   * parse of the bytes read, the targets walk; the first exception wins.
   */
  function Load(path: string, zipOpen: (string, int) -> OpenResult,
                parse: seq<byte> -> Option<Json>): Result<Loaded, Error>
  {
    match zipOpen(path, PROJECT_OPEN_FLAGS)
    case OpenFailed(code) => Err(LibzipError(code))
    case Opened(a) => LoadArchive(a, parse)
  }

  /** The steps after zip_open: the entry index, then the manifest. */
  function LoadArchive(a: Archive, parse: seq<byte> -> Option<Json>): Result<Loaded, Error>
  {
    var j := FirstFailedStat(a.entries, 0);
    if j < |a.entries| then Err(LibzipError(a.entries[j].stat.code))
    else LoadManifest(a, WithManifest(Indexed(a.entries, |a.entries|)), parse)
  }

  /** element_list after operator[] on project.json. */
  function WithManifest(m: map<string, FileHandle>): (r: map<string, FileHandle>)
    ensures r.Keys == m.Keys + {MANIFEST_NAME}
    ensures forall k :: k in m ==> r[k] == m[k]
    ensures MANIFEST_NAME !in m ==> r[MANIFEST_NAME] == NullFile
  {
    if MANIFEST_NAME in m then m else m[MANIFEST_NAME := NullFile]
  }

  /**
   * The manifest read on a handle, corrected (see ManifestRead.ReadManifest): -1
   * throws libzip_runtime_error from the archive's error; otherwise the bytes drained
   * are parsed, and a parse failure throws.
   */
  function SourceOf(a: Archive, h: FileHandle, parse: seq<byte> -> Option<Json>): Result<Json, Error>
  {
    var s := HandleReads(a, h);
    var k := FirstNotFull(s, BUFFER_BLOCK_STEP, 0);
    if ReadAt(s, k).ReadFailed? then Err(LibzipError(a.error))
    else
      match parse(Delivered(s, k + 1))
      case None => Err(ParseError)
      case Some(doc) => Ok(doc)
  }

  /** The steps after the index: read and parse project.json, walk its targets. */
  function LoadManifest(a: Archive, elements: map<string, FileHandle>,
                        parse: seq<byte> -> Option<Json>): Result<Loaded, Error>
    requires MANIFEST_NAME in elements
  {
    match SourceOf(a, elements[MANIFEST_NAME], parse)
    case Err(e) => Err(e)
    case Ok(doc) =>
      var o := Build(map[], doc);
      if o.error.Some? then Err(o.error.value) else Ok(Loaded(elements, doc, o.table))
  }

  /** Reads project.json through the handle and parses what was read. */
  method ReadSource(a: Archive, h: FileHandle, parse: seq<byte> -> Option<Json>)
    returns (r: Result<Json, Error>)
    requires ReadsWithinStep(Opened(a))
    ensures r == SourceOf(a, h, parse)
  {
    var content, failed := ReadManifest(HandleReads(a, h));
    if failed {
      return Err(LibzipError(a.error));
    }
    var doc := parse(content);
    if doc.None? {
      return Err(ParseError);
    }
    return Ok(doc.value);
  }

  /**
   * project::project, as the constructor of a Project that exists only when nothing
   * threw.
   */
  method OpenProject(path: string, zipOpen: (string, int) -> OpenResult,
                     parse: seq<byte> -> Option<Json>) returns (r: Result<Project, Error>)
    requires ReadsWithinStep(zipOpen(path, PROJECT_OPEN_FLAGS))
    ensures r.Err? ==> Load(path, zipOpen, parse) == Err(r.error)
    ensures r.Ok? ==> fresh(r.value) &&
                      Load(path, zipOpen, parse) ==
                        Ok(Loaded(r.value.elementList, r.value.projectSource,
                                  Table(r.value.targetList, r.value.stageTarget)))
  {
    ghost var load := Load(path, zipOpen, parse);
    var res := zipOpen(path, PROJECT_OPEN_FLAGS);
    if res.OpenFailed? {
      return Err(LibzipError(res.code));
    }
    var a := res.archive;
    assert load == LoadArchive(a, parse);
    var p := new Project();
    var err := p.IndexEntries(a);
    if err.Some? {
      return Err(err.value);
    }
    assert FirstFailedStat(a.entries, 0) == |a.entries|;
    ghost var indexed := p.elementList;
    var h := p.ManifestHandle();
    assert p.elementList == WithManifest(indexed);
    ghost var elements := p.elementList;
    assert load == LoadManifest(a, elements, parse);
    var doc := ReadSource(a, h, parse);
    if doc.Err? {
      return Err(doc.error);
    }
    ghost var o := Build(map[], doc.value);
    assert load == if o.error.Some? then Err(o.error.value) else Ok(Loaded(elements, doc.value, o.table));
    p.projectSource := doc.value;
    err := p.BuildTargets();
    if err.Some? {
      return Err(err.value);
    }
    return Ok(p);
  }

  /**
   * A loaded project: element_list holds every entry name and project.json, the
   * manifest has a `targets` array, and its first element, if any, is the recorded
   * stage.
   */
  lemma LoadedProject(path: string, zipOpen: (string, int) -> OpenResult,
                      parse: seq<byte> -> Option<Json>)
    requires Load(path, zipOpen, parse).Ok?
    ensures var a := zipOpen(path, PROJECT_OPEN_FLAGS).archive;
            var l := Load(path, zipOpen, parse).value;
            MANIFEST_NAME in l.elements &&
            (forall i :: 0 <= i < |a.entries| ==>
                           a.entries[i].stat.StatOk? && a.entries[i].stat.name in l.elements) &&
            l.source.JObject? && Member(l.source.members, "targets").JArray? &&
            var vs := Member(l.source.members, "targets").elems;
            l.table == Run(EMPTY, vs).table && Run(EMPTY, vs).error.None? &&
            (|vs| == 0 ==> l.table == EMPTY) &&
            (|vs| > 0 ==> IsStage(vs[0]) && l.table.stage == Some(NameOf(vs[0])))
  {
    var a := zipOpen(path, PROJECT_OPEN_FLAGS).archive;
    var l := Load(path, zipOpen, parse).value;
    IndexedKeys(a.entries, |a.entries|);
    var vs := Member(l.source.members, "targets").elems;
    BuildOkIff(vs);
    if |vs| > 0 {
      BuildResult(vs);
    }
  }

  /**
   * As written, project_source is a JSON string holding the buffer's text, so the
   * targets walk throws at its first as_object, whatever the entry holds, and leaves
   * target_list as it was.
   */
  lemma AsWrittenSourceNeverLoads(targets: map<string, Target>, buffer: seq<byte>)
    ensures Build(targets, ManifestValueAsWritten(buffer)) ==
            Outcome(Table(targets, None), Some(JsonTypeError(ObjectKind)))
  {
  }
}
