# libscratch3 bundle loader, modelled in Dafny

This project models the loader core of libscratch3, a C++ library that loads
Scratch 3 project bundles (`.sb3` zip archives). The model covers:

- `project::project`, which:
  - opens the bundle through libzip;
  - indexes every archive entry by name;
  - drains the `project.json` entry into a growing buffer;
  - walks the manifest's `targets` array to build the target table.
    There must be one stage, listed before any sprite.
- `target::target` and `stage::stage`, which decode a target's name and its
  variable table.
- The small zip wrapper in `zip.cpp`:
  - `zip::zip` opens an archive;
  - `zip::open` opens an entry;
  - `zip::file::file` drains the entry in blocks of `READ_BLOCK_SIZE` (1024) bytes.

The libzip calls are modelled as scripted answers (module `Libzip`):

- An archive is a sequence of entries. For each entry, the script says:
  - what `zip_stat_index` reports;
  - whether `zip_fopen_index` opens it;
  - what each `zip_fread` call returns: the bytes delivered, or `-1`.
- Past the end of a script, reads return 0 bytes (end of stream).
- `Libzip.Blocks` gives the answers a real file returns to fixed-size reads.

A JSON document is an already parsed `boost::json` value tree (module `Json`).
The parser itself is a parameter.

Exceptions become values of `Errors.Error`, carried in `Result`:

- `libzip_runtime_error` and `libzip_failure` become `LibzipError(code)`.
- `file_format_error(what, value)` becomes `FormatError`.
- `boost::json`'s `as_X` on a value of the wrong kind becomes `JsonTypeError(kind)`.
- An array index past the end becomes `IndexOutOfRange`.
- `std::bad_cast` from a failed `dynamic_cast` becomes `BadCast`.

Objects whose fields the source updates keep that form:

- `Project.Project` holds `element_list`, `target_list`, `stage_target` and
  `project_source`. Its methods update these fields.
- `Zip.File` holds the bytes written to the `std::stringstream` base.

Each method is proved against a pure function:

- `TargetTable.Build` and `Run` for the targets loop.
- `Project.Indexed` for the entry index.
- `Project.Load` for the whole constructor.
- `Targets.TargetOf` for target decoding.
- `Zip.FileContent` for `zip::open`.

Lemmas then state what those functions guarantee.

Four places in the source do not do what they evidently intend; see
"## Findings". Each is modelled twice. The as-written member has lemmas that
exhibit the defect. The corrected member is the one the rest of the model uses.

Where the code departs from what a Scratch 3 loader is generally expected to do,
the model follows the code:

- Several targets with the same name: `unordered_map::emplace` keeps the first,
  not the last (`TargetTable.BuildFirstWins`).
- An empty `targets` array loads with no stage.
- An array whose first element is a sprite fails there, with "a non stage target
  listed front of stage" (`TargetTable.SpriteFirstFails`).
- Variable values are read with `as_int64` only. Strings and doubles throw.

## Model

| member | source | states |
|---|---|---|
| Json.MemberAbsent | src/project.cpp:42-45 | `object::operator[]` on a key no member carries yields null |
| Json.MemberFirst | src/project.cpp:42-45 | `object::operator[]` yields the value of the first member carrying the key |
| Libzip.Blocks | src/zip.cpp:81 | a real file answers full blocks, then one short block (possibly empty), and never more than it was asked for |
| Libzip.DrainReadsWholeFile | src/zip.cpp:79-85 | reading on while blocks come back full stops, without failure, at the file's last answer, and the bytes delivered are exactly the file's content |
| Libzip.Locate | src/zip.cpp:61 | `zip_fopen` by name finds the first entry with that name, or none when no entry has it |
| Zip.ToUint64 | src/zip.cpp:78-82 | converting `zip_int64_t` to `zip_uint64_t` keeps non-negative counts and turns `-1` into the largest `zip_uint64_t`, which the loop tests for |
| Zip.OpenZip | src/zip.cpp:51-58 | `zip::zip` fails exactly when `zip_open` with `ZIP_RDONLY` fails, with that error number; otherwise it keeps the path and the archive |
| Zip.FirstEndAsWritten | src/zip.cpp:79-85 | the as-written loop stops at the first answer that is a full block or `-1`; every answer before it is short |
| Zip.File.constructor | src/zip.cpp:73-74 | a new file keeps its handle and starts with an empty stream |
| Zip.File.ReadBlocksAsWritten | src/zip.cpp:76-87 | the loop as written: it fails exactly when that stopping answer is `-1`; the stream gains every answer's bytes before it, plus the stopping answer's bytes when that answer is not `-1` |
| Zip.File.ReadBlocks | src/zip.cpp:76-87 | the corrected loop: it stops at the first answer that is not a full block; it fails exactly when that answer is `-1`; otherwise the stream gains every byte delivered up to and including it |
| Zip.FopenIndex | src/zip.cpp:61-63 | `zip_fopen` opens the first entry carrying the name (the one `Locate` finds); it yields no handle exactly when no entry carries the name or that first entry does not open |
| Zip.Open | src/zip.cpp:59-72 | `zip::open` fails exactly when opening or draining fails, always with the archive's error; on success it returns a fresh file on that entry holding `FileContent` |
| Zip.OpenReadsWholeEntry | src/zip.cpp:59-88 | `zip::open` on an entry that reads like a real file yields exactly that file's content |
| Zip.AsWrittenKeepsFirstBlock | src/zip.cpp:85 | as written, a file of at least 1024 bytes stops after its first block and keeps only its first 1024 bytes |
| Zip.AsWrittenNeverEndsOnShortFile | src/zip.cpp:85 | as written, a file shorter than 1024 bytes never gives an answer that ends the loop |
| Targets.DecodeVariable | src/project.cpp:89-92 | a variable decodes exactly when it is an array whose element 0 is a string and whose element 1 is an int64; the result is (element 0, element 1); each other case gives the error of the first failing access, in access order |
| Targets.VariablesOkIff | src/project.cpp:86-94 | a variable table decodes exactly when every member decodes |
| Targets.VariablesFirstError | src/project.cpp:86-94 | a failing table fails with the error of its first member that does not decode |
| Targets.VariablesKeys | src/project.cpp:86-94 | a decoded table has exactly the member keys as keys |
| Targets.VariablesLastWins | src/project.cpp:93 | `insert_or_assign` makes the last member with a key decide that key's entry |
| Targets.VariablesPrefixError | src/project.cpp:86-94 | an error in a prefix of the members is the error of the whole table |
| Targets.DecodeTarget | src/project.cpp:83-95 | the imperative `target::target` loop yields exactly `TargetOf` |
| Targets.DecodeStage | src/project.cpp:96-99 | `stage::stage` decodes as `target::target` does, in the stage role |
| Targets.TargetContents | src/project.cpp:83-95 | a decoded target has the manifest's name and the caller's role; its variable keys are the member keys; each key comes from the last member carrying it |
| TargetTable.RunAppend | src/project.cpp:42-73 | the loop over two concatenated arrays runs the second array from where the first one left off, unless the first one threw |
| TargetTable.RunKeepsStage | src/project.cpp:51-58 | once recorded, `stage_target` never changes |
| TargetTable.RunKeepsEntries | src/project.cpp:47-70 | `emplace` never replaces an entry already in `target_list` |
| TargetTable.SpritePhaseOk | src/project.cpp:60-71 | after the stage, the loop completes exactly when every remaining element is a sprite that decodes |
| TargetTable.SpritePhaseKeys | src/project.cpp:60-71 | after the stage, a completed loop adds exactly the names of the remaining elements |
| TargetTable.SpritePhaseFirstWins | src/project.cpp:66-71 | after the stage, a new name is bound to its first sprite, decoded with the stage as its stage |
| TargetTable.BuildOkIff | src/project.cpp:41-73 | a `targets` array loads exactly when it is empty, or when its first element is a stage that decodes and every later element is a sprite that decodes; an empty array leaves the table empty with no stage |
| TargetTable.FirstStep | src/project.cpp:45-54 | in an array that loads, the first iteration decodes the first element as the stage and records it |
| TargetTable.BuildResult | src/project.cpp:41-73 | in a non-empty array that loads, the stage is the first element, and the table's keys are exactly the elements' names |
| TargetTable.BuildFirstWins | src/project.cpp:45-71 | in an array that loads, each name is bound to the first element carrying it, decoded in that element's role |
| TargetTable.SpriteFirstFails | src/project.cpp:62-65 | a sprite first fails with "a non stage target listed front of stage", whatever follows it |
| TargetTable.SecondStageFails | src/project.cpp:51-58 | a stage that decodes, placed after a prefix that loaded, fails with "duplicated stage detected" and leaves the first stage recorded |
| ManifestRead.FirstNonZero | src/project.cpp:31 | the as-written loop leaves at the first `zip_fread` call that does not return 0 |
| ManifestRead.ReadManifestAsWritten | src/project.cpp:28-35 | the read as written: after it, the buffer is 4096 × (calls made) bytes, its start holds the bytes of the last call only, and every byte after them is still zero |
| ManifestRead.ReadManifest | src/project.cpp:28-35 | the corrected read: it stops at the first answer that does not fill its window; it fails exactly when that answer is `-1`; otherwise it yields every byte delivered up to and including that answer |
| ManifestRead.UpToNul | src/project.cpp:37-38 | reading the buffer as a C string takes the bytes before the first NUL |
| ManifestRead.ManifestValueAsWritten | src/project.cpp:37-38 | as written, `project_source` is a JSON string whose characters are, one by one, the buffer's bytes before the first NUL |
| ManifestRead.AsWrittenTruncatesLargeManifest | src/project.cpp:31-35 | as written, an entry over 4096 bytes is read by one call and keeps only its first 4096 bytes |
| ManifestRead.AsWrittenSpinsOnEmptyManifest | src/project.cpp:31-35 | as written, every call on an empty entry returns 0, so the loop does not end until `buffer_size` overflows |
| ManifestRead.ReadManifestReadsWholeEntry | src/project.cpp:28-35 | the corrected read on an entry that reads like a real file yields exactly its content |
| Project.FirstFailedStat | src/project.cpp:16-23 | the index loop stops at the first entry whose `zip_stat_index` fails; every entry before it stats |
| Project.IndexedKeys | src/project.cpp:24-25 | `element_list` has exactly the names of the indexed entries as keys |
| Project.IndexedLastWins | src/project.cpp:24-25 | `insert_or_assign` binds a name to the handle of the last entry carrying it |
| Project.Project.constructor | src/project.hpp:62-67 | a new project starts with empty tables, no stage and a null source |
| Project.Project.IndexEntries | src/project.cpp:15-26 | the index loop fills `element_list` as `Indexed` says, up to the first failing stat; that failure throws with its code; otherwise nothing is thrown |
| Project.Project.ManifestHandle | src/project.cpp:31 | `element_list["project.json"]` returns the bound handle; when the name is absent, it inserts and returns a null handle |
| Project.Project.BuildTargets | src/project.cpp:41-73 | the targets loop leaves `target_list`, `stage_target` and the exception exactly as `Build` does |
| Project.ReadSource | src/project.cpp:28-38 | the corrected read followed by the parse yields `SourceOf` |
| Project.OpenProject | src/project.cpp:6-73 | the constructor fails exactly as `Load` does; on success it returns a fresh project whose four fields are `Load`'s result |
| Project.LoadedProject | src/project.cpp:6-73 | a loaded project indexes every entry and `project.json`; its manifest has a `targets` array, whose walk completes; that array is either empty with an empty table, or its first element is a stage and the recorded stage |
| Project.AsWrittenSourceNeverLoads | src/project.cpp:37-42 | as written, the targets walk on `project_source` always throws, because the root is not an object, and leaves `target_list` unchanged |
| Json.Member | src/project.cpp:42-45 | `object::operator[]` on a member list; what it yields is stated by `MemberAbsent` and `MemberFirst` |
| Libzip.HandleReads | src/project.cpp:31 | the answers `zip_fread` gives on a handle; on a null handle the first call returns `-1`, which ends both manifest read loops (`ManifestRead.NullHandleEndsBothReads`) |
| ManifestRead.NullHandleEndsBothReads | src/project.cpp:31-35 | on a null manifest handle the first `zip_fread` returns `-1`: the as-written loop leaves at that call, and the corrected read stops there and fails |
| TargetTable.Emplace | src/project.cpp:49-70 | `unordered_map::emplace`: the key is present afterwards, every existing binding is kept, and the new target is bound only when the key was absent |
| Zip.EndsAsWritten | src/zip.cpp:82-85 | an answer ends the as-written do-while exactly when it is the `-1` sentinel, which throws, or a block of at least 1024 bytes; `FirstEndAsWritten`, `AsWrittenKeepsFirstBlock` and `AsWrittenNeverEndsOnShortFile` state what follows |
| Zip.FileContent | src/zip.cpp:59-88 | what `zip::open` yields with the corrected loop; `Zip.Open` is proved equal to it, and `OpenReadsWholeEntry` says that it is the entry's content |
| Targets.Variables | src/project.cpp:86-94 | the variable table built by `insert_or_assign` over the members in order, or the first error; stated by `VariablesOkIff`, `VariablesFirstError`, `VariablesKeys` and `VariablesLastWins` |
| Targets.TargetOf | src/project.cpp:83-95 | what `target::target` decodes; `DecodeTarget` is proved equal to it, and `TargetContents` says what it holds |
| TargetTable.Step | src/project.cpp:44-72 | one iteration of the corrected targets loop; its behaviour across a whole array is stated by `BuildOkIff`, `BuildResult`, `BuildFirstWins`, `SpriteFirstFails` and `SecondStageFails` |
| TargetTable.Run | src/project.cpp:42-73 | the targets loop, stopping at the first exception; `RunAppend`, `RunKeepsStage` and `RunKeepsEntries` state its invariants |
| TargetTable.Build | src/project.cpp:41-42 | the root's `as_object`, then `targets`' `as_array`, then the loop from no stage; `Project.Project.BuildTargets` is proved equal to it |
| TargetTable.StepAsWritten | src/project.cpp:60-69 | one iteration as written, where a sprite after the stage throws `std::bad_cast` |
| TargetTable.RunAsWritten | src/project.cpp:42-73 | the targets loop as written |
| TargetTable.AsWrittenStepAfterStageFails | src/project.cpp:51-68 | as written, once a stage is recorded every further element throws, and a sprite throws `std::bad_cast` |
| TargetTable.AsWrittenLoadsOnlyStage | src/project.cpp:41-73 | as written, a `targets` array loads exactly when it is empty or holds one decodable stage alone; a decodable stage followed by a sprite throws `std::bad_cast` |
| TargetTable.CorrectedLoadsStageAndSprite | src/project.cpp:60-71 | a decodable stage followed by a decodable sprite loads with the corrected loop and throws as written |
| ManifestRead.WriteAtStart | src/project.cpp:31 | `zip_fread` into the buffer's start: the answer's bytes first, the rest of the buffer unchanged, the size kept |
| Project.HandleOf | src/project.cpp:25 | the handle `zip_fopen_index` returns for an entry, null when it does not open |
| Project.Indexed | src/project.cpp:16-26 | `element_list` after the first n entries; `IndexedKeys` and `IndexedLastWins` state its contents, and `IndexEntries` is proved equal to it |
| Project.WithManifest | src/project.cpp:31 | `element_list["project.json"]` adds the key when it is missing, bound to a null handle, and keeps every other binding |
| Project.SourceOf | src/project.cpp:28-38 | the corrected read of the manifest handle followed by the parse; a failed read or parse throws |
| Project.LoadManifest | src/project.cpp:28-73 | reading and parsing `project.json`, then the targets walk |
| Project.LoadArchive | src/project.cpp:15-73 | the entry index, then `LoadManifest` |
| Project.Load | src/project.cpp:6-73 | the corrected constructor; `OpenProject` is proved equal to it, and `LoadedProject` states what a loaded project holds |

## Left out

- The destructor's `zip_close` and `zip_fclose` loop (src/project.cpp:75-82) is left out. The model does not track resources.
- Handles are never leaked or closed in the model. That includes the handles for entries `zip::open` aborts and the one `zip::file` keeps.
- The player and SDL code is not part of this model. Neither are costume and sound tables, which the source declares but never fills.
- Lists, costumes, sounds and string or double variable values, which a Scratch 3 manifest carries, are left out. The modelled source never decodes them.
- Exception messages are left out: the `what()` texts, `std::format` and `zip_error_strerror`. An error carries only its code, or the message text and the culprit value.
- JSON text parsing is left out. `boost::json` trees are inputs, and `Project.Load` takes the parser as a function.
- TargetTable.Step and Project.Project.BuildTargets bind a sprite to the stage by the stage's key. As written, the `dynamic_cast<stage&>` at src/project.cpp:68 throws `std::bad_cast` instead; see "## Findings" and `TargetTable.StepAsWritten`.
- Libzip.HandleReads: on a null handle only the first `zip_fread` is scripted as `-1`; later calls answer 0 bytes, where libzip returns `-1` on every call. Both manifest read loops stop at the first call, so no modelled loop reaches the difference.
- ManifestRead.UpToNul: when the buffer holds no NUL byte, the model takes the whole buffer. In the source, `value(char const*)` then runs `strlen` past the end of the allocation, which is undefined behaviour. This happens whenever the first `zip_fread` fills all 4096 bytes of the `calloc`ed buffer.
- Json.JObject may carry the same key twice, and `Json.Member` resolves a repeated key to its first member. A `boost::json::object` holds each key once; its parser keeps the last value of a repeated key. So on manifest text with repeated keys, the model and `boost::json` can answer differently. `Targets.VariablesLastWins` likewise speaks of member lists that `boost::json` would not build.
- Target layout: the header declares `name` as a `string_view` and each variable value as a vector of variants (src/project.hpp:27-29). It also declares constructor signatures that take an element list. The model follows the `.cpp`: a string name, an `int64` value, and constructors on the JSON value alone.
- Array indexing: `as_array()[k]` is unchecked in the source, so reading past the end is undefined behaviour. The model reports it as an error.
- `realloc` growth is modelled as zero bytes. The bytes `realloc` adds are indeterminate.
- Consistency checks: `ZIP_CHECKCONS` is passed through, but the consistency checks libzip performs are not modelled.
- ManifestRead.ReadManifestAsWritten: it requires a call that does not return 0. Otherwise the loop runs until `buffer_size` overflows (see `AsWrittenSpinsOnEmptyManifest` and "Integer widths" below).
- Zip.File.ReadBlocksAsWritten: it likewise requires an answer that ends the loop (see `AsWrittenNeverEndsOnShortFile`).
- Zip.File.constructor: the source's `zip::file::file` opens and drains in one constructor. The model splits it into the constructor and `ReadBlocks`.
- Zip.Open and Project.OpenProject require that no answer delivers more than was asked for. `zip_fread` guarantees this.
- ManifestRead.ReadManifest and Project.Load, the corrected read, throw on `-1` with the archive's error. This is how `zip::file` handles the same sentinel (src/zip.cpp:82-83, 68-71). As written, `-1` just ends the loop.
- Integer widths: entry counts, indexes and `buffer_size` are unbounded. Only the `zip_int64_t` to `zip_uint64_t` conversion in `zip::file` is modelled. `buffer_size` is an `int` (src/project.cpp:28-29): on an empty `project.json` the as-written loop grows it 524,286 times (to 4096 × 524,287 bytes), and the next `+= 4096` overflows, which is undefined behaviour.

## Findings

| source | as written | input that shows it | evidently intended | confidence | as-written member | corrected member |
|---|---|---|---|---|---|---|
| src/zip.cpp:85 | `while (written_size < READ_BLOCK_SIZE)` loops while reads come back short and stops after a full block | an entry of 2048 bytes keeps only its first 1024; an entry of 10 bytes never stops, since every further read returns 0 | read on while blocks come back full; stop at the first short read | not executed | Zip.File.ReadBlocksAsWritten, Zip.AsWrittenKeepsFirstBlock, Zip.AsWrittenNeverEndsOnShortFile | Zip.File.ReadBlocks, Zip.OpenReadsWholeEntry |
| src/project.cpp:31-35 | the loop repeats only while `zip_fread` returns 0; every call writes at the buffer's start | a 5000-byte `project.json` is read by one call that fills all 4096 bytes, so the rest is lost and the C-string read at lines 37-38 runs past the buffer; an empty `project.json` returns 0 on every call, and the loop grows the buffer until `buffer_size` overflows `int` | read into the first unwritten byte; grow when the buffer fills; stop at a short read | not executed | ManifestRead.ReadManifestAsWritten, ManifestRead.AsWrittenTruncatesLargeManifest, ManifestRead.AsWrittenSpinsOnEmptyManifest | ManifestRead.ReadManifest, ManifestRead.ReadManifestReadsWholeEntry |
| src/project.cpp:37-38 | `boost::json::value(char const*)` builds a JSON string holding the text | any `project.json`, e.g. `{"targets":[]}`, gives a string, and `as_object()` at line 42 throws | parse the bytes as JSON text | not executed | ManifestRead.ManifestValueAsWritten, Project.AsWrittenSourceNeverLoads | Project.Load, Project.LoadedProject |
| src/project.cpp:68 | `dynamic_cast<stage&>` on the entry `stage_target` points to; `target_list` stores `target` by value, so the stage was sliced on `emplace` at line 49 | a `targets` array holding a decodable stage and then a decodable sprite: the sprite's iteration throws `std::bad_cast` | bind each sprite to the stage that was recorded | not executed | TargetTable.StepAsWritten, TargetTable.AsWrittenStepAfterStageFails, TargetTable.AsWrittenLoadsOnlyStage | TargetTable.Step, TargetTable.SpritePhaseOk, TargetTable.BuildOkIff, TargetTable.CorrectedLoadsStageAndSprite |
