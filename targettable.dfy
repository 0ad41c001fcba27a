/**
 * The targets loop of project::project: walks the manifest's `targets` array in
 * order, keeping target_list and the stage_target marker (a key here, not an
 * iterator).
 */
module TargetTable {
  import opened Wrappers
  import opened Json
  import opened Errors
  import opened Targets

  const DUPLICATED_STAGE: string := "duplicated stage detected"
  const STAGE_NOT_FIRST: string := "a non stage target listed front of stage"

  /** target_list, and the key of the stage once one is recorded. */
  datatype Table = Table(targets: map<string, Target>, stage: Option<string>)

  /** Where the loop stopped: its state at that point and the exception it threw, if any. */
  datatype Outcome = Outcome(table: Table, error: Option<Error>)

  const EMPTY: Table := Table(map[], None)

  /** unordered_map::emplace: inserts only under a key not yet present. */
  function Emplace(m: map<string, Target>, k: string, t: Target): (r: map<string, Target>)
    ensures r.Keys == m.Keys + {k}
    ensures r[k] == if k in m then m[k] else t
    ensures forall j :: j in m ==> r[j] == m[j]
  {
    if k in m then m else m[k := t]
  }

  /** Whether a target element is an object with a string `name` and a bool `isStage`. */
  predicate Header(v: Json)
  {
    v.JObject? && Member(v.members, "name").JString? && Member(v.members, "isStage").JBool?
  }

  function NameOf(v: Json): string
  {
    if v.JObject? && Member(v.members, "name").JString? then Member(v.members, "name").str else ""
  }

  predicate IsStage(v: Json)
  {
    Header(v) && Member(v.members, "isStage").b
  }

  predicate IsSprite(v: Json)
  {
    Header(v) && !Member(v.members, "isStage").b
  }

  /** Whether the element decodes as a target (in any role; the role does not matter). */
  predicate Decodes(v: Json)
  {
    TargetOf(v, Stage).Ok?
  }

  /** One iteration of the targets loop. */
  function Step(t: Table, v: Json): Outcome
  {
    if !v.JObject? then Outcome(t, Some(JsonTypeError(ObjectKind)))
    else if !Member(v.members, "name").JString? then Outcome(t, Some(JsonTypeError(StringKind)))
    else if !Member(v.members, "isStage").JBool? then Outcome(t, Some(JsonTypeError(BoolKind)))
    else if Member(v.members, "isStage").b then
      match TargetOf(v, Stage)
      case Err(e) => Outcome(t, Some(e))
      case Ok(s) =>
        var targets := Emplace(t.targets, NameOf(v), s);
        if t.stage.None? then Outcome(Table(targets, Some(NameOf(v))), None)
        else Outcome(Table(targets, t.stage), Some(FormatError(DUPLICATED_STAGE, v)))
    else if t.stage.None? then Outcome(t, Some(FormatError(STAGE_NOT_FIRST, v)))
    else
      match TargetOf(v, Sprite(t.stage.value))
      case Err(e) => Outcome(t, Some(e))
      case Ok(s) => Outcome(Table(Emplace(t.targets, NameOf(v), s), t.stage), None)
  }

  /** The loop over the elements vs, from state t, up to the first exception. */
  function Run(t: Table, vs: seq<Json>): Outcome
    decreases |vs|
  {
    if |vs| == 0 then Outcome(t, None)
    else
      var o := Step(t, vs[0]);
      if o.error.Some? then o else Run(o.table, vs[1..])
  }

  /**
   * The whole targets walk on a manifest tree: the root read as_object, its
   * `targets` as_array, the marker reset, then the loop.
   */
  function Build(targets: map<string, Target>, doc: Json): Outcome
  {
    if !doc.JObject? then Outcome(Table(targets, None), Some(JsonTypeError(ObjectKind)))
    else
      var ts := Member(doc.members, "targets");
      if !ts.JArray? then Outcome(Table(targets, None), Some(JsonTypeError(ArrayKind)))
      else Run(Table(targets, None), ts.elems)
  }

  /** The role the source gives element i of a valid targets array. */
  function RoleAt(vs: seq<Json>, i: nat): Role
    requires i < |vs|
  {
    if i == 0 then Stage else Sprite(NameOf(vs[0]))
  }

  /** The names the elements carry. */
  function Names(vs: seq<Json>): set<string>
  {
    set i | 0 <= i < |vs| :: NameOf(vs[i])
  }

  lemma NamesSplit(vs: seq<Json>)
    requires |vs| > 0
    ensures Names(vs) == {NameOf(vs[0])} + Names(vs[1..])
  {
    var rest := vs[1..];
    forall n | n in Names(vs) ensures n in {NameOf(vs[0])} + Names(rest) {
      var i :| 0 <= i < |vs| && NameOf(vs[i]) == n;
      if i > 0 {
        assert rest[i - 1] == vs[i];
      }
    }
    forall n | n in Names(rest) ensures n in Names(vs) {
      var i :| 0 <= i < |rest| && NameOf(rest[i]) == n;
      assert vs[i + 1] == rest[i];
    }
  }

  /** Whether element i is the first one with its name. */
  predicate IsFirstName(vs: seq<Json>, i: int)
  {
    0 <= i < |vs| && forall j :: 0 <= j < i ==> NameOf(vs[j]) != NameOf(vs[i])
  }

  lemma {:induction false} RunAppend(t: Table, a: seq<Json>, b: seq<Json>)
    ensures Run(t, a + b) == if Run(t, a).error.Some? then Run(t, a) else Run(Run(t, a).table, b)
    decreases |a|
  {
    if |a| > 0 {
      assert (a + b)[0] == a[0];
      assert (a + b)[1..] == a[1..] + b;
      RunAppend(Step(t, a[0]).table, a[1..], b);
    } else {
      assert a + b == b;
    }
  }

  /** Once recorded, the stage marker never changes. */
  lemma {:induction false} RunKeepsStage(t: Table, vs: seq<Json>)
    requires t.stage.Some?
    ensures Run(t, vs).table.stage == t.stage
    decreases |vs|
  {
    if |vs| > 0 && Step(t, vs[0]).error.None? {
      RunKeepsStage(Step(t, vs[0]).table, vs[1..]);
    }
  }

  /** emplace never replaces: an entry already in the table stays as it is. */
  lemma {:induction false} RunKeepsEntries(t: Table, vs: seq<Json>, k: string)
    requires k in t.targets
    ensures k in Run(t, vs).table.targets && Run(t, vs).table.targets[k] == t.targets[k]
    decreases |vs|
  {
    if |vs| > 0 && Step(t, vs[0]).error.None? {
      RunKeepsEntries(Step(t, vs[0]).table, vs[1..], k);
    }
  }

  /** After the stage, the loop succeeds exactly when every element is a decodable sprite. */
  lemma {:induction false} SpritePhaseOk(t: Table, vs: seq<Json>)
    requires t.stage.Some?
    ensures Run(t, vs).error.None? <==>
            forall i :: 0 <= i < |vs| ==> IsSprite(vs[i]) && Decodes(vs[i])
    decreases |vs|
  {
    if |vs| > 0 {
      var o := Step(t, vs[0]);
      if o.error.None? {
        SpritePhaseOk(o.table, vs[1..]);
        assert forall i :: 1 <= i < |vs| ==> vs[i] == vs[1..][i - 1];
      }
    }
  }

  /** After the stage, a successful loop adds exactly the names of the elements. */
  lemma {:induction false} SpritePhaseKeys(t: Table, vs: seq<Json>)
    requires t.stage.Some? && Run(t, vs).error.None?
    ensures Run(t, vs).table.targets.Keys == t.targets.Keys + Names(vs)
    decreases |vs|
  {
    if |vs| > 0 {
      var o := Step(t, vs[0]);
      SpritePhaseKeys(o.table, vs[1..]);
      NamesSplit(vs);
    }
  }

  /** After the stage, a new name is bound to the first sprite that carries it. */
  lemma {:induction false} SpritePhaseFirstWins(t: Table, vs: seq<Json>, i: nat)
    requires t.stage.Some? && Run(t, vs).error.None?
    requires IsFirstName(vs, i) && NameOf(vs[i]) !in t.targets
    ensures NameOf(vs[i]) in Run(t, vs).table.targets
    ensures TargetOf(vs[i], Sprite(t.stage.value)) == Ok(Run(t, vs).table.targets[NameOf(vs[i])])
    decreases |vs|
  {
    var o := Step(t, vs[0]);
    if i == 0 {
      RunKeepsEntries(o.table, vs[1..], NameOf(vs[0]));
    } else {
      assert NameOf(vs[0]) != NameOf(vs[i]);
      assert vs[1..][i - 1] == vs[i];
      SpritePhaseFirstWins(o.table, vs[1..], i - 1);
    }
  }

  /**
   * A targets array loads exactly when it is empty, or its first element is a
   * decodable stage and every other element a decodable sprite; an empty array
   * records no stage.
   */
  lemma BuildOkIff(vs: seq<Json>)
    ensures Run(EMPTY, vs).error.None? <==>
            |vs| == 0 ||
            (IsStage(vs[0]) && Decodes(vs[0]) &&
             forall i :: 1 <= i < |vs| ==> IsSprite(vs[i]) && Decodes(vs[i]))
    ensures |vs| == 0 ==> Run(EMPTY, vs) == Outcome(EMPTY, None)
  {
    if |vs| > 0 {
      var o := Step(EMPTY, vs[0]);
      if o.error.None? {
        SpritePhaseOk(o.table, vs[1..]);
        assert forall i :: 1 <= i < |vs| ==> vs[i] == vs[1..][i - 1];
      }
    }
  }

  /** The first iteration of a loop that loads records the first element as the stage. */
  lemma FirstStep(vs: seq<Json>)
    requires |vs| > 0 && Run(EMPTY, vs).error.None?
    ensures IsStage(vs[0]) && TargetOf(vs[0], Stage).Ok?
    ensures Step(EMPTY, vs[0]) ==
            Outcome(Table(map[NameOf(vs[0]) := TargetOf(vs[0], Stage).value], Some(NameOf(vs[0]))), None)
    ensures Run(EMPTY, vs) == Run(Step(EMPTY, vs[0]).table, vs[1..])
  {
  }

  /**
   * A loaded non-empty targets array: the stage is the first element, its name is
   * the recorded key, and every name has an entry.
   */
  lemma BuildResult(vs: seq<Json>)
    requires |vs| > 0 && Run(EMPTY, vs).error.None?
    ensures Run(EMPTY, vs).table.stage == Some(NameOf(vs[0]))
    ensures Run(EMPTY, vs).table.targets.Keys == Names(vs)
  {
    FirstStep(vs);
    StageTable(vs);
    ResultAfterStage(Step(EMPTY, vs[0]).table, vs);
  }

  /** The table the first iteration leaves when the stage decodes. */
  lemma StageTable(vs: seq<Json>)
    requires |vs| > 0 && IsStage(vs[0]) && TargetOf(vs[0], Stage).Ok?
    ensures Step(EMPTY, vs[0]).table.stage == Some(NameOf(vs[0]))
    ensures Step(EMPTY, vs[0]).table.targets.Keys == {NameOf(vs[0])}
  {
  }

  /** BuildResult from the table the stage left. */
  lemma ResultAfterStage(t: Table, vs: seq<Json>)
    requires |vs| > 0 && t.stage == Some(NameOf(vs[0])) && t.targets.Keys == {NameOf(vs[0])}
    requires Run(t, vs[1..]).error.None?
    ensures Run(t, vs[1..]).table.stage == Some(NameOf(vs[0]))
    ensures Run(t, vs[1..]).table.targets.Keys == Names(vs)
  {
    RunKeepsStage(t, vs[1..]);
    SpritePhaseKeys(t, vs[1..]);
    NamesSplit(vs);
  }

  /** The stage case of BuildFirstWins. */
  lemma StageEntry(vs: seq<Json>)
    requires |vs| > 0 && Run(EMPTY, vs).error.None?
    ensures NameOf(vs[0]) in Run(EMPTY, vs).table.targets
    ensures TargetOf(vs[0], Stage) == Ok(Run(EMPTY, vs).table.targets[NameOf(vs[0])])
  {
    FirstStep(vs);
    RunKeepsEntries(Step(EMPTY, vs[0]).table, vs[1..], NameOf(vs[0]));
  }

  /** The sprite case of BuildFirstWins. */
  lemma SpriteEntry(vs: seq<Json>, i: nat)
    requires 0 < i && Run(EMPTY, vs).error.None? && IsFirstName(vs, i)
    ensures NameOf(vs[i]) in Run(EMPTY, vs).table.targets
    ensures TargetOf(vs[i], Sprite(NameOf(vs[0]))) == Ok(Run(EMPTY, vs).table.targets[NameOf(vs[i])])
  {
    FirstStep(vs);
    StageTable(vs);
    SpriteEntryAfter(Step(EMPTY, vs[0]).table, vs, i);
  }

  /** SpriteEntry from the table the stage left. */
  lemma SpriteEntryAfter(t: Table, vs: seq<Json>, i: nat)
    requires 0 < i && IsFirstName(vs, i)
    requires t.stage == Some(NameOf(vs[0])) && t.targets.Keys == {NameOf(vs[0])}
    requires Run(t, vs[1..]).error.None?
    ensures NameOf(vs[i]) in Run(t, vs[1..]).table.targets
    ensures TargetOf(vs[i], Sprite(NameOf(vs[0]))) == Ok(Run(t, vs[1..]).table.targets[NameOf(vs[i])])
  {
    FirstNameTail(vs, i);
    SpritePhaseFirstWins(t, vs[1..], i - 1);
  }

  /** Dropping the first element keeps a later first occurrence first. */
  lemma FirstNameTail(vs: seq<Json>, i: nat)
    requires 0 < i && IsFirstName(vs, i)
    ensures vs[1..][i - 1] == vs[i] && IsFirstName(vs[1..], i - 1)
    ensures NameOf(vs[0]) != NameOf(vs[i])
  {
    var rest := vs[1..];
    forall j | 0 <= j < i - 1 ensures NameOf(rest[j]) != NameOf(rest[i - 1]) {
      assert rest[j] == vs[j + 1];
    }
  }

  /**
   * In a loaded targets array each name is bound to the first element that carries
   * it, decoded in its role: a later element with the same name changes nothing.
   */
  lemma BuildFirstWins(vs: seq<Json>, i: nat)
    requires Run(EMPTY, vs).error.None? && IsFirstName(vs, i)
    ensures NameOf(vs[i]) in Run(EMPTY, vs).table.targets
    ensures TargetOf(vs[i], RoleAt(vs, i)) == Ok(Run(EMPTY, vs).table.targets[NameOf(vs[i])])
  {
    if i == 0 {
      StageEntry(vs);
    } else {
      SpriteEntry(vs, i);
    }
  }

  /** A sprite as the first element fails, whatever follows it (a valid stage included). */
  lemma SpriteFirstFails(vs: seq<Json>)
    requires |vs| > 0 && IsSprite(vs[0])
    ensures Run(EMPTY, vs) == Outcome(EMPTY, Some(FormatError(STAGE_NOT_FIRST, vs[0])))
  {
  }

  /**
   * A decodable stage after a prefix that loaded fails as a duplicated stage, and
   * the recorded stage stays the first one.
   */
  lemma SecondStageFails(vs: seq<Json>, j: nat)
    requires 0 < j < |vs| && Run(EMPTY, vs[..j]).error.None?
    requires IsStage(vs[j]) && Decodes(vs[j])
    ensures Run(EMPTY, vs).error == Some(FormatError(DUPLICATED_STAGE, vs[j]))
    ensures Run(EMPTY, vs).table.stage == Some(NameOf(vs[0]))
  {
    var prefix := vs[..j];
    assert vs == prefix + vs[j..];
    RunAppend(EMPTY, prefix, vs[j..]);
    BuildResult(prefix);
    assert vs[j..][0] == vs[j];
  }

  /**
   * One iteration as written: target_list holds `target` values (the stage is sliced
   * on emplace), so dynamic_cast<stage&> on the recorded entry throws std::bad_cast
   * for every sprite after the stage, before that sprite is decoded.
   */
  function StepAsWritten(t: Table, v: Json): Outcome
  {
    if IsSprite(v) && t.stage.Some? then Outcome(t, Some(BadCast)) else Step(t, v)
  }

  /** The targets loop as written. */
  function RunAsWritten(t: Table, vs: seq<Json>): Outcome
    decreases |vs|
  {
    if |vs| == 0 then Outcome(t, None)
    else
      var o := StepAsWritten(t, vs[0]);
      if o.error.Some? then o else RunAsWritten(o.table, vs[1..])
  }

  /** As written, once the stage is recorded every further element throws. */
  lemma AsWrittenStepAfterStageFails(t: Table, v: Json)
    requires t.stage.Some?
    ensures StepAsWritten(t, v).error.Some?
    ensures IsSprite(v) ==> StepAsWritten(t, v).error == Some(BadCast)
  {
  }

  /**
   * As written, a targets array loads exactly when it is empty or holds a single
   * decodable stage: every sprite after the stage throws std::bad_cast.
   */
  lemma AsWrittenLoadsOnlyStage(vs: seq<Json>)
    ensures RunAsWritten(EMPTY, vs).error.None? <==>
            |vs| == 0 || (|vs| == 1 && IsStage(vs[0]) && Decodes(vs[0]))
    ensures |vs| >= 2 && IsStage(vs[0]) && Decodes(vs[0]) && IsSprite(vs[1]) ==>
              RunAsWritten(EMPTY, vs).error == Some(BadCast)
  {
    if |vs| > 0 {
      var o := StepAsWritten(EMPTY, vs[0]);
      assert o == Step(EMPTY, vs[0]);
      if o.error.None? {
        FirstStep(vs[..1]);
        assert o.table.stage.Some?;
        if |vs| >= 2 {
          AsWrittenStepAfterStageFails(o.table, vs[1]);
          assert vs[1..][0] == vs[1];
        }
      }
    }
  }

  /** The corrected loop, by contrast, loads a decodable stage followed by a decodable sprite. */
  lemma CorrectedLoadsStageAndSprite(vs: seq<Json>)
    requires |vs| == 2 && IsStage(vs[0]) && Decodes(vs[0]) && IsSprite(vs[1]) && Decodes(vs[1])
    ensures Run(EMPTY, vs).error.None?
    ensures RunAsWritten(EMPTY, vs).error == Some(BadCast)
  {
    BuildOkIff(vs);
    AsWrittenLoadsOnlyStage(vs);
  }
}
