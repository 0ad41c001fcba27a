/**
 * target::target and stage::stage: a target's name and its variable table, decoded
 * from one element of the manifest's `targets` array.
 */
module Targets {
  import opened Wrappers
  import opened Json
  import opened Errors

  /** One entry of a target's variable table: its display name and its value. */
  datatype Variable = Variable(name: string, value: int64)

  /** Whether a target is the stage or a sprite bound to the stage of that name. */
  datatype Role = Stage | Sprite(stage: string)

  datatype Target = Target(name: string, variables: map<string, Variable>, role: Role)

  /**
   * One `variables` member value `[name, value]`: element 0 read as_string, element 1
   * read as_int64; any other kind throws, and so does an element the array lacks.
   */
  function DecodeVariable(v: Json): (r: Result<Variable, Error>)
    ensures r.Ok? <==> v.JArray? && |v.elems| >= 2 && v.elems[0].JString? && v.elems[1].JInt64?
    ensures r.Ok? ==> r.value == Variable(v.elems[0].str, v.elems[1].i)
    ensures !v.JArray? ==> r == Err(JsonTypeError(ArrayKind))
    ensures v.JArray? && |v.elems| == 0 ==> r == Err(IndexOutOfRange(0))
    ensures v.JArray? && |v.elems| > 0 && !v.elems[0].JString? ==> r == Err(JsonTypeError(StringKind))
    ensures v.JArray? && |v.elems| == 1 && v.elems[0].JString? ==> r == Err(IndexOutOfRange(1))
    ensures v.JArray? && |v.elems| >= 2 && v.elems[0].JString? && !v.elems[1].JInt64? ==>
              r == Err(JsonTypeError(Int64Kind))
  {
    if !v.JArray? then Err(JsonTypeError(ArrayKind))
    else if |v.elems| == 0 then Err(IndexOutOfRange(0))
    else if !v.elems[0].JString? then Err(JsonTypeError(StringKind))
    else if |v.elems| == 1 then Err(IndexOutOfRange(1))
    else if !v.elems[1].JInt64? then Err(JsonTypeError(Int64Kind))
    else Ok(Variable(v.elems[0].str, v.elems[1].i))
  }

  /**
   * The variable table after insert_or_assign of every member in order, or the
   * error of the first member that does not decode.
   */
  function Variables(members: seq<(string, Json)>): Result<map<string, Variable>, Error>
    decreases |members|
  {
    if |members| == 0 then Ok(map[])
    else
      var last := members[|members| - 1];
      match Variables(members[..|members| - 1])
      case Err(e) => Err(e)
      case Ok(m) =>
        match DecodeVariable(last.1)
        case Err(e) => Err(e)
        case Ok(x) => Ok(m[last.0 := x])
  }

  /** The decoding target::target performs, with the role its caller gives it. */
  function TargetOf(j: Json, role: Role): Result<Target, Error>
  {
    if !j.JObject? then Err(JsonTypeError(ObjectKind))
    else
      var name := Member(j.members, "name");
      if !name.JString? then Err(JsonTypeError(StringKind))
      else
        var vars := Member(j.members, "variables");
        if !vars.JObject? then Err(JsonTypeError(ObjectKind))
        else
          match Variables(vars.members)
          case Err(e) => Err(e)
          case Ok(m) => Ok(Target(name.str, m, role))
  }

  /** Decoding succeeds exactly when every member decodes. */
  lemma {:induction false} VariablesOkIff(members: seq<(string, Json)>)
    ensures Variables(members).Ok? <==>
            forall i :: 0 <= i < |members| ==> DecodeVariable(members[i].1).Ok?
    decreases |members|
  {
    if |members| > 0 {
      var init := members[..|members| - 1];
      VariablesOkIff(init);
      assert forall i :: 0 <= i < |init| ==> init[i] == members[i];
    }
  }

  /** The first member that does not decode decides the error. */
  lemma {:induction false} VariablesFirstError(members: seq<(string, Json)>, k: nat)
    requires k < |members| && DecodeVariable(members[k].1).Err?
    requires forall i :: 0 <= i < k ==> DecodeVariable(members[i].1).Ok?
    ensures Variables(members) == Err(DecodeVariable(members[k].1).error)
    decreases |members|
  {
    var init := members[..|members| - 1];
    assert forall i :: 0 <= i < |init| ==> init[i] == members[i];
    if k < |members| - 1 {
      VariablesFirstError(init, k);
    } else {
      VariablesOkIff(init);
    }
  }

  /** A successful table has one key per member key. */
  lemma {:induction false} VariablesKeys(members: seq<(string, Json)>)
    requires Variables(members).Ok?
    ensures Variables(members).value.Keys == set i | 0 <= i < |members| :: members[i].0
    decreases |members|
  {
    if |members| > 0 {
      var init := members[..|members| - 1];
      VariablesKeys(init);
      assert forall i :: 0 <= i < |init| ==> init[i] == members[i];
      assert (set i | 0 <= i < |members| :: members[i].0) ==
             (set i | 0 <= i < |init| :: init[i].0) + {members[|members| - 1].0};
    }
  }

  /** Whether member i is the last one with its key. */
  predicate IsLastKey(members: seq<(string, Json)>, i: int)
  {
    0 <= i < |members| && forall j :: i < j < |members| ==> members[j].0 != members[i].0
  }

  /** insert_or_assign: the last member with a key gives that key's entry. */
  lemma {:induction false} VariablesLastWins(members: seq<(string, Json)>, i: nat)
    requires Variables(members).Ok? && IsLastKey(members, i)
    ensures members[i].0 in Variables(members).value
    ensures DecodeVariable(members[i].1).Ok?
    ensures Variables(members).value[members[i].0] == DecodeVariable(members[i].1).value
    decreases |members|
  {
    var init := members[..|members| - 1];
    assert forall j :: 0 <= j < |init| ==> init[j] == members[j];
    if i < |members| - 1 {
      VariablesLastWins(init, i);
    }
  }

  /**
   * target::target, literally: reads the name, then insert_or_assigns every member
   * of `variables` in document order.
   */
  method DecodeTarget(j: Json, role: Role) returns (r: Result<Target, Error>)
    ensures r == TargetOf(j, role)
  {
    if !j.JObject? {
      return Err(JsonTypeError(ObjectKind));
    }
    var name := Member(j.members, "name");
    if !name.JString? {
      return Err(JsonTypeError(StringKind));
    }
    var vars := Member(j.members, "variables");
    if !vars.JObject? {
      return Err(JsonTypeError(ObjectKind));
    }
    var members := vars.members;
    var variableList: map<string, Variable> := map[];
    var i := 0;
    while i < |members|
      invariant 0 <= i <= |members|
      invariant Variables(members[..i]) == Ok(variableList)
    {
      assert members[..i + 1][..i] == members[..i];
      var x := DecodeVariable(members[i].1);
      if x.Err? {
        VariablesPrefixError(members, i + 1);
        return Err(x.error);
      }
      variableList := variableList[members[i].0 := x.value];
      i := i + 1;
    }
    assert members[..i] == members;
    return Ok(Target(name.str, variableList, role));
  }

  /** An error in a prefix is the error of the whole. */
  lemma {:induction false} VariablesPrefixError(members: seq<(string, Json)>, n: nat)
    requires n <= |members| && Variables(members[..n]).Err?
    ensures Variables(members) == Variables(members[..n])
    decreases |members| - n
  {
    if n < |members| {
      assert members[..n + 1][..n] == members[..n];
      VariablesPrefixError(members, n + 1);
    } else {
      assert members[..n] == members;
    }
  }

  /** stage::stage: decodes exactly as a target does, in the role of the stage. */
  method DecodeStage(j: Json) returns (r: Result<Target, Error>)
    ensures r == TargetOf(j, Stage)
  {
    r := DecodeTarget(j, Stage);
  }

  /**
   * What a decoded target holds: the manifest's name, one variable per member key,
   * each the last member with that key.
   */
  lemma TargetContents(j: Json, role: Role)
    requires TargetOf(j, role).Ok?
    ensures var t := TargetOf(j, role).value;
            var vs := Member(j.members, "variables").members;
            t.name == Member(j.members, "name").str && t.role == role &&
            t.variables.Keys == (set i | 0 <= i < |vs| :: vs[i].0) &&
            forall i :: IsLastKey(vs, i) ==> DecodeVariable(vs[i].1) == Ok(t.variables[vs[i].0])
  {
    var vs := Member(j.members, "variables").members;
    VariablesKeys(vs);
    forall i | IsLastKey(vs, i)
      ensures vs[i].0 in TargetOf(j, role).value.variables
      ensures DecodeVariable(vs[i].1) == Ok(TargetOf(j, role).value.variables[vs[i].0])
    {
      VariablesLastWins(vs, i);
    }
  }
}
