/**
 * The boost::json value tree the loader walks. Parsing JSON text is not part of
 * this model: trees are given.
 */
module Json {

  /** boost::json's std::int64_t payload. */
  newtype int64 = x: int | -0x8000_0000_0000_0000 <= x < 0x8000_0000_0000_0000

  /** boost::json's std::uint64_t payload. */
  newtype uint64 = x: int | 0 <= x < 0x1_0000_0000_0000_0000

  /**
   * A boost::json::value. An object keeps its members in document order. A double
   * carries no payload: no decoder of the core reads one.
   */
  datatype Json =
    | JNull
    | JBool(b: bool)
    | JInt64(i: int64)
    | JUint64(u: uint64)
    | JDouble
    | JString(str: string)
    | JArray(elems: seq<Json>)
    | JObject(members: seq<(string, Json)>)

  /** boost::json::kind; an as_X accessor on a value of another kind throws. */
  datatype Kind =
    | NullKind | BoolKind | Int64Kind | Uint64Kind | DoubleKind | StringKind | ArrayKind | ObjectKind

  function KindOf(v: Json): Kind
  {
    match v
    case JNull => NullKind
    case JBool(_) => BoolKind
    case JInt64(_) => Int64Kind
    case JUint64(_) => Uint64Kind
    case JDouble => DoubleKind
    case JString(_) => StringKind
    case JArray(_) => ArrayKind
    case JObject(_) => ObjectKind
  }

  /** Whether member i is the first one with that key. */
  predicate IsFirstKey(members: seq<(string, Json)>, key: string, i: int)
  {
    0 <= i < |members| && members[i].0 == key && forall j :: 0 <= j < i ==> members[j].0 != key
  }

  /**
   * object::operator[] on a non-const object: the value of the member with that key,
   * or null when there is none (operator[] then inserts a null member).
   */
  function Member(members: seq<(string, Json)>, key: string): Json
  {
    if |members| == 0 then JNull
    else if members[0].0 == key then members[0].1
    else Member(members[1..], key)
  }

  /** operator[] yields null when no member has the key. */
  lemma {:induction false} MemberAbsent(members: seq<(string, Json)>, key: string)
    requires forall i :: 0 <= i < |members| ==> members[i].0 != key
    ensures Member(members, key) == JNull
  {
    if |members| > 0 {
      var rest := members[1..];
      forall i | 0 <= i < |rest| ensures rest[i].0 != key {
        assert rest[i] == members[i + 1];
      }
      MemberAbsent(rest, key);
    }
  }

  /** operator[] yields the value of the first member with the key. */
  lemma {:induction false} MemberFirst(members: seq<(string, Json)>, key: string, i: nat)
    requires IsFirstKey(members, key, i)
    ensures Member(members, key) == members[i].1
  {
    if i > 0 {
      var rest := members[1..];
      assert rest[i - 1] == members[i];
      forall j | 0 <= j < i - 1 ensures rest[j].0 != key {
        assert rest[j] == members[j + 1];
      }
      MemberFirst(rest, key, i - 1);
    }
  }
}
