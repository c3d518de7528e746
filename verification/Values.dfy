/** XML-RPC values as values: what an xmlrpc_value and everything it refers to
denote, with sharing and reference counts left to module ValueStore. */
module Values {
  import opened Text

  type Int32 = x: int | -0x8000_0000 <= x <= 0x7fff_ffff
  type Int64 = x: int | INT64_MIN <= x <= INT64_MAX
  type UInt32 = x: int | 0 <= x <= 0xffff_ffff

  datatype Datetime = Datetime(Y: UInt32, M: UInt32, D: UInt32, h: UInt32, m: UInt32, s: UInt32, u: UInt32)

  datatype Value =
    | Int(i: Int32)
    | I8(i8: Int64)
    | Bool(b: bool)
    | Double(d: real)
    | DateTime(dt: Datetime)
    | Str(str: string)
    | Base64(bytes: string)
    | Array(items: seq<Value>)
    | Struct(members: seq<Member>)
    | Nil
    | CPtr
    | Dead

  datatype Member = Member(key: string, value: Value)

  /** A value that holds no others. */
  type Scalar = v: Value | !v.Array? && !v.Struct? witness Nil

  datatype FaultCode = TypeError | IndexError | ParseError | InternalError | LimitExceeded | InvalidUtf8

  datatype Result<+T> = Ok(value: T) | Fault(code: FaultCode)

  /** Library routines whose bodies are not part of this model. */
  datatype Lib = Lib(
    formatE: real -> string,         // printf's %e
    strtod: string -> Option<real>)  // parseDoubleStringStrtod(), the fallback for doubles

  /** xmlrpc_struct_set_value_v as a function on member lists: a member with this
      key keeps its place and takes the new value, otherwise one is added last. */
  function SetMember(members: seq<Member>, key: string, value: Value): seq<Member> {
    if members == [] then [Member(key, value)]
    else if members[0].key == key then [Member(key, value)] + members[1..]
    else [members[0]] + SetMember(members[1..], key, value)
  }

  lemma {:induction false} SetNewMember(members: seq<Member>, key: string, value: Value)
    requires forall m :: m in members ==> m.key != key
    ensures SetMember(members, key, value) == members + [Member(key, value)]
  {
    if members != [] {
      SetNewMember(members[1..], key, value);
    }
  }

  /** The members set one after the other. */
  function AllSet(done: seq<Member>, members: seq<Member>): seq<Member>
    decreases |members|
  {
    if members == [] then done else AllSet(SetMember(done, members[0].key, members[0].value), members[1..])
  }

  lemma {:induction false} SetLast(done: seq<Member>, front: seq<Member>, m: Member)
    ensures AllSet(done, front + [m]) == SetMember(AllSet(done, front), m.key, m.value)
    decreases |front|
  {
    hide SetMember;
    if front == [] {
      assert [] + [m] == [m] && [m][1..] == [];
      assert AllSet(SetMember(done, m.key, m.value), []) == SetMember(done, m.key, m.value);
    } else {
      SetLast(SetMember(done, front[0].key, front[0].value), front[1..], m);
      assert (front + [m])[1..] == front[1..] + [m];
    }
  }

  ghost predicate DistinctKeys(members: seq<Member>) {
    forall i, j :: 0 <= i < j < |members| ==> members[i].key != members[j].key
  }

  /** No struct at any depth has two members with the same key. */
  ghost predicate KeysDistinct(v: Value)
    decreases v
  {
    match v
    case Array(items) => forall x :: x in items ==> KeysDistinct(x)
    case Struct(members) => DistinctKeys(members) && forall m :: m in members ==> KeysDistinct(m.value)
    case _ => true
  }

  /** No C pointer and no dead value at any depth: these are what both
      serializers refuse. */
  ghost predicate Serializable(v: Value)
    decreases v
  {
    match v
    case Array(items) => forall x :: x in items ==> Serializable(x)
    case Struct(members) => forall m :: m in members ==> Serializable(m.value)
    case CPtr => false
    case Dead => false
    case _ => true
  }

  ghost predicate DoubleFree(v: Value)
    decreases v
  {
    match v
    case Array(items) => forall x :: x in items ==> DoubleFree(x)
    case Struct(members) => forall m :: m in members ==> DoubleFree(m.value)
    case Double(_) => false
    case _ => true
  }

  /** The value of the first member with this key. */
  function ValueAt(members: seq<Member>, key: string): Option<Value> {
    if members == [] then None
    else if members[0].key == key then Some(members[0].value)
    else ValueAt(members[1..], key)
  }

  lemma {:induction false} ValueAtIndex(members: seq<Member>, i: nat)
    requires i < |members| && forall j :: 0 <= j < i ==> members[j].key != members[i].key
    ensures ValueAt(members, members[i].key) == Some(members[i].value)
  {
    if i > 0 { ValueAtIndex(members[1..], i - 1); }
  }

  lemma {:induction false} NotThere(members: seq<Member>, key: string)
    requires forall i :: 0 <= i < |members| ==> members[i].key != key
    ensures ValueAt(members, key) == None
  {
    if members != [] { NotThere(members[1..], key); }
  }
}
