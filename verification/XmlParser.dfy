/** What the parser of xmlrpc-c/src/parse_value.c makes of XML elements, as functions. */
module XmlGrammar {
  import opened Text
  import opened Base64Text
  import opened Utf8Text
  import opened Values
  import opened Lines
  import opened Doubles
  import opened Datetimes
  import opened XmlReader

  /** xmlrpc_string_new_lp(): line delimiters become LF. */
  function NewString(s: string): Result<Value> {
    if ValidUtf8(s) then Ok(Str(Normalise(s))) else Fault(InvalidUtf8)
  }

  function AsResult(v: Option<Value>): Result<Value> {
    match v case Some(x) => Ok(x) case None => Fault(ParseError)
  }

  /** parseInt(): a decimal number, with an optional sign, that strtol() reads to the
      end and that fits in 32 bits. */
  function IntValue(s: string): Option<Scalar> {
    var digits := Unsigned(s);
    if digits == "" || !AllDigitsNow(digits) then None
    else
      var n: int := if s[0] == '-' then 0 - DecimalValue(digits) else DecimalValue(digits);
      if -0x8000_0000 <= n <= 0x7fff_ffff then Some(Int(n)) else None
  }

  function BoolValue(s: string): Option<Scalar> {
    if s == "0" then Some(Bool(false)) else if s == "1" then Some(Bool(true)) else None
  }

  /** parseDouble(): the strict form first, then whatever strtod() takes. */
  function DoubleOf(lib: Lib, s: string): Option<Scalar> {
    match StrictDouble(s)
    case Some(d) => Some(Double(d))
    case None => match lib.strtod(s) case Some(d) => Some(Double(d)) case None => None
  }

  /** parseI8(): neither an empty text nor white space in front is let through to
      xmlrpc_parse_int64(). */
  function I8Value(s: string): Option<Scalar> {
    if s == "" || IsSpace(s[0]) then None
    else match ParseInt64(s) case Some(n) => Some(I8(n)) case None => None
  }

  function DatetimeValue(s: string): Option<Scalar> {
    match ParseDatetime(s) case Some(dt) => Some(DateTime(dt)) case None => None
  }

  function Base64Value(s: string): Option<Scalar> {
    match Decode64(s) case Some(bytes) => Some(Base64(bytes)) case None => None
  }

  const INT_NAMES := {"int", "i4", "i1", "i2", "ex:i1", "ex:i2"}

  /** parseSimpleValueCdata() */
  function SimpleValue(lib: Lib, name: string, cdata: string): Result<Value> {
    if name in INT_NAMES then AsResult(IntValue(cdata))
    else if name == "boolean" then AsResult(BoolValue(cdata))
    else if name == "double" then AsResult(DoubleOf(lib, cdata))
    else if name == "dateTime.iso8601" then AsResult(DatetimeValue(cdata))
    else if name == "string" then NewString(cdata)
    else if name == "base64" then AsResult(Base64Value(cdata))
    else if name == "nil" || name == "ex:nil" then Ok(Nil)
    else if name == "i8" || name == "ex:i8" then AsResult(I8Value(cdata))
    else Fault(ParseError)
  }

  /** xmlrpc_parseValue(): the value of a value element, if it nests no deeper than
      `maxRecursion`. */
  function ElemValue(lib: Lib, maxRecursion: nat, e: Elem): Result<Value>
    decreases e, 3
  {
    if maxRecursion < 1 then Fault(ParseError)
    else if e.name != "value" then Fault(ParseError)
    else if |e.children| == 0 then NewString(e.cdata)
    else if |e.children| > 1 then Fault(ParseError)
    else
      var child := e.children[0];
      if child.name == "struct" then StructValue(lib, maxRecursion, child)
      else if child.name == "array" then ArrayValue(lib, maxRecursion, child)
      else if |child.children| > 0 then Fault(ParseError)
      else SimpleValue(lib, child.name, child.cdata)
  }

  /** parseArray() */
  function ArrayValue(lib: Lib, maxRecursion: nat, e: Elem): Result<Value>
    requires maxRecursion >= 1
    decreases e, 2
  {
    if |e.children| != 1 || e.children[0].name != "data" then Fault(ParseError)
    else ItemValues(lib, maxRecursion, e.children[0].children, [])
  }

  /** The items of an array, after the items `done`. */
  function ItemValues(lib: Lib, maxRecursion: nat, es: seq<Elem>, done: seq<Value>): Result<Value>
    requires maxRecursion >= 1
    decreases es, 0
  {
    if es == [] then Ok(Array(done))
    else if es[0].name != "value" then Fault(ParseError)
    else match ElemValue(lib, maxRecursion - 1, es[0])
      case Fault(c) => Fault(c)
      case Ok(v) => ItemValues(lib, maxRecursion, es[1..], done + [v])
  }

  /** parseStruct() */
  function StructValue(lib: Lib, maxRecursion: nat, e: Elem): Result<Value>
    requires maxRecursion >= 1
    decreases e, 2
  {
    MemberValues(lib, maxRecursion, e.children, [])
  }

  /** The first child with this name. */
  function FirstNamed(es: seq<Elem>, name: string): (r: Option<Elem>)
    ensures r.Some? ==> r.value in es && r.value.name == name
    ensures r.None? ==> forall e :: e in es ==> e.name != name
  {
    if es == [] then None else if es[0].name == name then Some(es[0]) else FirstNamed(es[1..], name)
  }

  /** parseMember(): the key, which is a string value. */
  function MemberKeyOf(e: Elem): (r: Result<Value>)
    ensures r.Ok? ==> r.value.Str?
  {
    if |e.children| != 2 then Fault(ParseError)
    else match FirstNamed(e.children, "name")
      case None => Fault(ParseError)
      case Some(name) => if |name.children| > 0 then Fault(ParseError) else NewString(name.cdata)
  }

  /** The members of a struct, after the members `done`. */
  function MemberValues(lib: Lib, maxRecursion: nat, es: seq<Elem>, done: seq<Member>): Result<Value>
    requires maxRecursion >= 1
    decreases es, 0
  {
    if es == [] then Ok(Struct(done))
    else if es[0].name != "member" then Fault(ParseError)
    else match MemberKeyOf(es[0])
      case Fault(c) => Fault(c)
      case Ok(key) =>
        match FirstNamed(es[0].children, "value")
        case None => Fault(ParseError)
        case Some(e) =>
          match ElemValue(lib, maxRecursion - 1, e)
          case Fault(c) => Fault(c)
          case Ok(v) => MemberValues(lib, maxRecursion, es[1..], SetMember(done, key.str, v))
  }
}
