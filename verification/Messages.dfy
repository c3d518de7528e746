/** XML-RPC messages: what xmlrpc-c/src/xmlrpc_parse.c makes of calls and responses, as
functions, and the markup that xmlrpc-c/src/xmlrpc_serialize.c prints for them. */
module Messages {
  import opened Text
  import opened Utf8Text
  import opened Values
  import opened Lines
  import opened XmlReader
  import opened XmlPrinter
  import opened XmlGrammar

  datatype Call = Call(name: string, params: seq<Value>)

  datatype Response = Success(result: Value) | Failure(code: Int32, text: string)

  /** The limits a program can set: on nesting and on the size of a message. */
  datatype Limits = Limits(nesting: nat, size: nat)

  // ---------------------------------------------------------------------
  // Parsing

  /** The parameters converted so far, and the fault set last, if any. */
  datatype ParamState = ParamState(done: seq<Value>, fault: Option<FaultCode>)

  /** One round of the loop in convertParams(), which goes on after a fault: it converts
      nothing more, but a later element of the wrong name sets its own fault. */
  function ParamStep(lib: Lib, maxNest: nat, s: ParamState, e: Elem): ParamState {
    if e.name != "param" then s.(fault := Some(ParseError))
    else if s.fault.Some? then s
    else if |e.children| != 1 || e.children[0].name != "value" then s.(fault := Some(ParseError))
    else match ElemValue(lib, maxNest, e.children[0])
      case Fault(c) => s.(fault := Some(c))
      case Ok(v) => s.(done := s.done + [v])
  }

  function ParamsFold(lib: Lib, maxNest: nat, es: seq<Elem>): ParamState {
    if es == [] then ParamState([], None)
    else ParamStep(lib, maxNest, ParamsFold(lib, maxNest, es[..|es| - 1]), es[|es| - 1])
  }

  /** convertParams() */
  function ParamValues(lib: Lib, maxNest: nat, e: Elem): Result<seq<Value>> {
    if e.name != "params" then Fault(ParseError)
    else
      var s := ParamsFold(lib, maxNest, e.children);
      if s.fault.Some? then Fault(s.fault.value) else Ok(s.done)
  }

  /** parseMethodNameElement() */
  function MethodName(e: Elem): Result<string> {
    if |e.children| > 0 then Fault(ParseError)
    else if !ValidUtf8(e.cdata) then Fault(InvalidUtf8)
    else Ok(e.cdata)
  }

  /** The parameters of a call; a call with a method name only has none. */
  function CallParams(lib: Lib, maxNest: nat, e: Elem): Result<seq<Value>> {
    if |e.children| <= 1 then Ok([])
    else match FirstNamed(e.children, "params")
      case None => Fault(ParseError)
      case Some(params) => ParamValues(lib, maxNest, params)
  }

  /** parseCallXml() and parseCallChildren() */
  function CallOf(lib: Lib, maxNest: nat, e: Elem): Result<Call> {
    if e.name != "methodCall" then Fault(ParseError)
    else match FirstNamed(e.children, "methodName")
      case None => Fault(ParseError)
      case Some(nameElem) =>
        match MethodName(nameElem)
        case Fault(c) => Fault(c)
        case Ok(name) =>
          match CallParams(lib, maxNest, e)
          case Fault(c) => Fault(c)
          case Ok(params) => if |e.children| > 2 then Fault(ParseError) else Ok(Call(name, params))
  }

  /** xmlrpc_parse_call() */
  function ParseCall(lib: Lib, limits: Limits, xml: string): Result<Call> {
    if |xml| > limits.size then Fault(LimitExceeded)
    else match ReadXml(xml)
      case None => Fault(ParseError)
      case Some(e) => CallOf(lib, limits.nesting, e)
  }

  /** interpretFaultValue() */
  function FaultOf(v: Value): Result<Response> {
    if !v.Struct? then Fault(ParseError)
    else match ValueAt(v.members, "faultCode")
      case None => Fault(ParseError)
      case Some(code) =>
        if !code.Int? then Fault(ParseError)
        else match ValueAt(v.members, "faultString")
          case None => Fault(ParseError)
          case Some(text) =>
            if !text.Str? || '\0' in text.str then Fault(ParseError) else Ok(Failure(code.i, text.str))
  }

  /** parseMethodResponseElt() */
  function ResponseOf(lib: Lib, maxNest: nat, e: Elem): Result<Response> {
    if e.name != "methodResponse" || |e.children| != 1 then Fault(ParseError)
    else
      var child := e.children[0];
      if child.name == "params" then
        match ParamValues(lib, maxNest, child)
        case Fault(c) => Fault(c)
        case Ok(params) => if |params| != 1 then Fault(ParseError) else Ok(Success(params[0]))
      else if child.name == "fault" then
        if |child.children| != 1 || child.children[0].name != "value" then Fault(ParseError)
        else match ElemValue(lib, maxNest, child.children[0])
          case Fault(c) => Fault(c)
          case Ok(v) => FaultOf(v)
      else Fault(ParseError)
  }

  /** xmlrpc_parse_response2() */
  function ParseResponse(lib: Lib, limits: Limits, xml: string): Result<Response> {
    if |xml| > limits.size then Fault(LimitExceeded)
    else match ReadXml(xml)
      case None => Fault(ParseError)
      case Some(e) => ResponseOf(lib, limits.nesting, e)
  }

  // ---------------------------------------------------------------------
  // Markup

  function Xmlns(dialect: Dialect): string { if dialect == ApacheDialect then XMLNS_APACHE else "" }

  function ParamMarkup(v: Value, dialect: Dialect): Markup
    requires XmlPrintable(v)
  {
    Tag("param", "", [MarkupOf(v, dialect)])
  }

  function ParamListMarkup(params: seq<Value>, dialect: Dialect): seq<Markup>
    requires AllPrintable(params)
  {
    if params == [] then []
    else
      var n := |params| - 1;
      ParamListMarkup(params[..n], dialect) + [ParamMarkup(params[n], dialect), Raw(CRLF)]
  }

  function ParamsMarkup(params: seq<Value>, dialect: Dialect): Markup
    requires AllPrintable(params)
  {
    Tag("params", "", [Raw(CRLF)] + ParamListMarkup(params, dialect))
  }

  function CallContent(name: string, params: seq<Value>, dialect: Dialect): seq<Markup>
    requires AllPrintable(params)
  {
    [Raw(CRLF), Tag("methodName", "", [Escaped(name)]), Raw(CRLF), ParamsMarkup(params, dialect), Raw(CRLF)]
  }

  /** The document printed for a call. */
  function CallText(name: string, params: seq<Value>, dialect: Dialect): string
    requires AllPrintable(params)
  {
    DocumentText(Tag("methodCall", Xmlns(dialect), CallContent(name, params, dialect)))
  }

  function ResponseContent(v: Value, dialect: Dialect): seq<Markup>
    requires XmlPrintable(v)
  {
    [Raw(CRLF), Tag("params", "", [Raw(CRLF), ParamMarkup(v, dialect), Raw(CRLF)]), Raw(CRLF)]
  }

  function ResponseText(v: Value, dialect: Dialect): string
    requires XmlPrintable(v)
  {
    DocumentText(Tag("methodResponse", Xmlns(dialect), ResponseContent(v, dialect)))
  }

  /** The struct built for a fault; its text is a string value, so with LF line ends. */
  function FaultStruct(code: Int32, text: string): Value {
    Struct([Member("faultCode", Int(code)), Member("faultString", Str(Normalise(text)))])
  }

  function FaultContent(code: Int32, text: string): seq<Markup>
    requires XmlPrintable(FaultStruct(code, text))
  {
    [Raw(CRLF), Tag("fault", "", [Raw(CRLF), MarkupOf(FaultStruct(code, text), I8Dialect), Raw(CRLF)]), Raw(CRLF)]
  }

  function FaultText(code: Int32, text: string): string
    requires XmlPrintable(FaultStruct(code, text))
  {
    DocumentText(Tag("methodResponse", "", FaultContent(code, text)))
  }
}
