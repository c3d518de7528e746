/** The language of messages: which elements are calls and responses, told by their shape,
and that the parsers of xmlrpc-c/src/xmlrpc_parse.c take exactly these. */
module MessageSyntax {
  import opened Text
  import opened Utf8Text
  import opened Values
  import opened Lines
  import opened XmlReader
  import opened XmlReadBack
  import opened XmlPrinter
  import opened XmlGrammar
  import opened Messages

  // ---------------------------------------------------------------------
  // Parameters

  /** A param element around the value `v`. */
  ghost predicate IsParam(lib: Lib, maxNest: nat, e: Elem, v: Value) {
    e.name == "param" && |e.children| == 1 && ElemValue(lib, maxNest, e.children[0]) == Ok(v)
  }

  ghost predicate HoldsParam(lib: Lib, maxNest: nat, e: Elem) { exists v :: IsParam(lib, maxNest, e, v) }

  ghost predicate AreParams(lib: Lib, maxNest: nat, es: seq<Elem>, vs: seq<Value>) {
    |es| == |vs| && forall i :: 0 <= i < |es| ==> IsParam(lib, maxNest, es[i], vs[i])
  }

  lemma ParamIsStep(lib: Lib, maxNest: nat, s: ParamState, e: Elem, v: Value)
    requires s.fault.None?
    ensures ParamStep(lib, maxNest, s, e) == ParamState(s.done + [v], None) <==> IsParam(lib, maxNest, e, v)
    ensures ParamStep(lib, maxNest, s, e).fault.None? ==> HoldsParam(lib, maxNest, e)
  {
    hide ElemValue;
    if |e.children| == 1 {
      ValueName(lib, maxNest, e.children[0]);
      var r := ElemValue(lib, maxNest, e.children[0]);
      if e.name == "param" && r.Ok? {
        assert IsParam(lib, maxNest, e, r.value);
        assert (s.done + [r.value])[|s.done|] == r.value && (s.done + [v])[|s.done|] == v;
      }
    }
  }

  lemma ValueName(lib: Lib, maxNest: nat, e: Elem)
    ensures ElemValue(lib, maxNest, e).Ok? ==> e.name == "value"
  {
    hide SimpleValue, StructValue, ArrayValue, ValidUtf8, Normalise;
  }

  lemma {:induction false} FoldExact(lib: Lib, maxNest: nat, es: seq<Elem>, vs: seq<Value>)
    ensures ParamsFold(lib, maxNest, es) == ParamState(vs, None) <==> AreParams(lib, maxNest, es, vs)
    decreases |es|
  {
    hide ParamStep, IsParam;
    if es != [] {
      var n := |es| - 1;
      var s := ParamsFold(lib, maxNest, es[..n]);
      FoldFaultStays(lib, maxNest, s, es[n]);
      FoldExact(lib, maxNest, es[..n], s.done);
      if vs != [] {
        var m := |vs| - 1;
        assert vs == vs[..m] + [vs[m]];
        FoldExact(lib, maxNest, es[..n], vs[..m]);
        if s.fault.None? { ParamIsStep(lib, maxNest, s, es[n], vs[m]); }
        if ParamsFold(lib, maxNest, es) == ParamState(vs, None) { FoldGrows(lib, maxNest, s, es[n]); }
      } else if s.fault.None? {
        FoldGrows(lib, maxNest, s, es[n]);
      }
    }
  }

  lemma FoldFaultStays(lib: Lib, maxNest: nat, s: ParamState, e: Elem)
    ensures s.fault.Some? ==> ParamStep(lib, maxNest, s, e).fault.Some?
  {
    hide ElemValue;
  }

  lemma FoldGrows(lib: Lib, maxNest: nat, s: ParamState, e: Elem)
    requires s.fault.None?
    ensures var t := ParamStep(lib, maxNest, s, e);
      t.fault.None? ==> |t.done| == |s.done| + 1 && t.done[..|s.done|] == s.done
  {
    hide ElemValue;
  }

  /** convertParams() takes exactly the params elements whose children are all param
      elements around a value. */
  lemma ParamsExact(lib: Lib, maxNest: nat, e: Elem, vs: seq<Value>)
    ensures ParamValues(lib, maxNest, e) == Ok(vs) <==> e.name == "params" && AreParams(lib, maxNest, e.children, vs)
  {
    hide ParamsFold, AreParams;
    FoldExact(lib, maxNest, e.children, vs);
  }

  /** The first element that is no param with a value, if there is one. */
  ghost predicate FirstBad(lib: Lib, maxNest: nat, es: seq<Elem>, k: nat) {
    k < |es| && !HoldsParam(lib, maxNest, es[k]) && forall i :: 0 <= i < k ==> HoldsParam(lib, maxNest, es[i])
  }

  /** Why an element is no param with a value. */
  ghost function BadCode(lib: Lib, maxNest: nat, e: Elem): FaultCode {
    if e.name == "param" && |e.children| == 1 && e.children[0].name == "value" && ElemValue(lib, maxNest, e.children[0]).Fault?
    then ElemValue(lib, maxNest, e.children[0]).code else ParseError
  }

  /** The fault: a parse fault if an element from the first bad one on has the wrong name,
      and otherwise what is wrong with that one. */
  lemma {:induction false} ParamsFault(lib: Lib, maxNest: nat, es: seq<Elem>, k: nat)
    requires FirstBad(lib, maxNest, es, k)
    ensures ParamsFold(lib, maxNest, es).fault
              == Some(if exists i :: k <= i < |es| && es[i].name != "param" then ParseError else BadCode(lib, maxNest, es[k]))
    decreases |es|
  {
    hide HoldsParam, ElemValue;
    var n := |es| - 1;
    var s := ParamsFold(lib, maxNest, es[..n]);
    if k == n {
      GoodSoFar(lib, maxNest, es[..n]);
      OneBad(lib, maxNest, es[n]);
    } else {
      ParamsFault(lib, maxNest, es[..n], k);
      if i :| k <= i < n && es[i].name != "param" { assert es[..n][i] == es[i]; }
    }
  }

  lemma OneBad(lib: Lib, maxNest: nat, e: Elem)
    requires !HoldsParam(lib, maxNest, e)
    ensures e.name == "param" && |e.children| == 1 ==> ElemValue(lib, maxNest, e.children[0]).Fault?
  {
    hide ElemValue;
    if e.name == "param" && |e.children| == 1 && ElemValue(lib, maxNest, e.children[0]).Ok? {
      assert IsParam(lib, maxNest, e, ElemValue(lib, maxNest, e.children[0]).value);
    }
  }

  lemma {:induction false} GoodSoFar(lib: Lib, maxNest: nat, es: seq<Elem>)
    requires forall i :: 0 <= i < |es| ==> HoldsParam(lib, maxNest, es[i])
    ensures ParamsFold(lib, maxNest, es).fault.None?
    decreases |es|
  {
    hide HoldsParam, ParamStep;
    if es != [] {
      var n := |es| - 1;
      GoodSoFar(lib, maxNest, es[..n]);
      GoodStep(lib, maxNest, ParamsFold(lib, maxNest, es[..n]), es[n]);
    }
  }

  lemma GoodStep(lib: Lib, maxNest: nat, s: ParamState, e: Elem)
    requires s.fault.None? && HoldsParam(lib, maxNest, e)
    ensures ParamStep(lib, maxNest, s, e).fault.None?
  {
    hide IsParam, ParamStep;
    var v :| IsParam(lib, maxNest, e, v);
    ParamIsStep(lib, maxNest, s, e, v);
  }

  // ---------------------------------------------------------------------
  // Calls

  ghost predicate IsMethodName(e: Elem, name: string) {
    e.name == "methodName" && e.children == [] && e.cdata == name && ValidUtf8(name)
  }

  ghost predicate IsParamList(lib: Lib, maxNest: nat, e: Elem, vs: seq<Value>) {
    e.name == "params" && AreParams(lib, maxNest, e.children, vs)
  }

  /** A method call: a method name and a list of parameters, in either order, or only the
      method name, and then there are no parameters. */
  ghost predicate IsCall(lib: Lib, maxNest: nat, e: Elem, call: Call) {
    && e.name == "methodCall"
    && (|| (|e.children| == 1 && IsMethodName(e.children[0], call.name) && call.params == [])
        || (|e.children| == 2 && IsMethodName(e.children[0], call.name) && IsParamList(lib, maxNest, e.children[1], call.params))
        || (|e.children| == 2 && IsMethodName(e.children[1], call.name) && IsParamList(lib, maxNest, e.children[0], call.params)))
  }

  lemma NamedOfTwo(es: seq<Elem>, name: string)
    requires |es| == 2
    ensures FirstNamed(es, name) == if es[0].name == name then Some(es[0]) else if es[1].name == name then Some(es[1]) else None
  {
    assert es[1..] == [es[1]] && es[1..][1..] == [];
  }

  lemma NamedOfOne(es: seq<Elem>, name: string)
    requires |es| == 1
    ensures FirstNamed(es, name) == if es[0].name == name then Some(es[0]) else None
  {}

  /** parseCallXml() takes exactly these calls. */
  lemma CallExact(lib: Lib, maxNest: nat, e: Elem, call: Call)
    ensures CallOf(lib, maxNest, e) == Ok(call) <==> IsCall(lib, maxNest, e, call)
  {
    hide ParamValues, AreParams, ValidUtf8, FirstNamed;
    if |e.children| == 1 {
      NamedOfOne(e.children, "methodName");
    } else if |e.children| == 2 {
      NamedOfTwo(e.children, "methodName");
      NamedOfTwo(e.children, "params");
      ParamsExact(lib, maxNest, e.children[0], call.params);
      ParamsExact(lib, maxNest, e.children[1], call.params);
    } else if e.children == [] {
      NoneNamed(e.children, "methodName");
    }
  }

  lemma NoneNamed(es: seq<Elem>, name: string)
    requires es == []
    ensures FirstNamed(es, name) == None
  {}

  // ---------------------------------------------------------------------
  // Responses

  /** A response with a result: one list of one parameter. */
  ghost predicate IsSuccess(lib: Lib, maxNest: nat, e: Elem, v: Value) {
    && e.name == "methodResponse" && |e.children| == 1
    && IsParamList(lib, maxNest, e.children[0], [v])
  }

  /** A struct that tells a fault: a 32-bit code and a text without NUL. */
  ghost predicate TellsFault(v: Value, code: Int32, text: string) {
    && v.Struct? && ValueAt(v.members, "faultCode") == Some(Int(code)) && ValueAt(v.members, "faultString") == Some(Str(text))
    && '\0' !in text
  }

  ghost predicate IsFailure(lib: Lib, maxNest: nat, e: Elem, code: Int32, text: string) {
    && e.name == "methodResponse" && |e.children| == 1
    && var fault := e.children[0];
      && fault.name == "fault" && |fault.children| == 1
      && ElemValue(lib, maxNest, fault.children[0]).Ok? && TellsFault(ElemValue(lib, maxNest, fault.children[0]).value, code, text)
  }

  ghost predicate IsResponse(lib: Lib, maxNest: nat, e: Elem, r: Response) {
    if r.Success? then IsSuccess(lib, maxNest, e, r.result) else IsFailure(lib, maxNest, e, r.code, r.text)
  }

  lemma FaultExact(v: Value, code: Int32, text: string)
    ensures FaultOf(v) == Ok(Failure(code, text)) <==> TellsFault(v, code, text)
    ensures FaultOf(v).Ok? ==> FaultOf(v).value.Failure?
    ensures FaultOf(v).Fault? ==> FaultOf(v).code == ParseError
  {
    hide ValueAt;
  }

  /** parseMethodResponseElt() takes exactly these responses. */
  lemma ResponseExact(lib: Lib, maxNest: nat, e: Elem, r: Response)
    ensures ResponseOf(lib, maxNest, e) == Ok(r) <==> IsResponse(lib, maxNest, e, r)
  {
    hide ParamValues, ElemValue, FaultOf, TellsFault, AreParams;
    if |e.children| == 1 {
      var child := e.children[0];
      if child.name == "params" {
        var vs := ParamValues(lib, maxNest, child);
        if vs.Ok? { ParamsExact(lib, maxNest, child, vs.value); }
        if r.Success? { ParamsExact(lib, maxNest, child, [r.result]); }
        if vs.Ok? && |vs.value| == 1 { assert vs.value == [vs.value[0]]; }
      } else if child.name == "fault" && |child.children| == 1 {
        ValueName(lib, maxNest, child.children[0]);
        var v := ElemValue(lib, maxNest, child.children[0]);
        if v.Ok? { FaultExact(v.value, if r.Failure? then r.code else 0, if r.Failure? then r.text else ""); }
      }
    }
  }

  // ---------------------------------------------------------------------
  // Whole messages

  /** A message of more bytes than the limit is refused as such, whatever it is; within the
      limit, exactly the XML documents of calls are taken. */
  lemma ParseCallExact(lib: Lib, limits: Limits, xml: string, call: Call)
    ensures |xml| > limits.size ==> ParseCall(lib, limits, xml) == Fault(LimitExceeded)
    ensures ParseCall(lib, limits, xml) == Ok(call) <==>
              |xml| <= limits.size && ReadXml(xml).Some? && IsCall(lib, limits.nesting, ReadXml(xml).value, call)
  {
    hide ReadXml, CallOf, IsCall;
    if ReadXml(xml).Some? { CallExact(lib, limits.nesting, ReadXml(xml).value, call); }
  }

  lemma ParseResponseExact(lib: Lib, limits: Limits, xml: string, r: Response)
    ensures |xml| > limits.size ==> ParseResponse(lib, limits, xml) == Fault(LimitExceeded)
    ensures ParseResponse(lib, limits, xml) == Ok(r) <==>
              |xml| <= limits.size && ReadXml(xml).Some? && IsResponse(lib, limits.nesting, ReadXml(xml).value, r)
  {
    hide ReadXml, ResponseOf, IsResponse;
    if ReadXml(xml).Some? { ResponseExact(lib, limits.nesting, ReadXml(xml).value, r); }
  }

  // ---------------------------------------------------------------------
  // A call with a method name only

  /** The document of a call with a method name only, or of one with an empty list of
      parameters: a call without parameters if the name is of UCS-2 characters, and
      otherwise the UTF-8 fault. */
  lemma NameOnlyReadsBack(lib: Lib, limits: Limits, name: string)
    requires IsXmlText(name)
    requires |DocumentText(Tag("methodCall", "", [Tag("methodName", "", [Escaped(name)])]))| <= limits.size
    ensures ParseCall(lib, limits, DocumentText(Tag("methodCall", "", [Tag("methodName", "", [Escaped(name)])])))
              == if ValidUtf8(name) then Ok(Call(name, [])) else Fault(InvalidUtf8)
  {
    hide ValidUtf8, IsXmlText, ReadXml, DocumentText, CallOf;
    var inner := [Escaped(name)];
    var nameTag := Tag("methodName", "", inner);
    NameKids(name);
    assert WellFormed(Escaped(name)) && AllWellFormed(inner);
    CallNames();
    assert WellFormed(nameTag) && AllWellFormed([nameTag]);
    DocumentReadsBack("methodCall", "", [nameTag]);
    var e := Elem("methodCall", "", [Elem("methodName", name, [])]);
    if ValidUtf8(name) { CallExact(lib, limits.nesting, e, Call(name, [])); }
    else { InvalidName(lib, limits.nesting, e); }
  }

  lemma NameKids(name: string)
    ensures var t := Tag("methodName", "", [Escaped(name)]);
      TextOf([t]) == "" && KidsOf([t]) == [Elem("methodName", name, [])]
  {
    var inner := [Escaped(name)];
    assert inner[1..] == [] && [Tag("methodName", "", inner)][1..] == [];
    assert name + "" == name;
    assert inner[0] == Escaped(name) && KidsOf(inner) == KidsOf(inner[1..]);
    assert TextOf(inner) == name && KidsOf(inner) == [];
  }

  lemma CallNames()
    ensures IsName("methodCall") && IsName("methodName")
  {}

  lemma InvalidName(lib: Lib, maxNest: nat, e: Elem)
    requires e.name == "methodCall" && |e.children| == 1 && e.children[0].name == "methodName" && e.children[0].children == []
    requires !ValidUtf8(e.children[0].cdata)
    ensures CallOf(lib, maxNest, e) == Fault(InvalidUtf8)
  {
    hide ValidUtf8, FirstNamed;
    NamedOfOne(e.children, "methodName");
  }
}
