/** A reference reader for the part of XML that the serializers emit: documents with
tags, character data and references, as XML 1.0 sections 2.4, 2.11, 3.1 and 4.1 read
them. It stands in for the XML parser the source links to, and hands the same events
to the handlers of module TreeBuilder. */
module XmlReader {
  import opened Text
  import opened Utf8Text
  import opened Lines
  import opened XmlText

  datatype Event = Start(name: string) | End(name: string) | Chars(text: string)

  // ---------------------------------------------------------------------
  // Characters and names

  const XML_PROLOGUE := "<?xml " + (DECLARATION + "?>\r\n")

  const DECLARATION := "version=\"1.0\" " + "encoding=\"UTF-8\""

  /** Whether XML 1.0 section 2.2 has a character with this number. */
  predicate IsXmlChar(n: nat) {
    n in {9, 10, 13} || 0x20 <= n <= 0xD7FF || 0xE000 <= n <= 0xFFFD || 0x10000 <= n <= 0x10FFFF
  }

  /** How many octets the legal UTF-8 character at the front of `s` has; 0 if there is
      none. */
  function CharLen(s: string): (n: nat)
    ensures n <= |s|
    ensures s != "" && (s[0] as int < 0x80) ==> n == if IsXmlChar(s[0] as int) then 1 else 0
  {
    match Utf8Front(s)
    case Some((c, n)) => if IsXmlChar(c) then n else 0
    case None => 0
  }

  /** `s` is a text of legal XML characters in UTF-8. */
  predicate IsXmlText(s: string)
    decreases |s|
  {
    s == "" || (CharLen(s) > 0 && IsXmlText(s[CharLen(s)..]))
  }

  predicate IsNameChar(c: char) { IsAlpha(c) || IsDigit(c) || c in {':', '.', '-', '_'} }

  predicate IsName(s: string) {
    s != "" && IsAlpha(s[0]) && forall c :: c in s ==> IsNameChar(c)
  }

  /** The length of the run of name characters at the front of `r`. */
  function NameLen(r: string): (n: nat)
    ensures n <= |r|
    ensures forall i :: 0 <= i < n ==> IsNameChar(r[i])
    ensures n < |r| ==> !IsNameChar(r[n])
  {
    if r != "" && IsNameChar(r[0]) then 1 + NameLen(r[1..]) else 0
  }

  lemma {:induction false} NameLenOf(name: string, k: string)
    requires forall c :: c in name ==> IsNameChar(c)
    requires k != "" && !IsNameChar(k[0])
    ensures NameLen(name + k) == |name|
  {
    if name == "" {
      assert name + k == k;
    } else {
      NameLenOf(name[1..], k);
      assert (name + k)[1..] == name[1..] + k;
    }
  }

  // ---------------------------------------------------------------------
  // Reading

  datatype Item =
    | StartTag(name: string, rest: string)
    | EmptyTag(name: string, rest: string)
    | EndTag(name: string, rest: string)
    | Data(text: string, rest: string)
    | Malformed

  /** The length of a quoted attribute value up to its quote. */
  function QuotedLen(r: string): (n: nat)
    ensures n <= |r|
  {
    if r == "" || !IsQuotedChar(r[0]) then 0 else 1 + QuotedLen(r[1..])
  }

  predicate IsQuotedChar(c: char) { ' ' <= c <= '~' && c !in {'"', '<', '&'} }

  /** Past one attribute, which `r` starts with a blank; no rest if there is none. */
  function AfterAttribute(r: string): (t: Option<string>)
    ensures t.Some? ==> |t.value| < |r|
  {
    if r == "" || r[0] != ' ' then None
    else
      var n := NameLen(r[1..]);
      var value := r[1 + n..];
      if n == 0 || !("=\"" <= value) then None
      else
        var m := QuotedLen(value[2..]);
        if m + 2 < |value| && value[m + 2] == '"' then Some(value[m + 3..]) else None
  }

  /** The end of a start tag: whether the element is empty, and what follows. */
  function TagEnd(r: string): (t: Option<(bool, string)>)
    ensures t.Some? ==> |t.value.1| < |r|
    decreases |r|
  {
    if ">" <= r then Some((false, r[1..]))
    else if "/>" <= r then Some((true, r[2..]))
    else match AfterAttribute(r)
      case Some(rest) => TagEnd(rest)
      case None => None
  }

  function StartOf(r: string): (i: Item)
    ensures !i.Malformed? ==> |i.rest| < |r|
  {
    var name := r[..NameLen(r)];
    if !IsName(name) then Malformed
    else match TagEnd(r[NameLen(r)..])
      case Some((false, rest)) => StartTag(name, rest)
      case Some((true, rest)) => EmptyTag(name, rest)
      case None => Malformed
  }

  function EndOf(r: string): (i: Item)
    ensures !i.Malformed? ==> |i.rest| < |r|
  {
    var n := NameLen(r);
    if IsName(r[..n]) && n < |r| && r[n] == '>' then EndTag(r[..n], r[n + 1..]) else Malformed
  }

  /** The first tag or character of the content `r`: a reference counts as what it
      stands for, a line end as LF. */
  function NextItem(r: string): (i: Item)
    ensures !i.Malformed? ==> |i.rest| < |r|
  {
    if r == "" then Malformed
    else if r[0] == '<' then
      if |r| > 1 && r[1] == '/' then EndOf(r[2..]) else StartOf(r[1..])
    else if r[0] == '&' then
      match ReferenceAt(r)
      case Some((c, n)) => Data([c], r[n..])
      case None => Malformed
    else if r[0] == '>' then Malformed
    else if r[0] == CR then Data([LF], AfterCr(r, 0))
    else if CharLen(r) > 0 then Data(r[..CharLen(r)], r[CharLen(r)..])
    else Malformed
  }

  predicate AllBlank(r: string) { forall i :: 0 <= i < |r| ==> r[i] in {' ', '\t', CR, LF} }

  function Prepend(es: seq<Event>, rest: Option<seq<Event>>): Option<seq<Event>> {
    match rest case None => None case Some(r) => Some(es + r)
  }

  /** The events of the content `r` inside the open elements `open`, innermost first;
      None if it is not well formed. */
  function Content(r: string, open: seq<string>): Option<seq<Event>>
    decreases |r|
  {
    if open == [] then
      if AllBlank(r) then Some([]) else None
    else match NextItem(r)
      case StartTag(name, rest) => Prepend([Start(name)], Content(rest, [name] + open))
      case EmptyTag(name, rest) => Prepend([Start(name), End(name)], Content(rest, open))
      case EndTag(name, rest) => if name == open[0] then Prepend([End(name)], Content(rest, open[1..])) else None
      case Data(text, rest) => Prepend([Chars(text)], Content(rest, open))
      case Malformed => None
  }

  function BlankFront(r: string): (n: nat)
    ensures n <= |r|
  {
    if r != "" && r[0] in {' ', '\t', CR, LF} then 1 + BlankFront(r[1..]) else 0
  }

  /** Past the end of an XML declaration. */
  function AfterDeclaration(r: string): Option<string> {
    if r == "" || r[0] == '<' then None
    else if "?>" <= r then Some(r[2..])
    else AfterDeclaration(r[1..])
  }

  /** The events of a document: an XML declaration or none, and one element. */
  function Document(r: string): Option<seq<Event>> {
    var body := if "<?xml " <= r then AfterDeclaration(r[6..]) else Some(r);
    match body
    case None => None
    case Some(b) =>
      var t := b[BlankFront(b)..];
      match NextItem(t)
      case StartTag(name, rest) => Prepend([Start(name)], Content(rest, [name]))
      case EmptyTag(name, rest) => Prepend([Start(name), End(name)], Content(rest, []))
      case _ => None
  }

  // ---------------------------------------------------------------------
  // The element an event stream denotes

  /** An element with its own character data and its children, in order. */
  datatype Elem = Elem(name: string, cdata: string, children: seq<Elem>)

  datatype Inside = Inside(cdata: string, children: seq<Elem>, rest: seq<Event>) | Unnested

  /** What an element has inside, up to its end tag. */
  function Inner(es: seq<Event>): (i: Inside)
    ensures i.Inside? ==> |i.rest| <= |es| && (i.rest != [] ==> i.rest[0].End?)
    decreases |es|
  {
    if es == [] then Inside("", [], [])
    else match es[0]
      case End(_) => Inside("", [], es)
      case Chars(text) =>
        (match Inner(es[1..])
         case Unnested => Unnested
         case Inside(cdata, children, rest) => Inside(text + cdata, children, rest))
      case Start(name) =>
        (match Inner(es[1..])
         case Unnested => Unnested
         case Inside(cdata, children, rest) =>
           if rest == [] || rest[0] != End(name) then Unnested
           else match Inner(rest[1..])
             case Unnested => Unnested
             case Inside(cdata', children', rest') =>
               Inside(cdata', [Elem(name, cdata, children)] + children', rest'))
  }

  /** The element denoted by a well-nested stream with one root. */
  function ElementOf(es: seq<Event>): Option<Elem> {
    if es == [] || !es[0].Start? then None
    else match Inner(es[1..])
      case Inside(cdata, children, rest) =>
        if rest == [End(es[0].name)] then Some(Elem(es[0].name, cdata, children)) else None
      case Unnested => None
  }

  /** Reading a document: the element it denotes. */
  function ReadXml(r: string): Option<Elem> {
    match Document(r) case None => None case Some(es) => ElementOf(es)
  }

  // ---------------------------------------------------------------------
  // Printed markup reads back

  /** Markup as the serializers put it together: tags, escaped text and raw text. */
  datatype Markup =
    | Tag(name: string, attribute: string, content: seq<Markup>)
    | Empty(name: string)
    | Escaped(text: string)
    | Raw(text: string)

  /** The text of `m` and then `k`. */
  function RenderK(m: Markup, k: string): string
    decreases m, 0
  {
    match m
    case Tag(name, attribute, content) => "<" + (name + (attribute + (">" + ContentK(content, Closing(name, k)))))
    case Empty(name) => "<" + (name + ("/>" + k))
    case Escaped(text) => XmlEscape(text) + k
    case Raw(text) => text + k
  }

  function Closing(name: string, k: string): string { "</" + (name + (">" + k)) }

  function ContentK(ms: seq<Markup>, k: string): string
    decreases ms, 0
  {
    if ms == [] then k else RenderK(ms[0], ContentK(ms[1..], k))
  }

  /** The document a serializer prints: the XML declaration, one element and a line
      end. */
  function DocumentText(root: Markup): string { XML_PROLOGUE + RenderK(root, "\r\n") }

  /** Printable ASCII without markup characters, and whole line ends. */
  predicate IsRaw(t: string) {
    && (forall c :: c in t ==> (' ' <= c <= '~' || c == CR || c == LF) && c !in {'<', '>', '&'})
    && (t != "" ==> t[|t| - 1] != CR)
  }

  const APACHE_URL := "http://" + ("ws.apache.org" + ("/xmlrpc" + ("/namespaces" + "/extensions")))

  function Attribute(name: string, value: string): string { " " + (name + ("=\"" + (value + "\""))) }

  const XMLNS_APACHE := Attribute("xmlns:ex", APACHE_URL)

  ghost predicate WellFormed(m: Markup)
    decreases m, 0
  {
    match m
    case Tag(name, attribute, content) =>
      IsName(name) && (attribute == "" || attribute == XMLNS_APACHE) && AllWellFormed(content)
    case Empty(name) => IsName(name)
    case Escaped(text) => IsXmlText(text)
    case Raw(text) => IsRaw(text)
  }

  ghost predicate AllWellFormed(ms: seq<Markup>)
    decreases ms, 0
  {
    forall m :: m in ms ==> WellFormed(m)
  }

  /** The events of a text, one for each character. */
  function TextEvents(s: string): seq<Event>
    decreases |s|
  {
    if s == "" then []
    else
      var n := if CharLen(s) > 0 then CharLen(s) else |s|;
      [Chars(s[..n])] + TextEvents(s[n..])
  }

  function EventsOf(m: Markup): seq<Event>
    decreases m, 0
  {
    match m
    case Tag(name, _, content) => [Start(name)] + (ContentEvents(content) + [End(name)])
    case Empty(name) => [Start(name), End(name)]
    case Escaped(text) => TextEvents(text)
    case Raw(text) => TextEvents(Normalise(text))
  }

  function ContentEvents(ms: seq<Markup>): seq<Event>
    decreases ms, 0
  {
    if ms == [] then [] else EventsOf(ms[0]) + ContentEvents(ms[1..])
  }
}
