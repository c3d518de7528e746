/** Character data in XML: the escaping of xmlrpc-c/src/xmlrpc_serialize.c and the
references of XML 1.0 section 4.1 that undo it. */
module XmlText {
  import opened Text
  import opened JsonStrings

  function EscapeOf(c: char): (s: string)
    ensures s != ""
  {
    match c
    case '<' => "&lt;"
    case '>' => "&gt;"
    case '&' => "&amp;"
    case '\r' => "&#x0d;"
    case _ => [c]
  }

  /** The text `s` as character data. */
  function XmlEscape(s: string): string {
    if s == "" then "" else EscapeOf(s[0]) + XmlEscape(s[1..])
  }

  /** The reference at the front of `t`: the character it stands for and its length. */
  function ReferenceAt(t: string): (r: Option<(char, nat)>)
    ensures r.Some? ==> 0 < r.value.1 <= |t|
  {
    if "&lt;" <= t then Some(('<', 4))
    else if "&gt;" <= t then Some(('>', 4))
    else if "&amp;" <= t then Some(('&', 5))
    else if "&#x0d;" <= t then Some(('\r', 6))
    else None
  }

  /** Character data with its references replaced. Raw markup is none. */
  function Expand(t: string): Option<string>
    decreases |t|
  {
    if t == "" then Some("")
    else if t[0] == '&' then
      match ReferenceAt(t)
      case Some((c, n)) => Before([c], Expand(t[n..]))
      case None => None
    else if t[0] in {'<', '>'} then None
    else Before([t[0]], Expand(t[1..]))
  }

  lemma EscapeOfExpands(c: char, t: string)
    ensures Expand(EscapeOf(c) + t) == Before([c], Expand(t))
  {
    var e := EscapeOf(c);
    var s := e + t;
    assert s[|e|..] == t && s[0] == e[0];
    if |e| > 1 {
      assert s[1] == e[1] && s[2] == e[2] && s[3] == e[3];
      assert e <= s;
    }
  }

  /** Replacing the references gives back any text that was escaped. */
  lemma {:induction false} ExpandUndoesEscape(s: string)
    ensures Expand(XmlEscape(s)) == Some(s)
  {
    if s != "" {
      ExpandUndoesEscape(s[1..]);
      EscapeOfExpands(s[0], XmlEscape(s[1..]));
      assert [s[0]] + s[1..] == s;
    }
  }

  /** The `i`th character of escaped text is not special, or starts a reference. */
  ghost predicate Tame(t: string, i: nat)
    requires i < |t|
  {
    t[i] !in {'<', '>', '\r'} && (t[i] == '&' ==> ReferenceAt(t[i..]).Some?)
  }

  lemma TameAfter(a: string, b: string, i: nat)
    requires |a| <= i < |a + b| && Tame(b, i - |a|)
    ensures Tame(a + b, i)
  {
    assert (a + b)[i..] == b[i - |a|..];
  }

  /** Escaped text has no raw <, > or CR, and an ampersand only where one of the four
      references starts. */
  lemma {:induction false} EscapedIsTame(s: string)
    ensures forall i :: 0 <= i < |XmlEscape(s)| ==> Tame(XmlEscape(s), i)
  {
    if s != "" {
      EscapedIsTame(s[1..]);
      var e, rest := EscapeOf(s[0]), XmlEscape(s[1..]);
      forall i | 0 <= i < |e + rest| ensures Tame(e + rest, i) {
        if i >= |e| {
          TameAfter(e, rest, i);
        } else if e[i] == '&' {
          assert i == 0 && (e + rest)[0..] == e + rest;
          assert e <= e + rest;
        }
      }
    }
  }

  lemma {:induction false} EscapeSplit(a: string, b: string)
    ensures XmlEscape(a + b) == XmlEscape(a) + XmlEscape(b)
  {
    hide XmlEscape, EscapeOf;
    if a == "" {
      NothingEscaped(a);
      assert a + b == b && "" + XmlEscape(b) == XmlEscape(b);
    } else {
      EscapeSplit(a[1..], b);
      EscapeHead(a);
      EscapeHead(a + b);
      assert (a + b)[1..] == a[1..] + b && (a + b)[0] == a[0];
      Assoc(EscapeOf(a[0]), XmlEscape(a[1..]), XmlEscape(b));
    }
  }

  lemma EscapeHead(s: string)
    requires s != ""
    ensures XmlEscape(s) == EscapeOf(s[0]) + XmlEscape(s[1..])
  {}

  lemma EscapeStep(s: string, i: nat)
    requires i < |s|
    ensures XmlEscape(s[..i + 1]) == XmlEscape(s[..i]) + EscapeOf(s[i])
    ensures |XmlEscape(s[..i + 1])| <= |XmlEscape(s)|
  {
    assert s[..i + 1] == s[..i] + [s[i]] && s == s[..i + 1] + s[i + 1..];
    EscapeSplit(s[..i], [s[i]]);
    EscapeSplit(s[..i + 1], s[i + 1..]);
    assert [s[i]][1..] == "" && EscapeOf(s[i]) + "" == EscapeOf(s[i]);
  }

  lemma NothingEscaped(s: string)
    requires s == ""
    ensures XmlEscape(s) == ""
  {}

  /** escapedSize() */
  method EscapedSize(chars: string) returns (size: nat)
    ensures size == |XmlEscape(chars)|
  {
    hide XmlEscape;
    size := 0;
    var i := 0;
    NothingEscaped(chars[..0]);
    while i < |chars|
      invariant i <= |chars| && size == |XmlEscape(chars[..i])|
    {
      EscapeStep(chars, i);
      if chars[i] == '<' { size := size + 4; }
      else if chars[i] == '>' { size := size + 4; }
      else if chars[i] == '&' { size := size + 5; }
      else if chars[i] == '\r' { size := size + 6; }
      else { size := size + 1; }
      i := i + 1;
    }
    assert chars[..i] == chars;
  }

  /** memcpy() of a short text to `out[p..]`. */
  method Write(out: array<char>, p: nat, s: string)
    requires p + |s| <= out.Length
    modifies out
    ensures out[..p + |s|] == old(out[..p]) + s
  {
    forall i | 0 <= i < |s| { out[p + i] := s[i]; }
  }

  /** escapeForXml(): the output is exactly as long as escapedSize() says, and the
      write loop fills it. */
  method EscapeForXml(chars: string) returns (out: array<char>)
    ensures fresh(out) && out[..] == XmlEscape(chars)
  {
    hide XmlEscape;
    var outputSize := EscapedSize(chars);
    out := new char[outputSize];
    var p, i := 0, 0;
    NothingEscaped(chars[..0]);
    while i < |chars|
      invariant i <= |chars| && p <= out.Length == |XmlEscape(chars)|
      invariant out[..p] == XmlEscape(chars[..i])
    {
      EscapeStep(chars, i);
      if chars[i] == '<' {
        Write(out, p, "&lt;");
        p := p + 4;
      } else if chars[i] == '>' {
        Write(out, p, "&gt;");
        p := p + 4;
      } else if chars[i] == '&' {
        Write(out, p, "&amp;");
        p := p + 5;
      } else if chars[i] == '\r' {
        Write(out, p, "&#x0d;");
        p := p + 6;
      } else {
        Write(out, p, [chars[i]]);
        p := p + 1;
      }
      i := i + 1;
    }
    assert chars[..i] == chars;
    assert out[..p] == out[..];
  }
}
