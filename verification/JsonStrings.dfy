/** String escapes of xmlrpc-c/src/json.c: the unescaper for string tokens, the
escaper for printed strings, and how each agrees with the scanner. */
module JsonStrings {
  import opened Text
  import opened JsonLexer
  import opened Utf8Text

  // ---------------------------------------------------------------------
  // Unescaping

  /** A backslash sequence at the front of `t`: what it stands for and its length. */
  function EscapeAt(t: string): (e: Option<(string, nat)>)
    ensures e.Some? ==> 2 <= e.value.1 <= |t| && e.value.0 != ""
  {
    if |t| < 2 || t[0] != '\\' then None
    else match t[1]
      case '"' => Some(("\"", 2))
      case '/' => Some(("/", 2))
      case '\\' => Some(("\\", 2))
      case 'b' => Some(([Byte(8)], 2))
      case 'f' => Some(([Byte(12)], 2))
      case 'n' => Some(([Byte(10)], 2))
      case 'r' => Some(([Byte(13)], 2))
      case 't' => Some(([Byte(9)], 2))
      case 'u' => if Hex4At(t, 2) then Some((Utf8(Hex4Value(t[2..])), 6)) else None
      case _ => None
  }

  /** What the body `t` of a string token stands for: its plain characters, with
      each backslash sequence replaced. */
  function Unescape(t: string): Option<string>
    decreases |t|
  {
    if t == "" then Some("")
    else if t[0] != '\\' then Before([t[0]], Unescape(t[1..]))
    else match EscapeAt(t)
      case Some((piece, n)) => Before(piece, Unescape(t[n..]))
      case None => None
  }

  function Before(s: string, rest: Option<string>): Option<string> {
    match rest case None => None case Some(r) => Some(s + r)
  }

  /** The body of every string token the scanner accepts can be unescaped: the
      two readings of the escape syntax agree, and no escape reaches past the end
      of the body. */
  lemma {:induction false} ScannerAndUnescaperAgree(r: string)
    requires BodyLen(r).Some?
    ensures Unescape(r[..BodyLen(r).value]).Some?
    decreases |r|
  {
    if r[0] != '"' {
      hide Utf8, Hex4Value, EscapeAt;
      var n := BodyLen(r).value;
      var t := r[..n];
      var k := if r[0] != '\\' then 1 else if IsSimpleEscape(PeekAt(r, 1)) then 2 else 6;
      ScannerAndUnescaperAgree(r[k..]);
      assert t[k..] == r[k..][..n - k];
      if r[0] == '\\' {
        ScannedEscape(r, n);
      }
    }
  }

  lemma ScannedEscape(r: string, n: nat)
    requires r != "" && r[0] == '\\'
    requires if IsSimpleEscape(PeekAt(r, 1)) then 2 <= n <= |r| else 6 <= n <= |r| && r[1] == 'u' && Hex4At(r, 2)
    ensures EscapeAt(r[..n]).Some?
    ensures EscapeAt(r[..n]).value.1 == if IsSimpleEscape(PeekAt(r, 1)) then 2 else 6
  {
    var t := r[..n];
    assert t[0] == r[0] && t[1] == r[1];
    if !IsSimpleEscape(PeekAt(r, 1)) {
      assert t[2] == r[2] && t[3] == r[3] && t[4] == r[4] && t[5] == r[5];
    }
  }

  lemma UnescapeStep(doc: string, cur: nat, end: nat)
    requires cur < end <= |doc| && Unescape(doc[cur..end]).Some?
    ensures doc[cur] != '\\' ==>
              Unescape(doc[cur + 1..end]).Some?
              && Unescape(doc[cur..end]).value == [doc[cur]] + Unescape(doc[cur + 1..end]).value
    ensures doc[cur] == '\\' ==>
              EscapeAt(doc[cur..end]).Some?
              && Unescape(doc[cur + EscapeAt(doc[cur..end]).value.1..end]).Some?
              && Unescape(doc[cur..end]).value == EscapeAt(doc[cur..end]).value.0
                   + Unescape(doc[cur + EscapeAt(doc[cur..end]).value.1..end]).value
  {
    var t := doc[cur..end];
    assert t[1..] == doc[cur + 1..end];
    if doc[cur] == '\\' {
      var (_, n) := EscapeAt(t).value;
      assert t[n..] == doc[cur + n..end];
    }
  }

  /** The source's getBackslashSequence(): `cur` is just past the backslash. */
  method GetBackslashSequence(doc: string, cur: nat, ghost end: nat)
    returns (ok: bool, piece: string, consumed: nat)
    requires 1 <= cur <= end < |doc| && doc[cur - 1] == '\\'
    requires EscapeAt(doc[cur - 1..end]).Some?
    ensures ok && Some((piece, consumed + 1)) == EscapeAt(doc[cur - 1..end])
  {
    ok, piece, consumed := true, "", 1;
    ghost var t := doc[cur - 1..end];
    assert t[1] == doc[cur];
    match doc[cur] {
      case '"' => piece := "\"";
      case '/' => piece := "/";
      case '\\' => piece := "\\";
      case 'b' => piece := [Byte(8)];
      case 'f' => piece := [Byte(12)];
      case 'n' => piece := [Byte(10)];
      case 'r' => piece := [Byte(13)];
      case 't' => piece := [Byte(9)];
      case 'u' =>
        assert doc[cur + 1..cur + 5] == t[2..6];
        piece := Utf8(Hex4Value(doc[cur + 1..cur + 5]));
        consumed := 5;
      case _ => ok := false;
    }
  }

  lemma Regroup(block: string, run: string, piece: string, tail: string)
    ensures block + (run + (piece + tail)) == block + run + piece + ("" + tail)
    ensures block + (run + (piece + tail)) == block + ((run + piece) + tail)
  {}

  lemma UnescapeNothing(t: string)
    requires t == ""
    ensures Unescape(t) == Some("")
  {}

  lemma RunEnds(block: string, run: string)
    ensures block + (run + "") == block + run
    ensures run == "" ==> block + run == block
  {}

  lemma ExtendRun(doc: string, last: nat, cur: nat)
    requires last <= cur < |doc|
    ensures doc[last..cur + 1] == doc[last..cur] + [doc[cur]]
  {}

  /** Consume the backslash at `cur` and the sequence it starts. */
  method ConsumeEscape(doc: string, cur: nat, end: nat) returns (ok: bool, piece: string, cur': nat)
    requires cur < end < |doc| && doc[cur] == '\\' && Unescape(doc[cur..end]).Some?
    ensures ok && cur < cur' <= end
    ensures Unescape(doc[cur'..end]).Some?
    ensures Unescape(doc[cur..end]).value == piece + Unescape(doc[cur'..end]).value
  {
    UnescapeStep(doc, cur, end);
    cur' := cur + 1;
    var consumed;
    ok, piece, consumed := GetBackslashSequence(doc, cur', end);
    cur' := cur' + consumed;
  }

  /** The source's unescapeString(), on the body `doc[begin..end]` of a string
      token: it never faults, its cursor stops exactly at `end`, and it gathers
      what `Unescape` says. */
  method UnescapeString(doc: string, begin: nat, end: nat) returns (ok: bool, block: string)
    requires begin <= end < |doc|
    requires BodyLen(doc[begin..]) == Some(end - begin)
    ensures ok && Unescape(doc[begin..end]) == Some(block)
  {
    hide Unescape, BodyLen, EscapeAt;
    ok, block := true, "";
    assert doc[begin..end] == doc[begin..][..end - begin];
    ScannerAndUnescaperAgree(doc[begin..]);
    ghost var result := Unescape(doc[begin..end]).value;
    ghost var tail := result;
    var cur, last := begin, begin;
    while cur != end && ok
      invariant begin <= last <= cur <= end
      invariant Unescape(doc[cur..end]) == Some(tail)
      invariant result == block + (doc[last..cur] + tail)
      invariant ok
      decreases end - cur
    {
      ghost var run := doc[last..cur];
      if doc[cur] == '\\' {
        ghost var block0 := block;
        if cur != last {
          block := block + doc[last..cur];
        }
        var piece;
        ok, piece, cur := ConsumeEscape(doc, cur, end);
        tail := Unescape(doc[cur..end]).value;
        Regroup(block0, run, piece, tail);
        block := block + piece;
        last := cur;
      } else {
        UnescapeStep(doc, cur, end);
        tail := Unescape(doc[cur + 1..end]).value;
        Regroup(block, run, [doc[cur]], tail);
        ExtendRun(doc, last, cur);
        cur := cur + 1;
      }
    }
    UnescapeNothing(doc[cur..end]);
    RunEnds(block, doc[last..cur]);
    if cur != last {
      block := block + doc[last..cur];
    }
  }

  // ---------------------------------------------------------------------
  // Escaping

  predicate NeedsEscape(c: char) { c as int < 0x1F || c == '"' || c == '\\' }

  function EscapeSeq(c: char): string
    requires NeedsEscape(c)
  {
    match c as int
    case 0x22 => "\\\""
    case 0x5C => "\\\\"
    case 8 => "\\b"
    case 12 => "\\f"
    case 10 => "\\n"
    case 13 => "\\r"
    case 9 => "\\t"
    case n => "\\u00" + [HexChar(n / 16), HexChar(n % 16)]
  }

  function EscapeChar(c: char): (s: string)
    ensures s != ""
  {
    if NeedsEscape(c) then EscapeSeq(c) else [c]
  }

  /** The body of the string token printed for `s`. */
  function Escape(s: string): string {
    if s == "" then "" else EscapeChar(s[0]) + Escape(s[1..])
  }

  lemma EscapeCharReadsBack(c: char, t: string)
    ensures Unescape(EscapeChar(c) + t) == Before([c], Unescape(t))
    ensures BodyLen(EscapeChar(c) + t) == Plus(|EscapeChar(c)|, BodyLen(t))
  {
    var e := EscapeChar(c);
    var s := e + t;
    assert s[|e|..] == t;
    if !NeedsEscape(c) {
      assert s[0] == c;
    } else {
      assert s[0] == e[0] && s[1] == e[1];
      if |e| == 6 {
        UnicodeEscape(s, c);
      }
    }
  }

  lemma UnicodeEscape(s: string, c: char)
    requires c as int < 0x1F
    requires "\\u00" + [HexChar(c as int / 16), HexChar(c as int % 16)] <= s
    ensures Hex4At(s, 2) && EscapeAt(s) == Some(([c], 6))
  {
    var e := "\\u00" + [HexChar(c as int / 16), HexChar(c as int % 16)];
    var d := s[2..];
    assert s[0] == e[0] && s[1] == e[1];
    assert d[0] == e[2] && d[1] == e[3] && d[2] == e[4] && d[3] == e[5];
    assert HexValue('0') == 0;
    assert Hex4Value(d) == c as int;
  }

  /** Unescaping undoes escaping, for every byte string. */
  lemma {:induction false} EscapeRoundTrip(s: string)
    ensures Unescape(Escape(s)) == Some(s)
  {
    if s != "" {
      EscapeRoundTrip(s[1..]);
      EscapeCharReadsBack(s[0], Escape(s[1..]));
      assert [s[0]] + s[1..] == s;
    }
  }

  /** The scanner takes the escaped text of any byte string as one token body,
      whatever follows the closing quote. */
  lemma {:induction false} EscapeScans(s: string, after: string)
    ensures BodyLen(Escape(s) + ("\"" + after)) == Some(|Escape(s)|)
  {
    if s == "" {
      assert Escape(s) + ("\"" + after) == "\"" + after;
    } else {
      hide BodyLen, EscapeChar;
      EscapeScans(s[1..], after);
      EscapeCharReadsBack(s[0], Escape(s[1..]) + ("\"" + after));
      Assoc(EscapeChar(s[0]), Escape(s[1..]), "\"" + after);
    }
  }

  lemma EscapeNothing(s: string)
    requires s == ""
    ensures Escape(s) == ""
  {}

  lemma EscapeStep(value: string, cur: nat)
    requires cur < |value|
    ensures Escape(value[cur..]) == EscapeChar(value[cur]) + Escape(value[cur + 1..])
  {
    assert value[cur..][1..] == value[cur + 1..];
  }

  /** The source's makeJsonString(): plain runs are copied whole. */
  method MakeJsonString(value: string, out: string) returns (out': string)
    ensures out' == out + Escape(value)
  {
    hide Escape, EscapeSeq, NeedsEscape;
    out' := out;
    var last, cur := 0, 0;
    ghost var tail := Escape(value);
    assert value[cur..] == value;
    assert out + tail == out + ("" + tail);
    while cur != |value|
      invariant 0 <= last <= cur <= |value|
      invariant tail == Escape(value[cur..])
      invariant out + Escape(value) == out' + (value[last..cur] + tail)
      decreases |value| - cur
    {
      var c := value[cur];
      ghost var run := value[last..cur];
      EscapeStep(value, cur);
      tail := Escape(value[cur + 1..]);
      Regroup(out', run, EscapeChar(c), tail);
      if NeedsEscape(c) {
        out' := out' + value[last..cur];
        out' := out' + EscapeSeq(c);
        cur := cur + 1;
        last := cur;
      } else {
        ExtendRun(value, last, cur);
        cur := cur + 1;
      }
    }
    EscapeNothing(value[cur..]);
    RunEnds(out', value[last..cur]);
    if cur != last {
      out' := out' + value[last..cur];
    }
  }
}
