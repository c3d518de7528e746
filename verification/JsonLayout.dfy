/** How values are laid out as JSON text: which way to write each, and where line ends and
blanks go, as a document of the grammar in JsonSyntax. */
module JsonLayout {
  import opened Text
  import opened Base64Text
  import opened Utf8Text
  import opened Values
  import opened Datetimes
  import opened JsonStrings
  import opened JsonPrinter
  import opened JsonTokens
  import opened JsonSyntax

  // ---------------------------------------------------------------------
  // Strings

  /** How a character is written: as it is, unless it is a quote, a backslash or below
      0x1F; then by its letter if it has one, and otherwise by four digits. */
  function PieceFor(c: char): Piece {
    if c == '"' || c == '\\' then Slash(c)
    else if c == Byte(8) then Slash('b')
    else if c == Byte(9) then Slash('t')
    else if c == Byte(10) then Slash('n')
    else if c == Byte(12) then Slash('f')
    else if c == Byte(13) then Slash('r')
    else if c as int < 0x1F then Unicode("00" + [HexChar(c as int / 16), HexChar(c as int % 16)])
    else Itself(c)
  }

  function PiecesFor(s: string): seq<Piece> { if s == "" then [] else [PieceFor(s[0])] + PiecesFor(s[1..]) }

  lemma PieceIsEscape(c: char)
    ensures PieceText(PieceFor(c)) == EscapeChar(c)
    ensures c != '\0' ==> PieceOk(PieceFor(c)) && PieceMeaning(PieceFor(c)) == [c]
  {
    if c as int < 0x1F {
      var digits := "00" + [HexChar(c as int / 16), HexChar(c as int % 16)];
      HexBelow(digits);
      assert "\\u" + digits == "\\u00" + [HexChar(c as int / 16), HexChar(c as int % 16)];
    }
  }

  /** The printed body of a string is these pieces, one for each character. */
  lemma {:induction false} EscapeIsPieces(s: string)
    ensures Escape(s) == BodyText(PiecesFor(s)) && |PiecesFor(s)| == |s|
  {
    hide EscapeChar, PieceFor, PieceText;
    if s != "" {
      EscapeIsPieces(s[1..]);
      PieceIsEscape(s[0]);
    }
  }

  function PlainPieces(s: string): seq<Piece> { if s == "" then [] else [Itself(s[0])] + PlainPieces(s[1..]) }

  lemma {:induction false} PlainIsText(s: string)
    ensures BodyText(PlainPieces(s)) == s
  {
    if s != "" { PlainIsText(s[1..]); }
  }

  // ---------------------------------------------------------------------
  // Values

  /** Two blanks for each level. */
  function Indent(level: nat): seq<Blank> { if level == 0 then [] else [Space(' '), Space(' ')] + Indent(level - 1) }

  function NewLine(level: nat): seq<Blank> { [Space('\n')] + Indent(level) }

  /** How `v` is written: items and members on lines of their own, two blanks further in;
      the value of a member, indented like its key, behind the colon. */
  function Laid(lib: Lib, v: Value, level: nat): Syntax
    requires Serializable(v)
    decreases v, 0
  {
    match v
    case Int(i) => Word(Signed(i))
    case I8(i) => Word(Signed(i))
    case Bool(b) => Word(if b then "true" else "false")
    case Double(d) => Word(lib.formatE(d))
    case DateTime(dt) => StringText(PlainPieces(SecondsText(dt)))
    case Str(s) => StringText(PiecesFor(s))
    case Base64(bytes) => StringText(PlainPieces(Encode64(bytes)))
    case Array(items) =>
      if items == [] then List([], None, [Space('\n')] + NewLine(level))
      else var es := LaidItems(lib, items, level + 1); List(es[..|es| - 1], Some(es[|es| - 1]), [])
    case Struct(members) =>
      if members == [] then Object([], None, [Space('\n')] + NewLine(level))
      else var ps := LaidMembers(lib, members, level + 1); Object(ps[..|ps| - 1], Some(ps[|ps| - 1]), [])
    case Nil => Word("null")
  }

  /** The gap behind an item: nothing before a comma, and a new line before the end. */
  function Behind(last: bool, level: nat): seq<Blank> { if last && level > 0 then NewLine(level - 1) else [] }

  function LaidItems(lib: Lib, items: seq<Value>, level: nat): (es: seq<Element>)
    requires forall x :: x in items ==> Serializable(x)
    ensures |es| == |items|
    decreases items, 0
  {
    if items == [] then []
    else [Element(NewLine(level), Laid(lib, items[0], level), Behind(|items| == 1, level))] + LaidItems(lib, items[1..], level)
  }

  function LaidMembers(lib: Lib, members: seq<Member>, level: nat): (ps: seq<Pair>)
    requires forall m :: m in members ==> Serializable(m.value)
    ensures |ps| == |members|
    decreases members, 0
  {
    if members == [] then []
    else [LaidMember(lib, members[0], |members| == 1, level)] + LaidMembers(lib, members[1..], level)
  }

  function LaidMember(lib: Lib, m: Member, last: bool, level: nat): Pair
    requires Serializable(m.value)
    decreases m, 0
  {
    Pair(NewLine(level), PiecesFor(m.key), [], Element(Indent(level), Laid(lib, m.value, level), Behind(last, level)))
  }

  // ---------------------------------------------------------------------
  // What is printed is laid out so

  lemma {:induction false} IndentText(level: nat, k: string)
    ensures GapK(Indent(level), k) == Spaces(2 * level) + k
  {
    if level == 0 {
      assert Spaces(0) + k == k;
    } else {
      IndentText(level - 1, k);
      var g := Indent(level);
      assert g[0] == g[1] == Space(' ') && g[1..][1..] == Indent(level - 1) && g[1..] != [] && g[1..][0] == Space(' ');
      assert Spaces(2 * level) == " " + (" " + Spaces(2 * level - 2));
      assert [' '] + ([' '] + (Spaces(2 * level - 2) + k)) == Spaces(2 * level) + k;
      assert GapK(g, k) == [' '] + GapK(g[1..], k) && GapK(g[1..], k) == [' '] + GapK(g[1..][1..], k);
    }
  }

  lemma NewLineText(level: nat, k: string)
    ensures GapK(NewLine(level), k) == "\n" + (Spaces(2 * level) + k)
  {
    IndentText(level, k);
    hide Spaces, Indent;
    assert NewLine(level)[1..] == Indent(level);
  }

  lemma ClosingText(level: nat, c: char, k: string)
    ensures GapK(NewLine(level), [c] + k) == Closing(level, c, k)
    ensures GapK([Space('\n')] + NewLine(level), [c] + k) == "\n" + Closing(level, c, k)
  {
    hide Spaces, Indent;
    NewLineText(level, [c] + k);
    var g := [Space('\n')] + NewLine(level);
    assert g[1..] == NewLine(level);
  }

  /** The printed text is the layout. */
  lemma {:induction false} PrintedAsLaid(lib: Lib, v: Value, level: nat, k: string)
    requires Serializable(v)
    ensures PrintK(lib, v, level, k) == GapK(Indent(level), SpellK(Laid(lib, v, level), k))
    decreases v, 3
  {
    hide Laid, BodyK, SpellK, Indent, Spaces;
    BodyLaid(lib, v, level, k);
    IndentText(level, SpellK(Laid(lib, v, level), k));
  }

  lemma {:induction false} BodyLaid(lib: Lib, v: Value, level: nat, k: string)
    requires Serializable(v)
    ensures BodyK(lib, v, level, k) == SpellK(Laid(lib, v, level), k)
    decreases v, 2
  {
    hide ItemsK, MembersK, Closing, GapK, LaidItems, LaidMembers, Signed, SecondsText, Encode64, ElementsK, PairsK, ElementK, PairK;
    match v
    case DateTime(dt) => PlainIsText(SecondsText(dt));
    case Str(s) => EscapeIsPieces(s);
    case Base64(bytes) => PlainIsText(Encode64(bytes));
    case Array(items) => ArrayLaid(lib, items, level, k);
    case Struct(members) => StructLaid(lib, members, level, k);
    case _ =>
  }

  lemma {:induction false} ArrayLaid(lib: Lib, items: seq<Value>, level: nat, k: string)
    requires forall x :: x in items ==> Serializable(x)
    ensures "[\n" + ItemsK(lib, items, level + 1, Closing(level, ']', k)) == SpellK(Laid(lib, Array(items), level), k)
    decreases items, 1
  {
    hide PrintK, BodyK, Closing, GapK, ElementK, Indent;
    var end := Closing(level, ']', k);
    ClosingText(level, ']', k);
    if items == [] {
      assert "[\n" + end == "[" + ("\n" + end);
    } else {
      ItemsLaid(lib, items, level + 1, k);
      var es := LaidItems(lib, items, level + 1);
      assert "[\n" + ItemsK(lib, items, level + 1, end) == "[" + ("\n" + ItemsK(lib, items, level + 1, end));
    }
  }

  lemma {:induction false} ItemsLaid(lib: Lib, items: seq<Value>, level: nat, k: string)
    requires items != [] && level > 0 && forall x :: x in items ==> Serializable(x)
    ensures var es := LaidItems(lib, items, level);
      "\n" + ItemsK(lib, items, level, Closing(level - 1, ']', k)) == ElementsK(es[..|es| - 1], ElementK(es[|es| - 1], "]" + k))
    decreases items, 0
  {
    hide PrintK, BodyK, Closing, GapK, Indent, SpellK, Laid;
    var es, end := LaidItems(lib, items, level), Closing(level - 1, ']', k);
    HeadAndTail(items);
    if |items| == 1 {
      ClosingText(level - 1, ']', k);
      ElementLaid(lib, items[0], level, NewLine(level - 1), end, "]" + k);
      assert es[..0] == [];
    } else {
      ItemsLaid(lib, items[1..], level, k);
      var rest := "\n" + ItemsK(lib, items[1..], level, end);
      var others := LaidItems(lib, items[1..], level);
      assert ",\n" + ItemsK(lib, items[1..], level, end) == "," + rest;
      NoGapText("," + rest);
      ElementLaid(lib, items[0], level, [], "," + rest, "," + rest);
      assert es[1..] == others && es[..|es| - 1][1..] == others[..|others| - 1] && es[|es| - 1] == others[|others| - 1];
    }
  }

  lemma NoGapText(k: string)
    ensures GapK([], k) == k
  {}

  /** One item on its line; `after` is the text that the gap behind it and `k` make. */
  lemma {:induction false} ElementLaid(lib: Lib, v: Value, level: nat, behind: seq<Blank>, after: string, k: string)
    requires Serializable(v) && GapK(behind, k) == after
    ensures "\n" + PrintK(lib, v, level, after) == ElementK(Element(NewLine(level), Laid(lib, v, level), behind), k)
    decreases v, 4
  {
    hide BodyK, GapK, SpellK, Laid, Spaces;
    BodyLaid(lib, v, level, after);
    NewLineText(level, SpellK(Laid(lib, v, level), after));
  }

  lemma {:induction false} StructLaid(lib: Lib, members: seq<Member>, level: nat, k: string)
    requires forall m :: m in members ==> Serializable(m.value)
    ensures "{\n" + MembersK(lib, members, level + 1, Closing(level, '}', k)) == SpellK(Laid(lib, Struct(members), level), k)
    decreases members, 1
  {
    hide MemberK, Closing, GapK, PairK, Indent, LaidMember;
    var end := Closing(level, '}', k);
    ClosingText(level, '}', k);
    if members == [] {
      assert "{\n" + end == "{" + ("\n" + end);
    } else {
      MembersLaid(lib, members, level + 1, k);
      assert "{\n" + MembersK(lib, members, level + 1, end) == "{" + ("\n" + MembersK(lib, members, level + 1, end));
    }
  }

  lemma {:induction false} MembersLaid(lib: Lib, members: seq<Member>, level: nat, k: string)
    requires members != [] && level > 0 && forall m :: m in members ==> Serializable(m.value)
    ensures var ps := LaidMembers(lib, members, level);
      "\n" + MembersK(lib, members, level, Closing(level - 1, '}', k)) == PairsK(ps[..|ps| - 1], PairK(ps[|ps| - 1], "}" + k))
    decreases members, 0
  {
    hide MemberK, Closing, GapK, Indent, PairK, LaidMember;
    var ps, end := LaidMembers(lib, members, level), Closing(level - 1, '}', k);
    HeadAndTail(members);
    if |members| == 1 {
      ClosingText(level - 1, '}', k);
      MemberLaid(lib, members[0], level, true, end, "}" + k);
      assert ps[..0] == [];
    } else {
      MembersLaid(lib, members[1..], level, k);
      var rest := "\n" + MembersK(lib, members[1..], level, end);
      var others := LaidMembers(lib, members[1..], level);
      assert ",\n" + MembersK(lib, members[1..], level, end) == "," + rest;
      NoGapText("," + rest);
      MemberLaid(lib, members[0], level, false, "," + rest, "," + rest);
      assert ps[1..] == others && ps[..|ps| - 1][1..] == others[..|others| - 1] && ps[|ps| - 1] == others[|others| - 1];
    }
  }

  lemma {:induction false} MemberLaid(lib: Lib, m: Member, level: nat, last: bool, after: string, k: string)
    requires level > 0 && Serializable(m.value) && GapK(Behind(last, level), k) == after
    ensures "\n" + MemberK(lib, m, level, after) == PairK(LaidMember(lib, m, last, level), k)
    decreases m, 4
  {
    hide BodyK, GapK, SpellK, Laid, Spaces, Indent;
    EscapeIsPieces(m.key);
    BodyLaid(lib, m.value, level, after);
    var value := SpellK(Laid(lib, m.value, level), after);
    IndentText(level, value);
    var r2 := ":" + PrintK(lib, m.value, level, after);
    NoGapText(r2);
    NewLineText(level, QuotedK(PiecesFor(m.key), r2));
  }

  /** A printed document is its layout, and nothing stands before or behind it. */
  lemma DocumentLaid(lib: Lib, v: Value)
    requires Serializable(v)
    ensures Print(lib, v) == DocText(Complete([], Laid(lib, v, 0), End([], None, "")))
  {
    hide Laid, BodyK, SpellK;
    PrintedAsLaid(lib, v, 0, "");
  }
}
