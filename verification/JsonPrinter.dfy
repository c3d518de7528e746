/** The indenting printer of xmlrpc-c/src/json.c. */
module JsonPrinter {
  import opened Text
  import opened Base64Text
  import opened Values
  import opened JsonStrings
  import opened MemBlocks
  import opened Datetimes

  /** The text printed for `v` at `level`, followed by `k`. */
  function PrintK(lib: Lib, v: Value, level: nat, k: string): string
    requires Serializable(v)
    decreases v, 1
  {
    Spaces(2 * level) + BodyK(lib, v, level, k)
  }

  function BodyK(lib: Lib, v: Value, level: nat, k: string): string
    requires Serializable(v)
    decreases v, 0
  {
    match v
    case Int(i) => Signed(i) + k
    case I8(i) => Signed(i) + k
    case Bool(b) => (if b then "true" else "false") + k
    case Double(d) => lib.formatE(d) + k
    case DateTime(dt) => Quoted(SecondsText(dt), k)
    case Str(s) => Quoted(Escape(s), k)
    case Base64(bytes) => Quoted(Encode64(bytes), k)
    case Array(items) => "[\n" + ItemsK(lib, items, level + 1, Closing(level, ']', k))
    case Struct(members) => "{\n" + MembersK(lib, members, level + 1, Closing(level, '}', k))
    case Nil => "null" + k
  }

  /** The text after the last item or member. */
  function Closing(level: nat, c: char, k: string): string { "\n" + (Spaces(2 * level) + ([c] + k)) }

  function Quoted(body: string, k: string): string { "\"" + (body + ("\"" + k)) }

  function ItemsK(lib: Lib, items: seq<Value>, level: nat, k: string): string
    requires forall x :: x in items ==> Serializable(x)
    decreases items, 0
  {
    if items == [] then k
    else if |items| == 1 then PrintK(lib, items[0], level, k)
    else PrintK(lib, items[0], level, ",\n" + ItemsK(lib, items[1..], level, k))
  }

  function MemberK(lib: Lib, m: Member, level: nat, k: string): string
    requires Serializable(m.value)
    decreases m, 0
  {
    Spaces(2 * level) + Quoted(Escape(m.key), ":" + PrintK(lib, m.value, level, k))
  }

  function MembersK(lib: Lib, members: seq<Member>, level: nat, k: string): string
    requires forall m :: m in members ==> Serializable(m.value)
    decreases members, 0
  {
    if members == [] then k
    else if |members| == 1 then MemberK(lib, members[0], level, k)
    else MemberK(lib, members[0], level, ",\n" + MembersK(lib, members[1..], level, k))
  }

  /** The JSON text of `v`. */
  function Print(lib: Lib, v: Value): string
    requires Serializable(v)
  {
    PrintK(lib, v, 0, "")
  }

  // ---------------------------------------------------------------------
  // The printer itself, which appends to a memory block.

  lemma Associate3(a: string, b: string, c: string, d: string)
    ensures a + (b + (c + d)) == (a + (b + c)) + d
    ensures a + (b + d) == (a + b) + d
  {}

  /** What follows a value does not change its text. */
  lemma {:induction false} PrintThen(lib: Lib, v: Value, level: nat, k: string)
    requires Serializable(v)
    ensures PrintK(lib, v, level, k) == PrintK(lib, v, level, "") + k
    decreases v, 2
  {
    BodyThen(lib, v, level, k);
    Associate3(Spaces(2 * level), BodyK(lib, v, level, ""), "", k);
  }

  lemma QuotedThen(body: string, k: string, l: string)
    ensures Quoted(body, k + l) == Quoted(body, k) + l
  {
    assert body + ("\"" + (k + l)) == (body + ("\"" + k)) + l;
  }

  lemma ClosingThen(level: nat, c: char, k: string, l: string)
    ensures Closing(level, c, k + l) == Closing(level, c, k) + l
  {
    assert Spaces(2 * level) + ([c] + (k + l)) == (Spaces(2 * level) + ([c] + k)) + l;
  }

  lemma {:induction false} BodyThen(lib: Lib, v: Value, level: nat, k: string)
    requires Serializable(v)
    ensures BodyK(lib, v, level, k) == BodyK(lib, v, level, "") + k
    decreases v, 1
  {
    hide Quoted, Closing, Decimal, Signed, SecondsText;
    assert "" + k == k;
    match v
    case Array(items) =>
      ClosingThen(level, ']', "", k);
      ItemsThen(lib, items, level + 1, Closing(level, ']', ""), k);
      Associate3("[\n", ItemsK(lib, items, level + 1, Closing(level, ']', "")), "", k);
    case Struct(members) =>
      ClosingThen(level, '}', "", k);
      MembersThen(lib, members, level + 1, Closing(level, '}', ""), k);
      Associate3("{\n", MembersK(lib, members, level + 1, Closing(level, '}', "")), "", k);
    case DateTime(dt) => QuotedThen(SecondsText(dt), "", k);
    case Str(s) => QuotedThen(Escape(s), "", k);
    case Base64(bytes) => QuotedThen(Encode64(bytes), "", k);
    case _ =>
  }

  lemma {:induction false} ItemsThen(lib: Lib, items: seq<Value>, level: nat, k: string, l: string)
    requires forall x :: x in items ==> Serializable(x)
    ensures ItemsK(lib, items, level, k + l) == ItemsK(lib, items, level, k) + l
    decreases items, 0
  {
    hide PrintK;
    if items != [] {
      var rest := ItemsK(lib, items[1..], level, k);
      var after := if |items| == 1 then k else ",\n" + rest;
      ItemsThen(lib, items[1..], level, k, l);
      Associate3(",\n", rest, "", l);
      PrintThen(lib, items[0], level, after);
      PrintThen(lib, items[0], level, after + l);
      Associate3(PrintK(lib, items[0], level, ""), after, "", l);
    }
  }

  lemma {:induction false} MemberThen(lib: Lib, m: Member, level: nat, k: string)
    requires Serializable(m.value)
    ensures MemberK(lib, m, level, k) == MemberK(lib, m, level, "") + k
    decreases m, 3
  {
    hide PrintK, Quoted;
    var value := PrintK(lib, m.value, level, "");
    PrintThen(lib, m.value, level, k);
    Associate3(":", value, "", k);
    QuotedThen(Escape(m.key), ":" + value, k);
    Associate3(Spaces(2 * level), Quoted(Escape(m.key), ":" + value), "", k);
  }

  lemma {:induction false} MembersThen(lib: Lib, members: seq<Member>, level: nat, k: string, l: string)
    requires forall m :: m in members ==> Serializable(m.value)
    ensures MembersK(lib, members, level, k + l) == MembersK(lib, members, level, k) + l
    decreases members, 0
  {
    hide MemberK;
    if members != [] {
      var rest := MembersK(lib, members[1..], level, k);
      var after := if |members| == 1 then k else ",\n" + rest;
      MembersThen(lib, members[1..], level, k, l);
      Associate3(",\n", rest, "", l);
      MemberThen(lib, members[0], level, after);
      MemberThen(lib, members[0], level, after + l);
      Associate3(MemberK(lib, members[0], level, ""), after, "", l);
    }
  }

  ghost predicate AllSerializable(items: seq<Value>) { forall x :: x in items ==> Serializable(x) }

  ghost predicate MembersSerializable(members: seq<Member>) { forall m :: m in members ==> Serializable(m.value) }

  method Indent(level: nat, out: MemBlock)
    modifies out
    ensures out.contents == old(out.contents) + Spaces(2 * level)
  {
    var i := 0;
    assert out.contents + Spaces(2 * level) == out.contents + Spaces(2 * level - i);
    while i < level * 2
      invariant i <= 2 * level
      invariant old(out.contents) + Spaces(2 * level) == out.contents + Spaces(2 * level - i)
    {
      Associate3(out.contents, " ", "", Spaces(2 * level - i - 1));
      out.Append(" ");
      i := i + 1;
    }
  }

  /** serializeValue(): the text of `v` is appended, or a fault is set exactly
      when some value in `v` cannot be printed. */
  method SerializeValue(lib: Lib, v: Value, level: nat, out: MemBlock) returns (ok: bool)
    modifies out
    ensures ok <==> Serializable(v)
    ensures ok ==> out.contents == old(out.contents) + PrintK(lib, v, level, "")
    decreases v, 1
  {
    ghost var start := out.contents;
    Indent(level, out);
    ok := true;
    match v {
      case Int(i) => out.Append(Signed(i));
      case I8(i) => out.Append(Signed(i));
      case Bool(b) => out.Append(if b then "true" else "false");
      case Double(d) => out.Append(lib.formatE(d));
      case DateTime(dt) => out.Append("\"" + SecondsText(dt) + "\"");
      case Str(s) => SerializeString(s, out);
      case Base64(bytes) =>
        var encoded := Base64Encode(bytes, true);
        out.Append("\"");
        out.Append(encoded);
        out.Append("\"");
      case Array(items) => ok := SerializeArray(lib, items, level, out);
      case Struct(members) => ok := SerializeStruct(lib, members, level, out);
      case Nil => out.Append("null");
      case CPtr => ok := false;
      case Dead => ok := false;
    }
    if ok {
      hide PrintK, Escape, SecondsText, Signed, Encode64;
      Appended(lib, v, level, start, out.contents);
    }
  }

  /** The text of `v`, put together from what the cases append. */
  lemma Appended(lib: Lib, v: Value, level: nat, start: string, end: string)
    requires Serializable(v)
    requires var s := start + Spaces(2 * level);
      match v
      case DateTime(dt) => end == s + ("\"" + SecondsText(dt) + "\"")
      case Base64(bytes) => end == s + "\"" + Encode64(bytes) + "\""
      case Int(i) => end == s + Signed(i)
      case I8(i) => end == s + Signed(i)
      case Bool(b) => end == s + if b then "true" else "false"
      case Double(d) => end == s + lib.formatE(d)
      case Nil => end == s + "null"
      case _ => end == s + BodyK(lib, v, level, "")
    ensures end == start + PrintK(lib, v, level, "")
  {
    hide SecondsText, Signed, Escape, Encode64;
    Associate3(start, Spaces(2 * level), BodyK(lib, v, level, ""), "");
    match v
    case DateTime(dt) => assert "\"" + SecondsText(dt) + "\"" == Quoted(SecondsText(dt), "");
    case Base64(bytes) => assert "\"" + (Encode64(bytes) + "\"") == Quoted(Encode64(bytes), "");
    case _ =>
  }

  method SerializeString(s: string, out: MemBlock)
    modifies out
    ensures out.contents == old(out.contents) + Quoted(Escape(s), "")
  {
    hide Escape;
    out.Append("\"");
    out.contents := MakeJsonString(s, out.contents);
    out.Append("\"");
    assert ((old(out.contents) + "\"") + Escape(s)) + "\"" == old(out.contents) + ("\"" + (Escape(s) + "\""));
  }

  /** One more item or member: what is left shrinks by what was appended. */
  lemma Progress(total: string, done: string, text: string, after: string)
    requires total == done + (text + after)
    ensures total == (done + text) + after
  {}

  method SerializeArray(lib: Lib, items: seq<Value>, level: nat, out: MemBlock) returns (ok: bool)
    modifies out
    ensures ok <==> AllSerializable(items)
    ensures ok ==> out.contents == old(out.contents) + BodyK(lib, Array(items), level, "")
    decreases items, 0
  {
    hide PrintK, Closing, ItemsK;
    ok := true;
    ghost var total := if AllSerializable(items) then out.contents + BodyK(lib, Array(items), level, "") else "";
    ghost var close := Closing(level, ']', "");
    out.Append("[\n");
    var i := 0;
    assert items[0..] == items;
    while i < |items| && ok
      invariant i <= |items|
      invariant ok ==> AllSerializable(items[..i])
      invariant !ok ==> !AllSerializable(items)
      invariant ok && AllSerializable(items) ==> total == out.contents + ItemsK(lib, items[i..], level + 1, close)
      decreases |items| - i, ok
    {
      ghost var start, comma := out.contents, if i < |items| - 1 then ",\n" else "";
      ok := SerializeValue(lib, items[i], level + 1, out);
      ghost var before := out.contents;
      if i < |items| - 1 { out.Append(",\n"); }
      assert out.contents == before + comma;
      if ok {
        assert items[..i + 1] == items[..i] + [items[i]];
        if AllSerializable(items) {
          assert items[i..][1..] == items[i + 1..];
          ItemsStep(lib, items[i..], level + 1, close);
          Progress(total, start, PrintK(lib, items[i], level + 1, ""), comma + ItemsK(lib, items[i + 1..], level + 1, close));
          Progress(total, before, comma, ItemsK(lib, items[i + 1..], level + 1, close));
        }
        i := i + 1;
      } else {
        assert !Serializable(items[i]);
      }
    }
    if ok {
      assert items[i..] == [];
      NoItems(lib, items[i..], level + 1, close);
      assert items[..i] == items;
      ClosingParts(out.contents, level, ']');
      out.Append("\n");
      Indent(level, out);
      out.Append("]");
    }
  }

  lemma ClosingParts(start: string, level: nat, c: char)
    ensures start + Closing(level, c, "") == ((start + "\n") + Spaces(2 * level)) + [c]
  {
    assert Closing(level, c, "") == ("\n" + Spaces(2 * level)) + [c];
  }

  lemma NoItems(lib: Lib, items: seq<Value>, level: nat, k: string)
    requires items == []
    ensures ItemsK(lib, items, level, k) == k
  {}

  lemma ItemsStep(lib: Lib, items: seq<Value>, level: nat, k: string)
    requires AllSerializable(items) && items != []
    ensures ItemsK(lib, items, level, k) == PrintK(lib, items[0], level, "")
              + ((if |items| > 1 then ",\n" else "") + ItemsK(lib, items[1..], level, k))
  {
    hide PrintK;
    var rest := ItemsK(lib, items[1..], level, k);
    PrintThen(lib, items[0], level, if |items| > 1 then ",\n" + rest else k);
    assert "" + k == k;
  }

  method SerializeStructMember(lib: Lib, m: Member, level: nat, out: MemBlock) returns (ok: bool)
    modifies out
    ensures ok <==> Serializable(m.value)
    ensures ok ==> out.contents == old(out.contents) + MemberK(lib, m, level, "")
    decreases m, 0
  {
    hide PrintK, Escape;
    ghost var start := out.contents;
    Indent(level, out);
    SerializeString(m.key, out);
    out.Append(":");
    ok := SerializeValue(lib, m.value, level, out);
    if ok {
      var value := PrintK(lib, m.value, level, "");
      assert (Quoted(Escape(m.key), "") + ":") + value == Quoted(Escape(m.key), ":" + value) by {
        QuotedThen(Escape(m.key), "", ":" + value);
        assert "" + (":" + value) == ":" + value;
      }
      MemberParts(start, Spaces(2 * level), Quoted(Escape(m.key), ""), value);
    }
  }

  lemma MemberParts(start: string, blanks: string, key: string, value: string)
    ensures (((start + blanks) + key) + ":") + value == start + (blanks + ((key + ":") + value))
  {}

  method SerializeStruct(lib: Lib, members: seq<Member>, level: nat, out: MemBlock) returns (ok: bool)
    modifies out
    ensures ok <==> MembersSerializable(members)
    ensures ok ==> out.contents == old(out.contents) + BodyK(lib, Struct(members), level, "")
    decreases members, 0
  {
    hide PrintK, Closing, MembersK, MemberK;
    ok := true;
    ghost var total := if MembersSerializable(members) then out.contents + BodyK(lib, Struct(members), level, "") else "";
    ghost var close := Closing(level, '}', "");
    out.Append("{\n");
    var i := 0;
    assert members[0..] == members;
    while i < |members| && ok
      invariant i <= |members|
      invariant ok ==> MembersSerializable(members[..i])
      invariant !ok ==> !MembersSerializable(members)
      invariant ok && MembersSerializable(members) ==> total == out.contents + MembersK(lib, members[i..], level + 1, close)
      decreases |members| - i, ok
    {
      ok := SerializeStructMember(lib, members[i], level + 1, out);
      if ok {
        if i < |members| - 1 { out.Append(",\n"); }
        assert members[..i + 1] == members[..i] + [members[i]];
        if MembersSerializable(members) {
          MembersStep(lib, members[i..], level + 1, close);
          assert members[i..][1..] == members[i + 1..];
        }
        i := i + 1;
      } else {
        assert !Serializable(members[i].value);
      }
    }
    if ok {
      assert members[i..] == [];
      NoMembers(lib, members[i..], level + 1, close);
      assert members[..i] == members;
      ClosingParts(out.contents, level, '}');
      out.Append("\n");
      Indent(level, out);
      out.Append("}");
    }
  }

  lemma NoMembers(lib: Lib, members: seq<Member>, level: nat, k: string)
    requires members == []
    ensures MembersK(lib, members, level, k) == k
  {}

  lemma MembersStep(lib: Lib, members: seq<Member>, level: nat, k: string)
    requires MembersSerializable(members) && members != []
    ensures MembersK(lib, members, level, k) == MemberK(lib, members[0], level, "")
              + ((if |members| > 1 then ",\n" else "") + MembersK(lib, members[1..], level, k))
  {
    hide MemberK;
    var rest := MembersK(lib, members[1..], level, k);
    MemberThen(lib, members[0], level, if |members| > 1 then ",\n" + rest else k);
    assert "" + k == k;
  }
}
