/** Parsing what the JSON printer prints. */
module JsonRoundTrip {
  import opened Text
  import opened Base64Text
  import opened Values
  import opened JsonLexer
  import opened JsonStrings
  import opened JsonGrammar
  import opened JsonPrinter
  import opened Datetimes

  /** The shape of printf's "%e": a sign, digits and a point, then `e` and the
      exponent. */
  ghost predicate ExponentForm(t: string) {
    exists n :: 1 <= n < |t| && t[n] == 'e' && (forall i :: 0 <= i < n ==> IsDigit(t[i]) || t[i] in {'-', '.'})
  }

  /** Text that a JSON string holds unescaped. */
  ghost predicate Plain(s: string) {
    forall i :: 0 <= i < |s| ==> s[i] != '"' && s[i] != '\\' && s[i] != '\0'
  }

  ghost predicate LibOk(lib: Lib) { forall d :: ExponentForm(lib.formatE(d)) }

  lemma EncodedIsPlain(b: string)
    ensures Plain(Encode64(b))
  {
    hide Encode64;
    var s := Encode64(b);
    forall i | 0 <= i < |s| ensures s[i] != '"' && s[i] != '\\' && s[i] != '\0' { EncodedChars(b, s[i]); }
  }

  /** What JSON text keeps of a value: integers become I8, and datetimes and byte
      strings become the strings that were printed for them. */
  function Normal(v: Value): Value
    decreases v, 0
  {
    match v
    case Int(i) => I8(i)
    case DateTime(dt) => Str(SecondsText(dt))
    case Base64(bytes) => Str(Encode64(bytes))
    case Array(items) => Array(NormalItems(items))
    case Struct(members) => Struct(NormalMembers(members))
    case _ => v
  }

  function NormalItems(items: seq<Value>): (ns: seq<Value>)
    ensures |ns| == |items|
    decreases items, 0
  {
    if items == [] then [] else [Normal(items[0])] + NormalItems(items[1..])
  }

  function NormalMembers(members: seq<Member>): (ns: seq<Member>)
    ensures |ns| == |members|
    ensures forall i :: 0 <= i < |ns| ==> ns[i].key == members[i].key
    decreases members, 0
  {
    if members == [] then []
    else [Member(members[0].key, Normal(members[0].value))] + NormalMembers(members[1..])
  }

  // ---------------------------------------------------------------------
  // Tokens of printed text

  ghost predicate AllSpace(b: string) { forall i :: 0 <= i < |b| ==> IsSpace(b[i]) }

  /** `k` cannot extend a word token. */
  predicate Delimits(k: string) { k == "" || !IsWordChar(k[0]) }

  lemma {:induction false} BlankSkipped(b: string, r: string)
    requires AllSpace(b)
    ensures BlankLen(b + r) == |b| + BlankLen(r)
  {
    if b == "" {
      assert b + r == r;
    } else {
      BlankSkipped(b[1..], r);
      assert (b + r)[1..] == b[1..] + r;
    }
  }

  lemma NextSkips(b: string, r: string)
    requires AllSpace(b)
    ensures Next(b + r) == Next(r)
  {
    hide TokenAt, BlankLen;
    BlankSkipped(b, r);
    var n := BlankLen(r);
    assert (b + r)[|b| + n..] == r[n..];
    if TokenAt(r[n..]).Some? {
      var len := TokenAt(r[n..]).value.1;
      assert (b + r)[|b| + n..|b| + n + len] == r[n..n + len];
      assert (b + r)[|b| + n + len..] == r[n + len..];
    }
  }

  lemma ParseSkips(b: string, r: string)
    requires AllSpace(b)
    ensures ParseNext(b + r) == ParseNext(r)
  {
    NextSkips(b, r);
  }

  /** The text starts with a token, or a bad one, that begins a value. */
  predicate StartsValue(r: string) {
    Next(r).Step? ==> Next(r).typ != Eof && Next(r).typ != CloseBracket
  }

  /** A token at the very front of `t`. */
  lemma NextAt(t: string, typ: TokenType, len: nat)
    requires TokenAt(t) == Some((typ, len)) && len <= |t|
    requires t != "" && !IsSpace(t[0]) && t[0] != '/'
    ensures Next(t) == Step(typ, t[..len], t[len..])
  {
    assert t[0..] == t;
  }

  lemma NextDelimiter(c: char, r: string)
    requires DelimiterType(c).Some?
    ensures Next([c] + r) == Step(DelimiterType(c).value, [c], r)
  {
    var t := [c] + r;
    NextAt(t, DelimiterType(c).value, 1);
    assert t[..1] == [c] && t[1..] == r;
  }

  lemma {:induction false} WordEnds(w: string, r: string)
    requires (forall i :: 0 <= i < |w| ==> IsWordChar(w[i])) && Delimits(r)
    ensures WordLen(w + r) == |w|
  {
    if w == "" {
      assert w + r == r;
    } else {
      WordEnds(w[1..], r);
      assert (w + r)[1..] == w[1..] + r;
    }
  }

  lemma NextWord(w: string, typ: TokenType, r: string)
    requires w != "" && (forall i :: 0 <= i < |w| ==> IsWordChar(w[i])) && Delimits(r)
    requires WordType(w) == Some(typ)
    ensures Next(w + r) == Step(typ, w, r)
  {
    hide WordType, WordLen, BodyLen, Next;
    var t := w + r;
    WordEnds(w, r);
    assert t[..|w|] == w && t[|w|..] == r;
    assert t[0] == w[0];
    NextAt(t, typ, |w|);
  }

  lemma NextString(body: string, r: string)
    requires BodyLen(body + ("\"" + r)) == Some(|body|)
    ensures Next(Quoted(body, r)) == Step(StringToken, "\"" + body + "\"", r)
    ensures StringValue("\"" + body + "\"") == Unescape(body)
  {
    hide Next, BodyLen, Unescape;
    var t := Quoted(body, r);
    assert t[1..] == body + ("\"" + r);
    NextAt(t, StringToken, |body| + 2);
    assert t[..|body| + 2] == "\"" + body + "\"";
    assert t[|body| + 2..] == r;
    assert ("\"" + body + "\"")[1..|body| + 1] == body;
  }

  lemma {:induction false} PlainReadsBack(s: string, r: string)
    requires Plain(s)
    ensures BodyLen(s + ("\"" + r)) == Some(|s|)
    ensures Unescape(s) == Some(s)
  {
    var t := s + ("\"" + r);
    if s == "" {
      assert t == "\"" + r;
    } else {
      PlainReadsBack(s[1..], r);
      assert t[1..] == s[1..] + ("\"" + r);
      assert [s[0]] + s[1..] == s;
    }
  }

  lemma SignedIsIntegerWord(n: int)
    ensures (forall i :: 0 <= i < |Signed(n)| ==> IsWordChar(Signed(n)[i])) && IsIntegerWord(Signed(n))
  {
    if n < 0 {
      assert Signed(n)[1..] == Decimal(-n);
    }
  }

  lemma ReadsBackNumber(n: int, k: string)
    requires INT64_MIN <= n <= INT64_MAX && Delimits(k)
    ensures Next(Signed(n) + k) == Step(Integer, Signed(n), k)
    ensures ParseNext(Signed(n) + k) == Done(I8(n), k)
  {
    SignedIsIntegerWord(n);
    hide Next, ParseInt64, Signed, IsIntegerWord;
    NextWord(Signed(n), Integer, k);
    SignedRoundTrip(n);
  }

  lemma NotPrefix(w: string, keyword: string)
    requires w != "" && keyword != "" && w[0] != keyword[0]
    ensures !(w <= keyword)
  {}

  lemma NotANumber(w: string)
    requires w != "" && IsAlpha(w[0])
    ensures !IsIntegerWord(w) && !IsFloatWord(w)
  {
    assert Magnitude(w) == w;
  }

  function KeywordType(w: string): TokenType {
    if w == "null" then Null else if w == "true" then True else False
  }

  lemma KeywordIsTyped(w: string)
    requires w in {"true", "false", "null"}
    ensures WordType(w) == Some(KeywordType(w))
    ensures forall i :: 0 <= i < |w| ==> IsWordChar(w[i])
  {
    hide IsIntegerWord, IsFloatWord;
    NotANumber(w);
    if w == "true" {
      NotPrefix(w, "null");
      NotPrefix(w, "undefined");
      NotPrefix(w, "false");
    } else if w == "false" {
      NotPrefix(w, "null");
      NotPrefix(w, "undefined");
    }
  }

  lemma ReadsBackWord(w: string, k: string)
    requires w in {"true", "false", "null"} && Delimits(k)
    ensures ParseNext(w + k) == Done(if w == "null" then Nil else Bool(w == "true"), k)
    ensures StartsValue(w + k)
  {
    hide Next, WordType;
    KeywordIsTyped(w);
    NextWord(w, KeywordType(w), k);
  }

  lemma ReadsBackString(body: string, s: string, k: string)
    requires BodyLen(body + ("\"" + k)) == Some(|body|) && Unescape(body) == Some(s)
    ensures ParseNext(Quoted(body, k)) == Done(Str(s), k)
    ensures Next(Quoted(body, k)).Step? && Next(Quoted(body, k)).typ == StringToken
  {
    NextString(body, k);
  }

  lemma DatetimePlain(dt: Datetime)
    ensures Plain(SecondsText(dt))
  {
    hide Decimal, Pad2;
    DigitsPlain(Decimal(dt.Y));
    Pad2Plain(dt.M);
    Pad2Plain(dt.D);
    Pad2Plain(dt.h);
    Pad2Plain(dt.m);
    Pad2Plain(dt.s);
  }

  lemma DigitsPlain(s: string)
    requires AllDigits(s)
    ensures Plain(s)
  {}

  lemma Pad2Plain(n: nat)
    ensures Plain(Pad2(n))
  {
    DigitsPlain(Decimal(n));
  }

  /** A word with an `e` after a digit or a minus sign is no number, nor the start
      of a keyword. */
  lemma ExponentWord(w: string, n: nat)
    requires 1 <= n < |w| && w[n] == 'e' && (IsDigit(w[0]) || w[0] in {'-', '.'})
    ensures WordType(w).None?
  {
    var m := Magnitude(w);
    assert m == w || (m == w[1..] && m[n - 1] == 'e');
    NotPrefix(w, "null");
    NotPrefix(w, "undefined");
    NotPrefix(w, "false");
    NotPrefix(w, "true");
  }

  /** No "%e" text is a JSON number for this tokenizer. */
  lemma ExponentIsNoToken(t: string, k: string)
    requires ExponentForm(t)
    ensures Next(t + k) == NoToken
  {
    var n :| 1 <= n < |t| && t[n] == 'e' && (forall i :: 0 <= i < n ==> IsDigit(t[i]) || t[i] in {'-', '.'});
    hide WordType, WordLen, Next;
    var s := t + k;
    var w := s[..WordLen(s)];
    WordReaches(s, n);
    assert w[n] == 'e' && w[0] == t[0];
    ExponentWord(w, n);
    NoWordToken(s);
  }

  lemma NoWordToken(s: string)
    requires s != "" && IsWordChar(s[0]) && WordType(s[..WordLen(s)]).None?
    ensures Next(s) == NoToken
  {
    hide WordType, WordLen, BodyLen;
    assert s[0..] == s;
  }

  lemma WordReaches(s: string, n: nat)
    requires n < |s| && forall i :: 0 <= i <= n ==> IsWordChar(s[i])
    ensures WordLen(s) > n
  {}

  // ---------------------------------------------------------------------
  // The round trip

  ghost predicate ItemsDoubleFree(items: seq<Value>) { forall x :: x in items ==> DoubleFree(x) }

  ghost predicate MembersDoubleFree(members: seq<Member>) { forall m :: m in members ==> DoubleFree(m.value) }

  /** What parsing the text of `v` followed by `k` must give. */
  ghost function Expected(v: Value, k: string): Parsed {
    if DoubleFree(v) then Done(Normal(v), k) else Failed
  }

  lemma {:induction false} ValueReadsBack(lib: Lib, v: Value, level: nat, k: string)
    requires LibOk(lib) && Serializable(v) && KeysDistinct(v) && Delimits(k)
    ensures ParseNext(PrintK(lib, v, level, k)) == Expected(v, k)
    ensures StartsValue(PrintK(lib, v, level, k))
    decreases v, 1
  {
    var body := BodyK(lib, v, level, k);
    NextSkips(Spaces(2 * level), body);
    ParseSkips(Spaces(2 * level), body);
    match v
    case Int(i) => ReadsBackNumber(i, k);
    case I8(i) => ReadsBackNumber(i, k);
    case Bool(b) => ReadsBackWord(if b then "true" else "false", k);
    case Double(d) => ExponentIsNoToken(lib.formatE(d), k);
    case DateTime(dt) =>
      DatetimePlain(dt);
      PlainReadsBack(SecondsText(dt), k);
      ReadsBackString(SecondsText(dt), SecondsText(dt), k);
    case Str(s) =>
      EscapeRoundTrip(s);
      EscapeScans(s, k);
      ReadsBackString(Escape(s), s, k);
    case Base64(bytes) =>
      EncodedIsPlain(bytes);
      PlainReadsBack(Encode64(bytes), k);
      ReadsBackString(Encode64(bytes), Encode64(bytes), k);
    case Array(items) => ArrayReadsBack(lib, items, level, k);
    case Struct(members) => StructReadsBack(lib, members, level, k);
    case Nil => ReadsBackWord("null", k);
  }

  lemma NextClosing(level: nat, c: char, k: string)
    requires DelimiterType(c).Some?
    ensures Next(Closing(level, c, k)) == Step(DelimiterType(c).value, [c], k)
    ensures Delimits(Closing(level, c, k))
  {
    hide Next, Spaces;
    NextSkips("\n", Spaces(2 * level) + ([c] + k));
    NextSkips(Spaces(2 * level), [c] + k);
    NextDelimiter(c, k);
  }

  lemma {:induction false} ArrayReadsBack(lib: Lib, items: seq<Value>, level: nat, k: string)
    requires LibOk(lib) && Serializable(Array(items)) && KeysDistinct(Array(items)) && Delimits(k)
    ensures ParseNext(BodyK(lib, Array(items), level, k)) == Expected(Array(items), k)
    ensures StartsValue(BodyK(lib, Array(items), level, k))
    decreases items, 1
  {
    hide Next, Closing, ItemsK, ParseItems, NormalItems;
    var r := ItemsK(lib, items, level + 1, Closing(level, ']', k));
    OpenBody('[', r);
    ItemsReadBack(lib, items, level + 1, level, k, []);
    assert BodyK(lib, Array(items), level, k) == "[\n" + r;
    assert [] + NormalItems(items) == NormalItems(items);
  }

  lemma OpenBody(c: char, r: string)
    requires c == '[' || c == '{'
    ensures Next([c, '\n'] + r) == Step(DelimiterType(c).value, [c], "\n" + r)
    ensures Next("\n" + r) == Next(r)
    ensures ParseItems("\n" + r, []) == ParseItems(r, [])
    ensures ParseMembers("\n" + r, []) == ParseMembers(r, [])
  {
    hide Next;
    NextDelimiter(c, "\n" + r);
    assert [c, '\n'] + r == [c] + ("\n" + r);
    NextSkips("\n", r);
  }

  lemma AfterComma(r: string)
    ensures Delimits(",\n" + r)
    ensures forall done :: AfterItem(",\n" + r, done) == ParseItems(r, done)
    ensures forall done :: AfterMember(",\n" + r, done) == ParseMembers(r, done)
  {
    hide Next;
    NextDelimiter(',', "\n" + r);
    assert ",\n" + r == [','] + ("\n" + r);
    NextSkips("\n", r);
  }

  lemma FirstItem(r: string, done: seq<Value>)
    requires StartsValue(r)
    ensures ParseItems(r, done) ==
      if ParseNext(r).Failed? then Failed else AfterItem(ParseNext(r).rest, done + [ParseNext(r).value])
  {
    hide Next;
  }

  lemma {:induction false} ItemsReadBack(lib: Lib, items: seq<Value>, level: nat, outer: nat, k: string, done: seq<Value>)
    requires LibOk(lib) && Delimits(k)
    requires forall x :: x in items ==> Serializable(x) && KeysDistinct(x)
    ensures ParseItems(ItemsK(lib, items, level, Closing(outer, ']', k)), done)
              == if ItemsDoubleFree(items) then Done(Array(done + NormalItems(items)), k) else Failed
    decreases items, 0
  {
    hide Next, Closing, PrintK, Normal, ParseNext, DoubleFree;
    var close := Closing(outer, ']', k);
    NextClosing(outer, ']', k);
    if items == [] {
      assert done + NormalItems(items) == done;
    } else {
      var item, rest := items[0], items[1..];
      var n := Normal(item);
      var more := ItemsK(lib, rest, level, close);
      var after := if |items| == 1 then close else ",\n" + more;
      AfterComma(more);
      ValueReadsBack(lib, item, level, after);
      FirstItem(PrintK(lib, item, level, after), done);
      hide ParseItems;
      assert ItemsDoubleFree(items) <==> DoubleFree(item) && ItemsDoubleFree(rest);
      AppendOne(done, n, NormalItems(rest));
      if |items| > 1 {
        ItemsReadBack(lib, rest, level, outer, k, done + [n]);
      } else {
        assert (done + [n]) + NormalItems(rest) == done + [n];
      }
    }
  }

  lemma {:induction false} StructReadsBack(lib: Lib, members: seq<Member>, level: nat, k: string)
    requires LibOk(lib) && Serializable(Struct(members)) && KeysDistinct(Struct(members)) && Delimits(k)
    ensures ParseNext(BodyK(lib, Struct(members), level, k)) == Expected(Struct(members), k)
    ensures StartsValue(BodyK(lib, Struct(members), level, k))
    decreases members, 1
  {
    hide Next, Closing, MembersK, ParseMembers, NormalMembers;
    var r := MembersK(lib, members, level + 1, Closing(level, '}', k));
    OpenBody('{', r);
    assert [] + members == members;
    MembersReadBack(lib, members, level + 1, level, k, []);
    hide DistinctKeys, Serializable;
    assert BodyK(lib, Struct(members), level, k) == "{\n" + r;
    assert [] + NormalMembers(members) == NormalMembers(members);
  }

  lemma MemberReadsBack(lib: Lib, m: Member, level: nat, k: string)
    requires LibOk(lib) && Serializable(m.value) && KeysDistinct(m.value) && Delimits(k)
    ensures Next(MemberK(lib, m, level, k)).Step? && Next(MemberK(lib, m, level, k)).typ == StringToken
    ensures StringValue(Next(MemberK(lib, m, level, k)).text) == Some(m.key)
    ensures ParseMemberValue(Next(MemberK(lib, m, level, k)).rest) == Expected(m.value, k)
    decreases m, 2
  {
    hide Next, PrintK, Unescape, BodyLen;
    var value := PrintK(lib, m.value, level, k);
    var r := ":" + value;
    NextSkips(Spaces(2 * level), Quoted(Escape(m.key), r));
    EscapeRoundTrip(m.key);
    EscapeScans(m.key, r);
    NextString(Escape(m.key), r);
    NextDelimiter(':', value);
    ValueReadsBack(lib, m.value, level, k);
  }

  lemma FirstMember(r: string, done: seq<Member>, key: string)
    requires Next(r).Step? && Next(r).typ == StringToken && StringValue(Next(r).text) == Some(key)
    ensures ParseMembers(r, done) ==
      var p := ParseMemberValue(Next(r).rest);
      if p.Failed? then Failed else AfterMember(p.rest, SetMember(done, key, p.value))
  {
    hide Next;
  }

  lemma {:induction false} MembersReadBack(lib: Lib, members: seq<Member>, level: nat, outer: nat, k: string, done: seq<Member>)
    requires LibOk(lib) && Delimits(k)
    requires forall m :: m in members ==> Serializable(m.value) && KeysDistinct(m.value)
    requires DistinctKeys(done + members)
    ensures ParseMembers(MembersK(lib, members, level, Closing(outer, '}', k)), done)
              == if MembersDoubleFree(members) then Done(Struct(done + NormalMembers(members)), k) else Failed
    decreases members, 0
  {
    hide Next, Closing, MemberK, Normal, ParseMemberValue, DoubleFree, StringValue;
    var close := Closing(outer, '}', k);
    NextClosing(outer, '}', k);
    if members == [] {
      assert done + NormalMembers(members) == done;
    } else {
      var m, rest := members[0], members[1..];
      var n := Member(m.key, Normal(m.value));
      var more := MembersK(lib, rest, level, close);
      var after := if |members| == 1 then close else ",\n" + more;
      AfterComma(more);
      MemberReadsBack(lib, m, level, after);
      FirstMember(MemberK(lib, m, level, after), done, m.key);
      KeysStayDistinct(done, members, n);
      hide ParseMembers, SetMember;
      assert MembersDoubleFree(members) <==> DoubleFree(m.value) && MembersDoubleFree(rest);
      AppendOne(done, n, NormalMembers(rest));
      if |members| > 1 {
        MembersReadBack(lib, rest, level, outer, k, done + [n]);
      } else {
        assert (done + [n]) + NormalMembers(rest) == done + [n];
      }
    }
  }

  lemma KeysStayDistinct(done: seq<Member>, members: seq<Member>, m: Member)
    requires members != [] && m.key == members[0].key && DistinctKeys(done + members)
    ensures SetMember(done, m.key, m.value) == done + [m]
    ensures DistinctKeys(done + [m] + members[1..])
  {
    var all := done + members;
    var all' := done + [m] + members[1..];
    assert |all| == |all'|;
    forall i | 0 <= i < |all| ensures all'[i].key == all[i].key {
      if i > |done| { assert all'[i] == members[1..][i - |done| - 1] == members[i - |done|] == all[i]; }
    }
    forall i | 0 <= i < |done| ensures done[i].key != m.key {
      assert all[i] == done[i] && all[|done|] == members[0];
    }
    SetNewMember(done, m.key, m.value);
  }

  /** Parsing the JSON text of any value that can be printed gives the value back,
      normalised, with its members in order; unless it holds a double anywhere,
      and then parsing always fails. */
  lemma JsonRoundTrip(lib: Lib, v: Value)
    requires LibOk(lib) && Serializable(v) && KeysDistinct(v)
    ensures ParseJson(Print(lib, v)) == if DoubleFree(v) then Ok(Normal(v)) else Fault(ParseError)
  {
    ValueReadsBack(lib, v, 0, "");
    assert BlankLen("") == 0;
    assert Next("").Step? && Next("").typ == Eof;
  }

  /** What JSON has a form of its own for: no 32-bit integer, datetime or byte string. */
  ghost predicate JsonStable(v: Value)
    decreases v
  {
    match v
    case Array(items) => forall x :: x in items ==> JsonStable(x)
    case Struct(members) => forall m :: m in members ==> JsonStable(m.value)
    case Int(_) => false
    case DateTime(_) => false
    case Base64(_) => false
    case _ => true
  }

  /** Exactly those values come back as they were. */
  lemma {:induction false} SameIffStable(v: Value)
    ensures Normal(v) == v <==> JsonStable(v)
    decreases v, 1
  {
    match v
    case Array(items) => ItemsSame(items);
    case Struct(members) => MembersSame(members);
    case _ =>
  }

  lemma {:induction false} ItemsSame(items: seq<Value>)
    ensures NormalItems(items) == items <==> forall x :: x in items ==> JsonStable(x)
    decreases items, 0
  {
    hide JsonStable, Normal;
    if items != [] {
      HeadAndTail(items);
      SameIffStable(items[0]);
      ItemsSame(items[1..]);
      assert items == [items[0]] + items[1..];
      assert NormalItems(items)[0] == Normal(items[0]) && NormalItems(items)[1..] == NormalItems(items[1..]);
    }
  }

  lemma {:induction false} MembersSame(members: seq<Member>)
    ensures NormalMembers(members) == members <==> forall m :: m in members ==> JsonStable(m.value)
    decreases members, 0
  {
    hide JsonStable, Normal;
    if members != [] {
      HeadAndTail(members);
      SameIffStable(members[0].value);
      MembersSame(members[1..]);
      var ns := NormalMembers(members);
      assert members == [members[0]] + members[1..];
      assert ns[0] == Member(members[0].key, Normal(members[0].value)) && ns[1..] == NormalMembers(members[1..]);
    }
  }
}
