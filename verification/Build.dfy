/** Building a value from a format string and arguments, as xmlrpc-c/src/xmlrpc_build.c
does it, and how decomposing undoes it. Values are trees here; module Builder makes them in
memory, where references are counted. */
module Build {
  import opened Text
  import opened Utf8Text
  import opened Values
  import opened Lines
  import opened JsonLexer
  import opened Formats
  import opened Decompose

  /** An argument after the format string. */
  datatype Given =
    | Number(v: Value)      // an int, bool, double, 64-bit int, time or C pointer
    | Chars(text: string)   // the memory a char pointer points to
    | Size(n: nat)
    | Whole(v: Value)       // an xmlrpc_value

  /** Constructors whose bodies are not part of this model: for Unix times ('t') and C
      pointers ('p'); for datetime strings ('8') and wide strings ('w'). */
  datatype Makers = Makers(plain: (char, Value) -> Result<Scalar>, text: (char, string) -> Result<Scalar>)

  datatype Built = Refused(code: FaultCode) | Ready(value: Value, format: string, args: seq<Given>)

  /** strlen() of what a pointer points to. */
  function UpToNul(s: string): (n: nat)
    ensures n <= |s| && '\0' !in s[..n]
    ensures n < |s| ==> s[n] == '\0'
  {
    if s == "" || s[0] == '\0' then 0 else 1 + UpToNul(s[1..])
  }

  /** The text of a string argument, by its size argument or up to NUL. An argument that
      is not there, or shorter than its size, counts as a fault. */
  function TextGiven(args: seq<Given>, sized: bool): Option<string> {
    if args == [] || !args[0].Chars? then None
    else if !sized then Some(args[0].text[..UpToNul(args[0].text)])
    else if |args| > 1 && args[1].Size? && args[1].n <= |args[0].text| then Some(args[0].text[..args[1].n])
    else None
  }

  function MakePlain(mk: Makers, kind: char, v: Value): Result<Scalar> {
    if kind == 'i' then if v.Int? then Ok(v) else Fault(InternalError)
    else if kind == 'b' then if v.Bool? then Ok(v) else Fault(InternalError)
    else if kind == 'd' then if v.Double? then Ok(v) else Fault(InternalError)
    else if kind == 'I' then if v.I8? then Ok(v) else Fault(InternalError)
    else mk.plain(kind, v)
  }

  /** xmlrpc_string_new_lp() and its like for wide strings. */
  function MakeText(mk: Makers, kind: char, text: string): Result<Scalar> {
    if kind != 's' then mk.text(kind, text)
    else if ValidUtf8(text) then Ok(Str(Normalise(text)))
    else Fault(InvalidUtf8)
  }

  function Finish(v: Result<Scalar>, format: string, args: seq<Given>): Built {
    if v.Ok? then Ready(v.value, format, args) else Refused(v.code)
  }

  /** getValue(): the value that the front of `format` describes. */
  function BuildValue(mk: Makers, format: string, args: seq<Given>): (b: Built)
    ensures b.Ready? ==> |b.format| < |format|
    decreases |format|, 1
  {
    if Peek(format) == '\0' then Refused(InternalError)
    else
      var c, rest := format[0], format[1..];
      if c == 'n' then Ready(Nil, rest, args)
      else if c == '(' then BuildItems(mk, rest, args, [])
      else if c == '{' then BuildMembers(mk, rest, args, [])
      else if args == [] then Refused(InternalError)
      else if c in {'i', 'b', 'd', 'I', 't', 'p'} then
        if args[0].Number? then Finish(MakePlain(mk, c, args[0].v), rest, args[1..]) else Refused(InternalError)
      else if c in {'V', 'A', 'S'} then
        if args[0].Whole? && (c == 'A' ==> args[0].v.Array?) && (c == 'S' ==> args[0].v.Struct?)
        then Ready(args[0].v, rest, args[1..]) else Refused(InternalError)
      else if c == '8' then
        var text := TextGiven(args, false);
        if text.Some? then Finish(mk.text(c, text.value), rest, args[1..]) else Refused(InternalError)
      else if c == '6' then
        var text := TextGiven(args, true);
        if text.Some? then Ready(Base64(text.value), rest, args[2..]) else Refused(InternalError)
      else if IsSizedKind(c) then
        var sized := Peek(rest) == '#';
        var text := TextGiven(args, sized);
        if text.None? then Refused(InternalError)
        else if sized then Finish(MakeText(mk, c, text.value), rest[1..], args[2..])
        else Finish(MakeText(mk, c, text.value), rest, args[1..])
      else Refused(InternalError)
  }

  /** getArray(), after the items `done`. */
  function BuildItems(mk: Makers, format: string, args: seq<Given>, done: seq<Value>): (b: Built)
    ensures b.Ready? ==> |b.format| < |format|
    decreases |format|, 2
  {
    if Peek(format) == ')' then Ready(Array(done), format[1..], args)
    else if Peek(format) == '\0' then Refused(InternalError)
    else match BuildValue(mk, format, args)
      case Refused(c) => Refused(c)
      case Ready(v, f, a) => BuildItems(mk, f, a, done + [v])
  }

  /** Past the comma after a member; the closing brace is left where it is. */
  function AfterMember(format: string): Option<string> {
    if Peek(format) == ',' then Some(format[1..])
    else if Peek(format) == '}' then Some(format)
    else None
  }

  /** getStruct(), after the members `done`. The key is a value too, and has to be a
      string. */
  function BuildMembers(mk: Makers, format: string, args: seq<Given>, done: seq<Member>): (b: Built)
    ensures b.Ready? ==> |b.format| < |format|
    decreases |format|, 2
  {
    if Peek(format) == '}' then Ready(Struct(done), format[1..], args)
    else match BuildValue(mk, format, args)
      case Refused(c) => Refused(c)
      case Ready(key, f1, a1) =>
        if Peek(f1) != ':' then Refused(InternalError)
        else match BuildValue(mk, f1[1..], a1)
          case Refused(c) => Refused(c)
          case Ready(v, f2, a2) =>
            match AfterMember(f2)
            case None => Refused(InternalError)
            case Some(f3) =>
              if !key.Str? then Refused(TypeError)
              else BuildMembers(mk, f3, a2, SetMember(done, key.str, v))
  }

  /** xmlrpc_build_value(): one value and nothing after it. */
  function BuildAll(mk: Makers, format: string, args: seq<Given>): Result<Value> {
    match BuildValue(mk, format, args)
    case Refused(c) => Fault(c)
    case Ready(v, rest, _) => if Peek(rest) == '\0' then Ok(v) else Fault(InternalError)
  }

  // ---------------------------------------------------------------------
  // What decomposing a value stores, with values in place of references

  datatype Stored = PlainV(v: Value) | TextV(text: string) | CountV(n: nat) | WholeV(v: Value)

  datatype OutV = OutV(loc: nat, stored: Stored)

  function LeafV(rd: Readers, kind: char, v: Value): Result<Stored> {
    if kind == 'V' then Ok(WholeV(v))
    else if kind == 'A' then if v.Array? then Ok(WholeV(v)) else Fault(TypeError)
    else if kind == 'S' then if v.Struct? then Ok(WholeV(v)) else Fault(TypeError)
    else if v.Array? || v.Struct? then Fault(TypeError)
    else if kind == '8' then
      match rd.text(kind, v) case Fault(c) => Fault(c) case Ok(text) => Ok(TextV(text))
    else
      match ReadPlain(rd, kind, v) case Fault(c) => Fault(c) case Ok(x) => Ok(PlainV(x))
  }

  function SizeV(sizeLoc: Option<nat>, n: nat): seq<OutV> {
    if sizeLoc.Some? then [OutV(sizeLoc.value, CountV(n))] else []
  }

  function ThenV(a: Result<seq<OutV>>, b: Result<seq<OutV>>): Result<seq<OutV>> {
    if a.Fault? then a else if b.Fault? then b else Ok(a.value + b.value)
  }

  function ReadsV(rd: Readers, v: Value, t: Tree): Result<seq<OutV>>
    decreases t, 0
  {
    match t
    case Ignored => Ok([])
    case NilLeaf => if v.Nil? then Ok([]) else Fault(TypeError)
    case Leaf(kind, loc) =>
      (match LeafV(rd, kind, v) case Fault(c) => Fault(c) case Ok(x) => Ok([OutV(loc, x)]))
    case Sized(kind, loc, sizeLoc) =>
      if v.Array? || v.Struct? then Fault(TypeError)
      else
        (match ReadText(rd, kind, sizeLoc.Some?, v)
         case Fault(c) => Fault(c)
         case Ok(text) => Ok([OutV(loc, TextV(text))] + SizeV(sizeLoc, |text|)))
    case Bytes(loc, countLoc) =>
      if !v.Base64? then Fault(TypeError)
      else Ok([OutV(loc, TextV(v.bytes))] + SizeV(Some(countLoc), |v.bytes|))
    case ArrayOf(items, ignoreExcess) =>
      if !v.Array? then Fault(TypeError)
      else if |items| > |v.items| || (|items| < |v.items| && !ignoreExcess) then Fault(IndexError)
      else ItemReadsV(rd, v.items[..|items|], items)
    case StructOf(members) =>
      if !v.Struct? then Fault(TypeError) else MemberReadsV(rd, v.members, members)
  }

  function ItemReadsV(rd: Readers, vs: seq<Value>, ts: seq<Tree>): Result<seq<OutV>>
    requires |vs| == |ts|
    decreases ts, 0
  {
    if ts == [] then Ok([])
    else
      var n := |ts| - 1;
      ThenV(ItemReadsV(rd, vs[..n], ts[..n]), ReadsV(rd, vs[n], ts[n]))
  }

  function MemberReadsV(rd: Readers, members: seq<Member>, ms: seq<Mbr>): Result<seq<OutV>>
    decreases ms, 0
  {
    if ms == [] then Ok([])
    else
      var n := |ms| - 1;
      var v := ValueAt(members, ms[n].key);
      ThenV(MemberReadsV(rd, members, ms[..n]), if v.None? then Fault(IndexError) else ReadsV(rd, v.value, ms[n].tree))
  }

  // ---------------------------------------------------------------------
  // Decomposing undoes building

  /** The format that builds what `t` takes apart: a tree's own format, but no asterisks. */
  function BuildK(t: Tree, k: string): string
    decreases t, 0
  {
    match t
    case ArrayOf(items, _) => "(" + BuildItemsK(items, ")" + k)
    case StructOf(members) => "{" + BuildMembersK(members, "}" + k)
    case Sized(kind, _, sizeLoc) => [kind] + (if sizeLoc.Some? then "#" + k else k)
    case Leaf(kind, _) => [kind] + k
    case Bytes(_, _) => "6" + k
    case NilLeaf => "n" + k
    case Ignored => "-" + k
  }

  function BuildItemsK(ts: seq<Tree>, k: string): string
    decreases ts, 0
  {
    if ts == [] then k else BuildK(ts[0], BuildItemsK(ts[1..], k))
  }

  function BuildMembersK(ms: seq<Mbr>, k: string): string
    decreases ms, 0
  {
    if ms == [] then k else "s:" + BuildK(ms[0].tree, "," + BuildMembersK(ms[1..], k))
  }

  /** The list of arguments `t` takes when building, as a list of what is to be stored
      when taking apart, and the arguments left; None if they do not fit `t` or are
      refused by a constructor. A text is stored with its line delimiters normalised. */
  function Taken(mk: Makers, t: Tree, args: seq<Given>): Option<(seq<OutV>, seq<Given>)>
    decreases t, 0
  {
    match t
    case Ignored => None
    case NilLeaf => Some(([], args))
    case Leaf(kind, loc) =>
      if args == [] then None
      else if kind == '8' then
        var text := TextGiven(args, false);
        if text.Some? && mk.text(kind, text.value).Ok? then Some(([OutV(loc, TextV(text.value))], args[1..])) else None
      else if kind in {'V', 'A', 'S'} then
        if args[0].Whole? && (kind == 'A' ==> args[0].v.Array?) && (kind == 'S' ==> args[0].v.Struct?)
        then Some(([OutV(loc, WholeV(args[0].v))], args[1..])) else None
      else if args[0].Number? && MakePlain(mk, kind, args[0].v).Ok?
        then Some(([OutV(loc, PlainV(args[0].v))], args[1..])) else None
    case Sized(kind, loc, sizeLoc) =>
      var text := TextGiven(args, sizeLoc.Some?);
      if text.Some? && MakeText(mk, kind, text.value).Ok? then
        var s := if kind == 's' then Normalise(text.value) else text.value;
        Some(([OutV(loc, TextV(s))] + SizeV(sizeLoc, |s|), if sizeLoc.Some? then args[2..] else args[1..]))
      else None
    case Bytes(loc, countLoc) =>
      var text := TextGiven(args, true);
      if text.Some? then Some(([OutV(loc, TextV(text.value))] + SizeV(Some(countLoc), |text.value|), args[2..])) else None
    case ArrayOf(items, _) => ItemsTaken(mk, items, args)
    case StructOf(members) => MembersTaken(mk, members, args)
  }

  function ItemsTaken(mk: Makers, ts: seq<Tree>, args: seq<Given>): Option<(seq<OutV>, seq<Given>)>
    decreases ts, 0
  {
    if ts == [] then Some(([], args))
    else
      var a := Taken(mk, ts[0], args);
      if a.None? then None
      else
        var b := ItemsTaken(mk, ts[1..], a.value.1);
        if b.None? then None else Some((a.value.0 + b.value.0, b.value.1))
  }

  /** The key a member is looked up by is the text the key argument points to. */
  function MembersTaken(mk: Makers, ms: seq<Mbr>, args: seq<Given>): Option<(seq<OutV>, seq<Given>)>
    decreases ms, 0
  {
    if ms == [] then Some(([], args))
    else if args == [] || args[0] != Chars(ms[0].key) then None
    else
      var a := Taken(mk, ms[0].tree, args[1..]);
      if a.None? then None
      else
        var b := MembersTaken(mk, ms[1..], a.value.1);
        if b.None? then None else Some((a.value.0 + b.value.0, b.value.1))
  }

  /** What each argument makes reads back as that argument. This is in question only for
      the kinds whose constructors and readers are not part of this model. */
  predicate ReadBack(mk: Makers, rd: Readers, t: Tree, args: seq<Given>)
    requires Taken(mk, t, args).Some?
    decreases t, 0
  {
    match t
    case Leaf(kind, _) =>
      if kind == '8' then
        var text := TextGiven(args, false).value;
        rd.text(kind, mk.text(kind, text).value) == Ok(text)
      else if kind in {'V', 'A', 'S', 'i', 'b', 'd', 'I'} then true
      else rd.plain(kind, mk.plain(kind, args[0].v).value) == Ok(args[0].v)
    case Sized(kind, _, sizeLoc) =>
      kind == 's' ||
      var text := TextGiven(args, sizeLoc.Some?).value;
      rd.text('w', mk.text(kind, text).value) == Ok(text)
    case ArrayOf(items, _) => ItemsReadBack(mk, rd, items, args)
    case StructOf(members) => MembersReadBack(mk, rd, members, args)
    case _ => true
  }

  predicate ItemsReadBack(mk: Makers, rd: Readers, ts: seq<Tree>, args: seq<Given>)
    requires ItemsTaken(mk, ts, args).Some?
    decreases ts, 0
  {
    ts == [] || (ReadBack(mk, rd, ts[0], args) && ItemsReadBack(mk, rd, ts[1..], Taken(mk, ts[0], args).value.1))
  }

  predicate MembersReadBack(mk: Makers, rd: Readers, ms: seq<Mbr>, args: seq<Given>)
    requires MembersTaken(mk, ms, args).Some?
    decreases ms, 0
  {
    ms == [] ||
    (ReadBack(mk, rd, ms[0].tree, args[1..]) && MembersReadBack(mk, rd, ms[1..], Taken(mk, ms[0].tree, args[1..]).value.1))
  }

  /** The keys of a struct are distinct C strings of valid UTF-8 without CR. */
  ghost predicate KeysOk(t: Tree)
    decreases t, 0
  {
    match t
    case ArrayOf(items, _) => forall x :: x in items ==> KeysOk(x)
    case StructOf(members) =>
      && (forall i, j :: 0 <= i < j < |members| ==> members[i].key != members[j].key)
      && forall m :: m in members ==> KeyOk(m.key) && KeysOk(m.tree)
    case _ => true
  }

  ghost predicate KeyOk(key: string) { ValidUtf8(key) && CR !in key && '\0' !in key }

  lemma {:induction false} NoNulInside(s: string)
    requires '\0' !in s
    ensures UpToNul(s) == |s|
  {
    if s != "" {
      HeadAndTail(s);
      NoNulInside(s[1..]);
    }
  }

  /** Normalising adds no NUL. */
  lemma {:induction false} NormaliseNoNul(s: string)
    requires '\0' !in s
    ensures '\0' !in Normalise(s)
    decreases |s|
  {
    if s != "" {
      HeadAndTail(s);
      if s[0] != CR { NormaliseNoNul(s[1..]); }
      else if |s| > 1 && s[1] == LF { HeadAndTail(s[1..]); assert s[1..][1..] == s[2..]; NormaliseNoNul(s[2..]); }
      else { NormaliseNoNul(s[1..]); }
    }
  }

  lemma {:induction false} ItemsCons(rd: Readers, v: Value, vs: seq<Value>, t: Tree, ts: seq<Tree>)
    requires |vs| == |ts|
    ensures ItemReadsV(rd, [v] + vs, [t] + ts) == ThenV(ReadsV(rd, v, t), ItemReadsV(rd, vs, ts))
    decreases |ts|
  {
    hide ReadsV;
    if ts == [] {
      assert [v] + vs == [v] && [t] + ts == [t] && [v][..0] == [] && [t][..0] == [];
      assert ItemReadsV(rd, [], []) == Ok([]);
      if ReadsV(rd, v, t).Ok? { assert [] + ReadsV(rd, v, t).value == ReadsV(rd, v, t).value == ReadsV(rd, v, t).value + []; }
    } else {
      var n := |ts| - 1;
      ItemsCons(rd, v, vs[..n], t, ts[..n]);
      assert ([v] + vs)[..n + 1] == [v] + vs[..n] && ([t] + ts)[..n + 1] == [t] + ts[..n];
      ThenAssoc(ReadsV(rd, v, t), ItemReadsV(rd, vs[..n], ts[..n]), ReadsV(rd, vs[n], ts[n]));
    }
  }

  lemma ThenAssoc(a: Result<seq<OutV>>, b: Result<seq<OutV>>, c: Result<seq<OutV>>)
    ensures ThenV(ThenV(a, b), c) == ThenV(a, ThenV(b, c))
  {
    if a.Ok? && b.Ok? && c.Ok? {
      assert (a.value + b.value) + c.value == a.value + (b.value + c.value);
    }
  }

  function Zip(ms: seq<Mbr>, vs: seq<Value>): (members: seq<Member>)
    requires |vs| == |ms|
    ensures |members| == |ms| && forall i :: 0 <= i < |ms| ==> members[i] == Member(ms[i].key, vs[i])
  {
    seq(|ms|, i requires 0 <= i < |ms| => Member(ms[i].key, vs[i]))
  }

  lemma {:induction false} MembersAsItemsV(rd: Readers, all: seq<Member>, ms: seq<Mbr>, vs: seq<Value>)
    requires |vs| == |ms| && forall i :: 0 <= i < |ms| ==> ValueAt(all, ms[i].key) == Some(vs[i])
    ensures MemberReadsV(rd, all, ms) == ItemReadsV(rd, vs, Trees(ms))
    decreases |ms|
  {
    hide ReadsV, ValueAt, ThenV;
    if ms != [] {
      var n := |ms| - 1;
      assert Trees(ms)[..n] == Trees(ms[..n]);
      MembersAsItemsV(rd, all, ms[..n], vs[..n]);
    }
  }

  lemma BuildNotEnd(t: Tree, k: string)
    requires KindsOk(t)
    ensures BuildK(t, k) != "" && Peek(BuildK(t, k)) !in {'\0', ')', '}', '#', ':', ','}
  {
    hide BuildItemsK, BuildMembersK;
  }

  /** As much is stored as wanted, and just what is wanted if and only if `same`. */
  predicate Matches(r: Result<seq<OutV>>, want: seq<OutV>, same: bool) {
    (r.Ok? ==> |r.value| == |want|) && (r == Ok(want) <==> same)
  }

  lemma MatchesThen(a: Result<seq<OutV>>, x: seq<OutV>, p: bool, b: Result<seq<OutV>>, y: seq<OutV>, q: bool)
    requires Matches(a, x, p) && Matches(b, y, q)
    ensures Matches(ThenV(a, b), x + y, p && q)
  {
    if a.Ok? && b.Ok? && a.value + b.value == x + y {
      assert (a.value + b.value)[..|x|] == a.value && (x + y)[..|x|] == x;
      assert (a.value + b.value)[|x|..] == b.value && (x + y)[|x|..] == y;
    }
  }

  /** Building from the format of `t` succeeds and takes its arguments in order. What is
      stored when the value is decomposed along `t` is that same list if and only if each
      argument reads back. */
  ghost predicate Undone(mk: Makers, rd: Readers, t: Tree, k: string, args: seq<Given>)
    requires Taken(mk, t, args).Some?
  {
    var b, taken := BuildValue(mk, BuildK(t, k), args), Taken(mk, t, args).value;
    && b.Ready? && b.format == k && b.args == taken.1
    && Matches(ReadsV(rd, b.value, t), taken.0, ReadBack(mk, rd, t, args))
  }

  lemma LeafUndone(mk: Makers, rd: Readers, t: Tree, k: string, args: seq<Given>)
    requires t.Leaf? && KindsOk(t) && Taken(mk, t, args).Some?
    ensures Undone(mk, rd, t, k, args)
  {
    hide BuildItems, BuildMembers, UpToNul;
    HeadTail(BuildK(t, k), t.kind, k);
  }

  lemma TextSame(loc: nat, sizeLoc: Option<nat>, a: string, b: string)
    ensures Matches(Ok([OutV(loc, TextV(a))] + SizeV(sizeLoc, |a|)), [OutV(loc, TextV(b))] + SizeV(sizeLoc, |b|), a == b)
  {
    var x, y := [OutV(loc, TextV(a))] + SizeV(sizeLoc, |a|), [OutV(loc, TextV(b))] + SizeV(sizeLoc, |b|);
    assert x[0] == OutV(loc, TextV(a)) && y[0] == OutV(loc, TextV(b));
  }

  lemma TextUndone(mk: Makers, rd: Readers, t: Tree, k: string, args: seq<Given>)
    requires (t.Sized? || t.Bytes?) && KindsOk(t) && Taken(mk, t, args).Some? && Peek(k) != '#'
    ensures Undone(mk, rd, t, k, args)
  {
    hide BuildItems, BuildMembers, UpToNul, Normalise, ValidUtf8;
    if t.Bytes? {
      HeadTail(BuildK(t, k), '6', k);
    } else {
      HeadTail(BuildK(t, k), t.kind, if t.sizeLoc.Some? then "#" + k else k);
      HeadTail("#" + k, '#', k);
      var text := TextGiven(args, t.sizeLoc.Some?).value;
      if t.sizeLoc.None? { NormaliseNoNul(text); }
      var v := MakeText(mk, t.kind, text).value;
      var read := ReadText(rd, t.kind, t.sizeLoc.Some?, v);
      if read.Ok? { TextSame(t.loc, t.sizeLoc, read.value, if t.kind == 's' then Normalise(text) else text); }
    }
  }

  /** Decomposing along a tree the value that was built from its format and an argument
      list stores that same list, in the same order, if and only if each argument reads
      back; and building takes exactly that list. */
  lemma {:induction false} DecomposeUndoesBuild(mk: Makers, rd: Readers, t: Tree, k: string, args: seq<Given>)
    requires KindsOk(t) && KeysOk(t) && Peek(k) != '#' && Taken(mk, t, args).Some?
    ensures Undone(mk, rd, t, k, args)
    decreases t, 1
  {
    hide BuildItems, BuildMembers, BuildItemsK, BuildMembersK, ItemReadsV, MemberReadsV, ItemsTaken, MembersTaken,
      ItemsReadBack, MembersReadBack;
    match t
    case Ignored =>
    case NilLeaf => HeadTail(BuildK(t, k), 'n', k);
    case Leaf(_, _) => LeafUndone(mk, rd, t, k, args);
    case Sized(_, _, _) => TextUndone(mk, rd, t, k, args);
    case Bytes(_, _) => TextUndone(mk, rd, t, k, args);
    case ArrayOf(items, _) =>
      HeadTail(BuildK(t, k), '(', BuildItemsK(items, ")" + k));
      var vs := ItemsUndone(mk, rd, items, [], k, args);
      assert [] + vs == vs && vs[..|items|] == vs;
    case StructOf(members) =>
      HeadTail(BuildK(t, k), '{', BuildMembersK(members, "}" + k));
      var vs := MembersUndone(mk, rd, members, [], k, args);
      var all := Zip(members, vs);
      assert [] + all == all;
      forall i | 0 <= i < |members| ensures ValueAt(all, members[i].key) == Some(vs[i]) { ValueAtIndex(all, i); }
      MembersAsItemsV(rd, all, members, vs);
  }

  lemma {:induction false} ItemsUndone(mk: Makers, rd: Readers, ts: seq<Tree>, done: seq<Value>, k: string, args: seq<Given>)
    returns (vs: seq<Value>)
    requires (forall x :: x in ts ==> KindsOk(x) && KeysOk(x)) && ItemsTaken(mk, ts, args).Some?
    ensures var taken := ItemsTaken(mk, ts, args).value;
      && |vs| == |ts| && BuildItems(mk, BuildItemsK(ts, ")" + k), args, done) == Ready(Array(done + vs), k, taken.1)
      && Matches(ItemReadsV(rd, vs, ts), taken.0, ItemsReadBack(mk, rd, ts, args))
    decreases ts, 0
  {
    hide BuildValue, BuildK, Taken, ReadsV, KindsOk, KeysOk, ReadBack, Matches;
    if ts == [] {
      vs := [];
      assert done + vs == done;
      HeadTail(")" + k, ')', k);
      NothingMatches();
    } else {
      HeadAndTail(ts);
      var rest := BuildItemsK(ts[1..], ")" + k);
      if ts[1..] != [] { BuildNotEnd(ts[1], BuildItemsK(ts[1..][1..], ")" + k)); }
      DecomposeUndoesBuild(mk, rd, ts[0], rest, args);
      BuildNotEnd(ts[0], rest);
      var b := BuildValue(mk, BuildK(ts[0], rest), args);
      var more := ItemsUndone(mk, rd, ts[1..], done + [b.value], k, b.args);
      vs := [b.value] + more;
      assert (done + [b.value]) + more == done + vs && [ts[0]] + ts[1..] == ts;
      ItemsCons(rd, b.value, more, ts[0], ts[1..]);
      MatchesThen(ReadsV(rd, b.value, ts[0]), Taken(mk, ts[0], args).value.0, ReadBack(mk, rd, ts[0], args),
        ItemReadsV(rd, more, ts[1..]), ItemsTaken(mk, ts[1..], b.args).value.0, ItemsReadBack(mk, rd, ts[1..], b.args));
    }
  }

  lemma NothingMatches()
    ensures Matches(Ok([]), [], true)
  {}

  /** The key of a member and its colon. */
  lemma KeyBuilt(mk: Makers, key: string, g: string, args: seq<Given>)
    requires KeyOk(key) && args != [] && args[0] == Chars(key)
    ensures BuildValue(mk, "s:" + g, args) == Ready(Str(key), ":" + g, args[1..])
    ensures (":" + g)[1..] == g && Peek(":" + g) == ':' && Peek("s:" + g) == 's'
  {
    hide BuildItems, BuildMembers, UpToNul, Normalise;
    assert ("s:" + g)[1..] == ":" + g;
    NoNulInside(key);
    assert key[..|key|] == key;
    CrFreeStays(key);
  }

  lemma OneMemberBuilt(mk: Makers, key: string, g: string, rest: string, args: seq<Given>, done: seq<Member>)
    requires KeyOk(key) && args != [] && args[0] == Chars(key)
    requires BuildValue(mk, g, args[1..]).Ready? && BuildValue(mk, g, args[1..]).format == "," + rest
    ensures var b := BuildValue(mk, g, args[1..]);
      BuildMembers(mk, "s:" + g, args, done) == BuildMembers(mk, rest, b.args, SetMember(done, key, b.value))
  {
    hide BuildValue, KeyOk, SetMember;
    KeyBuilt(mk, key, g, args);
    HeadTail("," + rest, ',', rest);
  }

  lemma NoMembersBuilt(mk: Makers, rd: Readers, k: string, args: seq<Given>, done: seq<Member>)
    ensures BuildMembers(mk, "}" + k, args, done) == Ready(Struct(done), k, args)
    ensures ItemReadsV(rd, [], []) == Ok([])
  {
    HeadTail("}" + k, '}', k);
  }

  lemma ZipCons(done: seq<Member>, ms: seq<Mbr>, v: Value, vs: seq<Value>)
    requires ms != [] && |vs| == |ms| - 1
    ensures (done + [Member(ms[0].key, v)]) + Zip(ms[1..], vs) == done + Zip(ms, [v] + vs)
    ensures Trees(ms) == [ms[0].tree] + Trees(ms[1..])
  {
    assert Trees(ms) == [ms[0].tree] + Trees(ms[1..]);
    var a, b, c := Zip(ms, [v] + vs), Zip(ms[1..], vs), Member(ms[0].key, v);
    forall i | 0 <= i < |ms| ensures a[i] == ([c] + b)[i] {
      if i > 0 { assert ([v] + vs)[i] == vs[i - 1] && ms[1..][i - 1] == ms[i]; }
    }
    assert a == [c] + b;
    Assoc(done, [c], b);
  }

  lemma KeysApart(done: seq<Member>, ms: seq<Mbr>, v: Value)
    requires ms != [] && forall i, j :: 0 <= i < j < |ms| ==> ms[i].key != ms[j].key
    requires forall d, m :: d in done && m in ms ==> d.key != m.key
    ensures forall d, m :: d in done + [Member(ms[0].key, v)] && m in ms[1..] ==> d.key != m.key
    ensures forall i, j :: 0 <= i < j < |ms[1..]| ==> ms[1..][i].key != ms[1..][j].key
    ensures forall d :: d in done ==> d.key != ms[0].key
  {
    forall d, m | d in done + [Member(ms[0].key, v)] && m in ms[1..] ensures d.key != m.key {
      var j :| 0 <= j < |ms[1..]| && ms[1..][j] == m;
      assert ms[j + 1] == m && m in ms;
    }
  }

  lemma {:induction false} MembersUndone(mk: Makers, rd: Readers, ms: seq<Mbr>, done: seq<Member>, k: string, args: seq<Given>)
    returns (vs: seq<Value>)
    requires forall m :: m in ms ==> KindsOk(m.tree) && KeyOk(m.key) && KeysOk(m.tree)
    requires forall i, j :: 0 <= i < j < |ms| ==> ms[i].key != ms[j].key
    requires forall d, m :: d in done && m in ms ==> d.key != m.key
    requires MembersTaken(mk, ms, args).Some?
    ensures var taken := MembersTaken(mk, ms, args).value;
      && |vs| == |ms|
      && BuildMembers(mk, BuildMembersK(ms, "}" + k), args, done) == Ready(Struct(done + Zip(ms, vs)), k, taken.1)
      && Matches(ItemReadsV(rd, vs, Trees(ms)), taken.0, MembersReadBack(mk, rd, ms, args))
    decreases ms, 0
  {
    hide BuildValue, BuildMembers, BuildK, Taken, ReadsV, KindsOk, KeysOk, KeyOk, SetMember, ItemReadsV, ReadBack, Matches;
    NoMembersBuilt(mk, rd, k, args, done);
    if ms == [] {
      vs := [];
      assert Zip(ms, vs) == [] && done + [] == done && Trees(ms) == [];
      NothingMatches();
    } else {
      var m := ms[0];
      HeadAndTail(ms);
      var rest := BuildMembersK(ms[1..], "}" + k);
      var g := BuildK(m.tree, "," + rest);
      HeadTail("," + rest, ',', rest);
      DecomposeUndoesBuild(mk, rd, m.tree, "," + rest, args[1..]);
      var b := BuildValue(mk, g, args[1..]);
      OneMemberBuilt(mk, m.key, g, rest, args, done);
      KeysApart(done, ms, b.value);
      SetNewMember(done, m.key, b.value);
      var more := MembersUndone(mk, rd, ms[1..], done + [Member(m.key, b.value)], k, b.args);
      vs := [b.value] + more;
      ZipCons(done, ms, b.value, more);
      ItemsCons(rd, b.value, more, m.tree, Trees(ms[1..]));
      MatchesThen(ReadsV(rd, b.value, m.tree), Taken(mk, m.tree, args[1..]).value.0, ReadBack(mk, rd, m.tree, args[1..]),
        ItemReadsV(rd, more, Trees(ms[1..])), MembersTaken(mk, ms[1..], b.args).value.0, MembersReadBack(mk, rd, ms[1..], b.args));
    }
  }
}
