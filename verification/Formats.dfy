/** The format language of xmlrpc-c/src/xmlrpc_decompose.c: a format string and a list
of arguments are compiled into a decomposition tree. */
module Formats {
  import opened Text
  import opened JsonLexer

  /** What to do with a value. Locations are the caller's variables. */
  datatype Tree =
    | Ignored                                            // '-'
    | NilLeaf                                            // 'n'
    | Leaf(kind: char, loc: nat)
    | Sized(kind: char, loc: nat, sizeLoc: Option<nat>)  // 's' and 'w'
    | Bytes(loc: nat, countLoc: nat)                     // '6'
    | ArrayOf(items: seq<Tree>, ignoreExcess: bool)
    | StructOf(members: seq<Mbr>)

  datatype Mbr = Mbr(key: string, tree: Tree)

  /** An argument after the format string. */
  datatype Arg = Loc(loc: nat) | Key(key: string)

  predicate IsLeafKind(c: char) { c in {'i', 'b', 'd', 't', '8', 'I', 'p', 'V', 'A', 'S'} }

  predicate IsSizedKind(c: char) { c in {'s', 'w'} }

  const MAX_ITEMS := 16

  datatype Parsed = Bad | Done(tree: Tree, format: string, args: seq<Arg>)

  /** The branch for the first value that `format` describes. An argument that is not
      there, or is of another kind than the format says, counts as a fault. */
  function ParseTree(format: string, args: seq<Arg>): (p: Parsed)
    ensures p.Done? ==> |p.format| < |format|
    decreases |format|, 1
  {
    if Peek(format) == '\0' then Bad
    else
      var c, rest := format[0], format[1..];
      if c == '-' then Done(Ignored, rest, args)
      else if c == 'n' then Done(NilLeaf, rest, args)
      else if c == '(' then ParseItems(rest, args, [])
      else if c == '{' then ParseMembers(rest, args, [])
      else if args == [] || !args[0].Loc? then Bad
      else if IsLeafKind(c) then Done(Leaf(c, args[0].loc), rest, args[1..])
      else if c == '6' then
        if |args| > 1 && args[1].Loc? then Done(Bytes(args[0].loc, args[1].loc), rest, args[2..]) else Bad
      else if IsSizedKind(c) then
        if Peek(rest) != '#' then Done(Sized(c, args[0].loc, None), rest, args[1..])
        else if |args| > 1 && args[1].Loc? then Done(Sized(c, args[0].loc, Some(args[1].loc)), rest[1..], args[2..])
        else Bad
      else Bad
  }

  /** The items of an array and its closing parenthesis, after the items `done`. */
  function ParseItems(format: string, args: seq<Arg>, done: seq<Tree>): (p: Parsed)
    ensures p.Done? ==> |p.format| < |format|
    decreases |format|, 2
  {
    var c := Peek(format);
    if c == '\0' then Bad
    else if c == ')' then Done(ArrayOf(done, false), format[1..], args)
    else if c == '*' then
      if Peek(format[1..]) == ')' then Done(ArrayOf(done, true), format[2..], args) else Bad
    else if |done| >= MAX_ITEMS then Bad
    else match ParseTree(format, args)
      case Bad => Bad
      case Done(t, f, a) => ParseItems(f, a, done + [t])
  }

  /** Past the comma after a member, if there is one; none is needed before the end. */
  function AfterComma(format: string): Option<string> {
    if Peek(format) in {'\0', '}'} then Some(format)
    else if format[0] == ',' then Some(format[1..])
    else None
  }

  /** The members of a struct and its closing brace, after the members `done`. A struct
      must end in an asterisk. */
  function ParseMembers(format: string, args: seq<Arg>, done: seq<Mbr>): (p: Parsed)
    ensures p.Done? ==> |p.format| < |format|
    decreases |format|, 2
  {
    var c := Peek(format);
    if c == '\0' || c == '}' then Bad
    else if c == '*' then
      if Peek(format[1..]) == '}' then Done(StructOf(done), format[2..], args) else Bad
    else if |done| >= MAX_ITEMS then Bad
    else if c != 's' || Peek(format[1..]) != ':' then Bad
    else if args == [] || !args[0].Key? then Bad
    else match ParseTree(format[2..], args[1..])
      case Bad => Bad
      case Done(t, f, a) =>
        match AfterComma(f)
        case None => Bad
        case Some(f') => ParseMembers(f', a, done + [Mbr(args[0].key, t)])
  }

  /** createDecompTree(): one branch and nothing after it. */
  function Compile(format: string, args: seq<Arg>): Option<Tree> {
    match ParseTree(format, args)
    case Done(t, rest, _) => if Peek(rest) == '\0' then Some(t) else None
    case Bad => None
  }

  // ---------------------------------------------------------------------
  // Printing a tree

  function PrintK(t: Tree, k: string): string
    decreases t, 0
  {
    match t
    case Ignored => "-" + k
    case NilLeaf => "n" + k
    case Leaf(kind, _) => [kind] + k
    case Sized(kind, _, sizeLoc) => [kind] + (if sizeLoc.Some? then "#" + k else k)
    case Bytes(_, _) => "6" + k
    case ArrayOf(items, ignoreExcess) => "(" + ItemsK(items, (if ignoreExcess then "*)" else ")") + k)
    case StructOf(members) => "{" + MembersK(members, "*}" + k)
  }

  function ItemsK(ts: seq<Tree>, k: string): string
    decreases ts, 0
  {
    if ts == [] then k else PrintK(ts[0], ItemsK(ts[1..], k))
  }

  function MembersK(ms: seq<Mbr>, k: string): string
    decreases ms, 0
  {
    if ms == [] then k else "s:" + PrintK(ms[0].tree, "," + MembersK(ms[1..], k))
  }

  /** The arguments a tree's format takes, and then `more`. */
  function ArgsK(t: Tree, more: seq<Arg>): seq<Arg>
    decreases t, 0
  {
    match t
    case Ignored => more
    case NilLeaf => more
    case Leaf(_, loc) => [Loc(loc)] + more
    case Sized(_, loc, sizeLoc) => [Loc(loc)] + (if sizeLoc.Some? then [Loc(sizeLoc.value)] + more else more)
    case Bytes(loc, countLoc) => [Loc(loc)] + ([Loc(countLoc)] + more)
    case ArrayOf(items, _) => ItemArgsK(items, more)
    case StructOf(members) => MemberArgsK(members, more)
  }

  function ItemArgsK(ts: seq<Tree>, more: seq<Arg>): seq<Arg>
    decreases ts, 0
  {
    if ts == [] then more else ArgsK(ts[0], ItemArgsK(ts[1..], more))
  }

  function MemberArgsK(ms: seq<Mbr>, more: seq<Arg>): seq<Arg>
    decreases ms, 0
  {
    if ms == [] then more else [Key(ms[0].key)] + ArgsK(ms[0].tree, MemberArgsK(ms[1..], more))
  }

  /** The kinds are ones that format strings have. */
  ghost predicate KindsOk(t: Tree)
    decreases t, 0
  {
    match t
    case Leaf(kind, _) => IsLeafKind(kind)
    case Sized(kind, _, _) => IsSizedKind(kind)
    case ArrayOf(items, _) => forall x :: x in items ==> KindsOk(x)
    case StructOf(members) => forall m :: m in members ==> KindsOk(m.tree)
    case _ => true
  }

  /** No array or struct has more items than the source's tables. */
  ghost predicate Fits(t: Tree)
    decreases t, 0
  {
    match t
    case ArrayOf(items, _) => |items| <= MAX_ITEMS && forall x :: x in items ==> Fits(x)
    case StructOf(members) => |members| <= MAX_ITEMS && forall m :: m in members ==> Fits(m.tree)
    case _ => true
  }

  ghost predicate AllFit(ts: seq<Tree>) { forall x :: x in ts ==> Fits(x) }

  ghost predicate MembersFit(ms: seq<Mbr>) { forall m :: m in ms ==> Fits(m.tree) }

  lemma HeadTail<T>(s: seq<T>, x: T, rest: seq<T>)
    requires s == [x] + rest
    ensures s != [] && s[0] == x && s[1..] == rest
  {}

  lemma NotEnd(t: Tree, k: string)
    requires KindsOk(t)
    ensures PrintK(t, k) != "" && Peek(PrintK(t, k)) !in {'\0', ')', '*', '}', '#'}
  {
    hide ItemsK, MembersK;
  }

  /** Every tree that fits the source's tables is rebuilt from its printed format and
      arguments, whatever follows either, save that the next specifier is no '#'; one
      that does not fit is refused. */
  lemma {:induction false} TreeRoundTrip(t: Tree, k: string, more: seq<Arg>)
    requires KindsOk(t) && Peek(k) != '#'
    ensures ParseTree(PrintK(t, k), ArgsK(t, more)) == if Fits(t) then Done(t, k, more) else Bad
    decreases t, 1
  {
    hide ItemsK, MembersK, ItemArgsK, MemberArgsK, ParseItems, ParseMembers;
    var f := PrintK(t, k);
    match t
    case Ignored =>
      HeadTail(f, '-', k);
    case NilLeaf =>
      HeadTail(f, 'n', k);
    case Leaf(kind, loc) =>
      HeadTail(f, kind, k);
      HeadTail(ArgsK(t, more), Loc(loc), more);
    case Bytes(loc, countLoc) =>
      HeadTail(f, '6', k);
      HeadTail(ArgsK(t, more), Loc(loc), [Loc(countLoc)] + more);
      HeadTail([Loc(countLoc)] + more, Loc(countLoc), more);
      assert ArgsK(t, more)[2..] == more;
    case Sized(kind, loc, sizeLoc) =>
      SizedRoundTrip(kind, loc, sizeLoc, k, more);
    case ArrayOf(items, ignoreExcess) =>
      var after := (if ignoreExcess then "*)" else ")") + k;
      HeadTail(f, '(', ItemsK(items, after));
      ItemsRoundTrip(items, [], ignoreExcess, k, more);
      assert [] + items == items;
    case StructOf(members) =>
      HeadTail(f, '{', MembersK(members, "*}" + k));
      MembersRoundTrip(members, [], k, more);
      assert [] + members == members;
  }

  lemma SizedRoundTrip(kind: char, loc: nat, sizeLoc: Option<nat>, k: string, more: seq<Arg>)
    requires IsSizedKind(kind) && Peek(k) != '#'
    ensures var t := Sized(kind, loc, sizeLoc);
      ParseTree(PrintK(t, k), ArgsK(t, more)) == Done(t, k, more)
  {
    var t := Sized(kind, loc, sizeLoc);
    var f, args := PrintK(t, k), ArgsK(t, more);
    HeadTail(f, kind, if sizeLoc.Some? then "#" + k else k);
    HeadTail(args, Loc(loc), if sizeLoc.Some? then [Loc(sizeLoc.value)] + more else more);
    if sizeLoc.Some? {
      HeadTail("#" + k, '#', k);
      assert args[2..] == args[1..][1..];
      HeadTail([Loc(sizeLoc.value)] + more, Loc(sizeLoc.value), more);
    }
  }

  lemma {:induction false} ItemsRoundTrip(ts: seq<Tree>, done: seq<Tree>, ignoreExcess: bool, k: string, more: seq<Arg>)
    requires |done| <= MAX_ITEMS && forall x :: x in ts ==> KindsOk(x)
    ensures ParseItems(ItemsK(ts, (if ignoreExcess then "*)" else ")") + k), ItemArgsK(ts, more), done)
              == if |done + ts| <= MAX_ITEMS && AllFit(ts) then Done(ArrayOf(done + ts, ignoreExcess), k, more) else Bad
    decreases ts, 0
  {
    hide ParseTree, PrintK, ArgsK, KindsOk, Fits;
    var after := (if ignoreExcess then "*)" else ")") + k;
    if ts == [] {
      assert done + ts == done;
      assert after[|after| - |k|..] == k;
      assert after[1..] == if ignoreExcess then ")" + k else k;
    } else {
      var rest, args := ItemsK(ts[1..], after), ItemArgsK(ts[1..], more);
      HeadAndTail(ts);
      assert ts == [ts[0]] + ts[1..];
      NotEnd(ts[0], rest);
      if ts[1..] != [] { NotEnd(ts[1], ItemsK(ts[1..][1..], after)); }
      TreeRoundTrip(ts[0], rest, args);
      if |done| < MAX_ITEMS && Fits(ts[0]) {
        ItemsRoundTrip(ts[1..], done + [ts[0]], ignoreExcess, k, more);
        assert (done + [ts[0]]) + ts[1..] == done + ts;
        assert AllFit(ts) <==> AllFit(ts[1..]);
      }
    }
  }

  lemma MemberStep(g: string, key: string, args: seq<Arg>, done: seq<Mbr>)
    ensures ParseMembers("s:" + g, [Key(key)] + args, done) ==
              if |done| >= MAX_ITEMS then Bad
              else
                var p := ParseTree(g, args);
                if p.Bad? || AfterComma(p.format).None? then Bad
                else ParseMembers(AfterComma(p.format).value, p.args, done + [Mbr(key, p.tree)])
  {
    hide ParseTree;
    var f := "s:" + g;
    assert f[1..] == ":" + g && f[2..] == g;
    HeadTail([Key(key)] + args, Key(key), args);
  }

  lemma {:induction false} MembersRoundTrip(ms: seq<Mbr>, done: seq<Mbr>, k: string, more: seq<Arg>)
    requires |done| <= MAX_ITEMS && forall m :: m in ms ==> KindsOk(m.tree)
    ensures ParseMembers(MembersK(ms, "*}" + k), MemberArgsK(ms, more), done)
              == if |done + ms| <= MAX_ITEMS && MembersFit(ms) then Done(StructOf(done + ms), k, more) else Bad
    decreases ms, 0
  {
    hide ParseTree, PrintK, ArgsK, KindsOk, Fits;
    if ms == [] {
      assert done + ms == done;
      assert ("*}" + k)[1..] == "}" + k && ("*}" + k)[2..] == k;
    } else {
      var m := ms[0];
      var rest, args := MembersK(ms[1..], "*}" + k), MemberArgsK(ms[1..], more);
      HeadAndTail(ms);
      assert ms == [m] + ms[1..];
      MemberStep(PrintK(m.tree, "," + rest), m.key, ArgsK(m.tree, args), done);
      TreeRoundTrip(m.tree, "," + rest, args);
      HeadTail("," + rest, ',', rest);
      if |done| < MAX_ITEMS && Fits(m.tree) {
        MembersRoundTrip(ms[1..], done + [m], k, more);
        assert (done + [m]) + ms[1..] == done + ms;
        assert MembersFit(ms) <==> MembersFit(ms[1..]);
      }
    }
  }

  // ---------------------------------------------------------------------
  // The compiler, which moves two cursors

  class Compiler {
    const formatString: string
    const argList: seq<Arg>
    var formatP: nat
    var argP: nat

    constructor (format: string, args: seq<Arg>)
      ensures formatString == format && argList == args && formatP == argP == 0
    {
      formatString, argList := format, args;
      formatP, argP := 0, 0;
    }

    ghost predicate Valid()
      reads this
    {
      formatP <= |formatString| && argP <= |argList|
    }

    ghost function Format(): string
      requires Valid()
      reads this
    {
      formatString[formatP..]
    }

    ghost function Args(): seq<Arg>
      requires Valid()
      reads this
    {
      argList[argP..]
    }

    function Here(): (c: char)
      reads this
      ensures formatP <= |formatString| ==> c == Peek(formatString[formatP..])
    {
      if formatP < |formatString| then formatString[formatP] else '\0'
    }

    /** One step of the format cursor. */
    method Step()
      requires Valid() && formatP < |formatString|
      modifies `formatP
      ensures Valid() && formatP == old(formatP) + 1 && Format() == old(Format())[1..]
    {
      formatP := formatP + 1;
    }

    /** va_arg() for a pointer to a variable. */
    method NextLoc() returns (loc: Option<nat>)
      requires Valid()
      modifies `argP
      ensures Valid()
      ensures loc.Some? <==> old(Args()) != [] && old(Args())[0].Loc?
      ensures loc.Some? ==> loc.value == old(Args())[0].loc && Args() == old(Args())[1..]
      ensures loc.None? ==> argP == old(argP)
    {
      if argP < |argList| && argList[argP].Loc? {
        loc := Some(argList[argP].loc);
        argP := argP + 1;
      } else {
        loc := None;
      }
    }

    method NextKey() returns (key: Option<string>)
      requires Valid()
      modifies `argP
      ensures Valid()
      ensures key.Some? <==> old(Args()) != [] && old(Args())[0].Key?
      ensures key.Some? ==> key.value == old(Args())[0].key && Args() == old(Args())[1..]
    {
      if argP < |argList| && argList[argP].Key? {
        key := Some(argList[argP].key);
        argP := argP + 1;
      } else {
        key := None;
      }
    }

    /** Where the cursors stand and the branch so far are what the function says. */
    ghost predicate Reached(p: Parsed, t: Option<Tree>)
      requires Valid()
      reads this
    {
      (t.Some? <==> p.Done?) && (t.Some? ==> p == Done(t.value, Format(), Args()))
    }

    /** The leaf cases of createDecompTreeNext(), after the specifier character. */
    method LeafNode(c: char) returns (t: Option<Tree>)
      requires Valid() && (IsLeafKind(c) || IsSizedKind(c) || c == '6')
      modifies this
      ensures Valid() && old(formatP) <= formatP && Reached(ParseTree([c] + old(Format()), old(Args())), t)
    {
      ghost var f, args := Format(), Args();
      assert ([c] + f)[1..] == f;
      var loc := NextLoc();
      if loc.None? { return None; }
      if IsLeafKind(c) {
        t := Some(Leaf(c, loc.value));
      } else if c == '6' {
        var countLoc := NextLoc();
        if countLoc.None? { return None; }
        assert args[2..] == args[1..][1..];
        t := Some(Bytes(loc.value, countLoc.value));
      } else if Here() == '#' {
        var sizeLoc := NextLoc();
        if sizeLoc.None? { return None; }
        assert args[2..] == args[1..][1..];
        Step();
        t := Some(Sized(c, loc.value, Some(sizeLoc.value)));
      } else {
        t := Some(Sized(c, loc.value, None));
      }
    }

    /** createDecompTreeNext() */
    method CreateDecompTreeNext() returns (t: Option<Tree>)
      requires Valid()
      modifies this
      ensures Valid() && old(formatP) <= formatP && Reached(ParseTree(old(Format()), old(Args())), t)
      ensures t.Some? ==> old(formatP) < formatP
      decreases |formatString| - formatP, 1
    {
      hide ParseItems, ParseMembers, ParseTree;
      ghost var f, args := Format(), Args();
      var c := Here();
      TreeCases(f, args);
      if c == '\0' { return None; }
      assert f == [c] + f[1..];
      Step();
      if c == '-' {
        t := Some(Ignored);
      } else if c == 'n' {
        t := Some(NilLeaf);
      } else if c == '(' {
        t := BuildArrayDecompBranch();
      } else if c == '{' {
        t := BuildStructDecompBranch();
      } else if IsLeafKind(c) || IsSizedKind(c) || c == '6' {
        t := LeafNode(c);
      } else {
        t := None;
      }
    }

    /** The end of an array specifier: an asterisk or none, and the parenthesis. */
    method ProcessArraySpecTail() returns (ok: bool, hasTrailingAsterisk: bool)
      requires Valid() && Here() in {'\0', ')', '*'}
      modifies `formatP
      ensures Valid() && old(formatP) <= formatP
      ensures ok <==> Here() == ')' && (old(Here()) == ')' || old(Here()) == '*')
      ensures hasTrailingAsterisk <==> old(Here()) == '*'
      ensures Format() == if old(Here()) == '*' then old(Format())[1..] else old(Format())
    {
      hasTrailingAsterisk := Here() == '*';
      if hasTrailingAsterisk { Step(); }
      ok := Here() == ')';
    }

    /** buildArrayDecompBranch(), and the step over the parenthesis that follows it. */
    method BuildArrayDecompBranch() returns (t: Option<Tree>)
      requires Valid()
      modifies this
      ensures Valid() && old(formatP) <= formatP
      ensures Reached(ParseItems(old(Format()), old(Args()), []), t)
      ensures t.Some? ==> old(formatP) < formatP
      decreases |formatString| - formatP, 2
    {
      hide ParseTree, ParseItems;
      var items := [];
      var ok := true;
      ghost var total := ParseItems(Format(), Args(), []);
      while Here() != '\0' && Here() != ')' && Here() != '*' && ok
        invariant Valid() && old(formatP) <= formatP
        invariant total == if ok then ParseItems(Format(), Args(), items) else Bad
        decreases |formatString| - formatP, ok
      {
        ItemsCases(Format(), Args(), items);
        if |items| >= MAX_ITEMS {
          ok := false;
        } else {
          var item := CreateDecompTreeNext();
          if item.Some? { items := items + [item.value]; } else { ok := false; }
        }
      }
      if !ok { return None; }
      ItemsCases(Format(), Args(), items);
      var ignoreExcess;
      ok, ignoreExcess := ProcessArraySpecTail();
      if !ok { return None; }
      Step();
      t := Some(ArrayOf(items, ignoreExcess));
    }

    /** skipColon() */
    method SkipColon() returns (ok: bool)
      requires Valid()
      ensures ok <==> Here() == ':'
    {
      ok := Here() == ':';
    }

    /** skipComma() */
    method SkipComma() returns (ok: bool)
      requires Valid()
      modifies `formatP
      ensures Valid() && old(formatP) <= formatP
      ensures ok <==> AfterComma(old(Format())).Some?
      ensures ok ==> AfterComma(old(Format())) == Some(Format())
    {
      if Here() == '\0' || Here() == '}' { return true; }
      if Here() == ',' {
        Step();
        ok := true;
      } else {
        ok := false;
      }
    }

    /** skipAsterisk() */
    method SkipAsterisk() returns (ok: bool)
      requires Valid()
      modifies `formatP
      ensures Valid() && old(formatP) <= formatP
      ensures ok <==> old(Here()) == '*' && Peek(old(Format())[1..]) == '}'
      ensures ok ==> Format() == old(Format())[1..] && Here() == '}'
    {
      if Here() == '*' {
        Step();
        ok := Here() == '}';
      } else {
        ok := false;
      }
    }

    /** One member: its key specifier, colon, value and comma. */
    method MemberBranch() returns (m: Option<Mbr>)
      requires Valid() && Here() !in {'\0', '}', '*'}
      modifies this
      ensures Valid() && old(formatP) <= formatP
      ensures m.Some? ==> old(formatP) < formatP
      ensures var p := OneMember(old(Format()), old(Args()));
        if m.None? then p == None else p == Some((m.value, Format(), Args()))
      decreases |formatString| - formatP, 0
    {
      hide ParseTree;
      ghost var f, args := Format(), Args();
      if Here() != 's' { return None; }
      Step();
      var ok := SkipColon();
      if !ok { return None; }
      Step();
      assert Format() == f[2..];
      var key := NextKey();
      if key.None? { return None; }
      var value := CreateDecompTreeNext();
      if value.None? { return None; }
      ok := SkipComma();
      if !ok { return None; }
      m := Some(Mbr(key.value, value.value));
    }

    /** buildStructDecompBranch(), and the step over the brace that follows it. */
    method BuildStructDecompBranch() returns (t: Option<Tree>)
      requires Valid()
      modifies this
      ensures Valid() && old(formatP) <= formatP
      ensures Reached(ParseMembers(old(Format()), old(Args()), []), t)
      ensures t.Some? ==> old(formatP) < formatP
      decreases |formatString| - formatP, 2
    {
      hide ParseTree, ParseMembers, OneMember;
      var members := [];
      var ok := true;
      ghost var total := ParseMembers(Format(), Args(), []);
      while Here() != '\0' && Here() != '}' && Here() != '*' && ok
        invariant Valid() && old(formatP) <= formatP
        invariant total == if ok then ParseMembers(Format(), Args(), members) else Bad
        decreases |formatString| - formatP, ok
      {
        MembersCases(Format(), Args(), members);
        if |members| >= MAX_ITEMS {
          ok := false;
        } else {
          var m := MemberBranch();
          if m.Some? { members := members + [m.value]; } else { ok := false; }
        }
      }
      if !ok { return None; }
      MembersCases(Format(), Args(), members);
      ghost var f := Format();
      ok := SkipAsterisk();
      if !ok { return None; }
      Step();
      assert Format() == f[2..];
      t := Some(StructOf(members));
    }

    /** createDecompTree() */
    method CreateDecompTree() returns (t: Option<Tree>)
      requires Valid() && formatP == argP == 0
      modifies this
      ensures t == Compile(formatString, argList)
    {
      hide ParseTree;
      assert Format() == formatString && Args() == argList;
      t := CreateDecompTreeNext();
      if t.Some? && Here() != '\0' {
        t := None;
      }
    }
  }

  lemma TreeCases(f: string, args: seq<Arg>)
    ensures Peek(f) == '\0' ==> ParseTree(f, args) == Bad
    ensures Peek(f) != '\0' ==>
              var c := f[0];
              && (c == '-' ==> ParseTree(f, args) == Done(Ignored, f[1..], args))
              && (c == 'n' ==> ParseTree(f, args) == Done(NilLeaf, f[1..], args))
              && (c == '(' ==> ParseTree(f, args) == ParseItems(f[1..], args, []))
              && (c == '{' ==> ParseTree(f, args) == ParseMembers(f[1..], args, []))
              && (c !in {'-', 'n', '(', '{', '6'} && !IsLeafKind(c) && !IsSizedKind(c) ==> ParseTree(f, args) == Bad)
  {
    hide ParseItems, ParseMembers;
  }

  lemma ItemsCases(f: string, args: seq<Arg>, done: seq<Tree>)
    ensures var c, p := Peek(f), ParseItems(f, args, done);
      && (c == '\0' ==> p == Bad)
      && (c == ')' ==> p == Done(ArrayOf(done, false), f[1..], args))
      && (c == '*' ==> p == if Peek(f[1..]) == ')' then Done(ArrayOf(done, true), f[1..][1..], args) else Bad)
      && (c !in {'\0', ')', '*'} ==>
            var q := ParseTree(f, args);
            p == if |done| >= MAX_ITEMS || q.Bad? then Bad else ParseItems(q.format, q.args, done + [q.tree]))
  {
    hide ParseTree;
    if Peek(f) == '*' && Peek(f[1..]) == ')' { assert f[1..][1..] == f[2..]; }
  }

  /** One member with its comma. */
  ghost function OneMember(f: string, args: seq<Arg>): Option<(Mbr, string, seq<Arg>)> {
    if Peek(f) != 's' || Peek(f[1..]) != ':' || args == [] || !args[0].Key? then None
    else
      var q := ParseTree(f[2..], args[1..]);
      if q.Bad? || AfterComma(q.format).None? then None
      else Some((Mbr(args[0].key, q.tree), AfterComma(q.format).value, q.args))
  }

  lemma MembersCases(f: string, args: seq<Arg>, done: seq<Mbr>)
    ensures var c, p := Peek(f), ParseMembers(f, args, done);
      && (c == '\0' || c == '}' ==> p == Bad)
      && (c == '*' ==> p == if Peek(f[1..]) == '}' then Done(StructOf(done), f[2..], args) else Bad)
      && (c !in {'\0', '}', '*'} ==>
            var m := OneMember(f, args);
            p == if |done| >= MAX_ITEMS || m.None? then Bad else ParseMembers(m.value.1, m.value.2, done + [m.value.0]))
  {
    hide ParseTree;
  }
}
