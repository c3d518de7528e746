/** Which format strings compile: exactly those that a tree prints. */
module FormatForms {
  import opened Text
  import opened JsonLexer
  import opened Formats

  /** What was compiled is the tree whose format and arguments stand at the front. */
  ghost predicate WasPrinted(f: string, args: seq<Arg>, p: Parsed) {
    p.Done? ==> KindsOk(p.tree) && Fits(p.tree) && f == PrintK(p.tree, p.format) && args == ArgsK(p.tree, p.args)
  }

  lemma LeafWasPrinted(f: string, args: seq<Arg>)
    requires Peek(f) != '(' && Peek(f) != '{'
    ensures WasPrinted(f, args, ParseTree(f, args))
  {
    var p := ParseTree(f, args);
    if p.Done? {
      assert f == [f[0]] + f[1..];
      if p.tree.Leaf? || p.tree.Sized? || p.tree.Bytes? { assert args == [args[0]] + args[1..]; }
      if p.tree.Bytes? || (p.tree.Sized? && p.tree.sizeLoc.Some?) {
        assert args[1..] == [args[1]] + args[2..];
        if p.tree.Sized? { assert f[1..] == "#" + f[1..][1..]; }
      }
    }
  }

  lemma {:induction false} TreeWasPrinted(f: string, args: seq<Arg>)
    ensures WasPrinted(f, args, ParseTree(f, args))
    decreases |f|, 1
  {
    hide ParseItems, ParseMembers, PrintK, ArgsK, KindsOk, Fits;
    if Peek(f) == '(' {
      assert f == "(" + f[1..];
      var ts := ItemsWerePrinted(f[1..], args, []);
      var p := ParseTree(f, args);
      if p.Done? { ArrayPrinted(ts, p.tree.ignoreExcess, p.format, p.args); assert [] + ts == ts; }
    } else if Peek(f) == '{' {
      assert f == "{" + f[1..];
      var ms := MembersWerePrinted(f[1..], args, []);
      var p := ParseTree(f, args);
      if p.Done? { StructPrinted(ms, p.format, p.args); assert [] + ms == ms; }
    } else {
      LeafWasPrinted(f, args);
    }
  }

  lemma ArrayPrinted(ts: seq<Tree>, ignoreExcess: bool, k: string, more: seq<Arg>)
    requires |ts| <= MAX_ITEMS && forall x :: x in ts ==> KindsOk(x) && Fits(x)
    ensures var t := ArrayOf(ts, ignoreExcess);
      && KindsOk(t) && Fits(t) && PrintK(t, k) == "(" + ItemsK(ts, (if ignoreExcess then "*)" else ")") + k) && ArgsK(t, more) == ItemArgsK(ts, more)
  {
    hide ItemsK, ItemArgsK;
  }

  lemma StructPrinted(ms: seq<Mbr>, k: string, more: seq<Arg>)
    requires |ms| <= MAX_ITEMS && forall m :: m in ms ==> KindsOk(m.tree) && Fits(m.tree)
    ensures var t := StructOf(ms);
      KindsOk(t) && Fits(t) && PrintK(t, k) == "{" + MembersK(ms, "*}" + k) && ArgsK(t, more) == MemberArgsK(ms, more)
  {
    hide MembersK, MemberArgsK;
  }

  lemma {:induction false} ItemsWerePrinted(f: string, args: seq<Arg>, done: seq<Tree>) returns (ts: seq<Tree>)
    requires |done| <= MAX_ITEMS
    ensures var p := ParseItems(f, args, done);
      p.Done? ==>
        && p.tree.ArrayOf? && p.tree.items == done + ts && |done + ts| <= MAX_ITEMS && (forall x :: x in ts ==> KindsOk(x) && Fits(x))
        && f == ItemsK(ts, (if p.tree.ignoreExcess then "*)" else ")") + p.format) && args == ItemArgsK(ts, p.args)
    decreases |f|, 2
  {
    hide ParseTree, PrintK, ArgsK, KindsOk, Fits;
    ItemsCases(f, args, done);
    ts := [];
    var c := Peek(f);
    if c == ')' {
      assert f == ")" + f[1..] && done + [] == done;
    } else if c == '*' {
      if Peek(f[1..]) == ')' { assert f == "*)" + f[1..][1..] && done + [] == done; }
    } else if c != '\0' {
      var q := ParseTree(f, args);
      if q.Done? && |done| < MAX_ITEMS {
        TreeWasPrinted(f, args);
        var rest := ItemsWerePrinted(q.format, q.args, done + [q.tree]);
        ts := [q.tree] + rest;
        assert (done + [q.tree]) + rest == done + ts && ts[1..] == rest;
      }
    }
  }

  /** After a member there is a comma, or the struct is refused. */
  lemma CommaNeeded(f: string, args: seq<Arg>, done: seq<Mbr>)
    requires AfterComma(f).Some? && ParseMembers(AfterComma(f).value, args, done).Done?
    ensures f == "," + AfterComma(f).value
  {
    hide ParseTree;
    if Peek(f) in {'\0', '}'} {
      MembersCases(f, args, done);
    } else {
      assert f == "," + f[1..];
    }
  }

  lemma {:induction false} MembersWerePrinted(f: string, args: seq<Arg>, done: seq<Mbr>) returns (ms: seq<Mbr>)
    requires |done| <= MAX_ITEMS
    ensures var p := ParseMembers(f, args, done);
      p.Done? ==>
        && p.tree.StructOf? && p.tree.members == done + ms && |done + ms| <= MAX_ITEMS
        && (forall m :: m in ms ==> KindsOk(m.tree) && Fits(m.tree))
        && f == MembersK(ms, "*}" + p.format) && args == MemberArgsK(ms, p.args)
    decreases |f|, 2
  {
    hide ParseTree, PrintK, ArgsK, KindsOk, Fits;
    ms := [];
    if Peek(f) == '*' {
      if Peek(f[1..]) == '}' { assert f == "*}" + f[2..] && done + [] == done; }
    } else if ParseMembers(f, args, done).Done? {
      var g, key := f[2..], args[0].key;
      assert f == "s:" + g && args == [Key(key)] + args[1..];
      MemberStep(g, key, args[1..], done);
      var q := ParseTree(g, args[1..]);
      TreeWasPrinted(g, args[1..]);
      var h := AfterComma(q.format).value;
      CommaNeeded(q.format, q.args, done + [Mbr(key, q.tree)]);
      var rest := MembersWerePrinted(h, q.args, done + [Mbr(key, q.tree)]);
      ms := [Mbr(key, q.tree)] + rest;
      assert (done + [Mbr(key, q.tree)]) + rest == done + ms && ms[1..] == rest;
    }
  }

  /** `format` is the one of `t`, with nothing after it, and `args` starts with what it
      takes. */
  ghost predicate IsFormatOf(format: string, args: seq<Arg>, t: Tree) {
    KindsOk(t) && Fits(t) && exists rest, more :: Peek(rest) == '\0' && format == PrintK(t, rest) && args == ArgsK(t, more)
  }

  /** Exactly the formats of trees that fit the tables compile, each to its tree: nothing
      is left out of a format, and nothing put into it. */
  lemma CompileExact(format: string, args: seq<Arg>, t: Tree)
    ensures Compile(format, args) == Some(t) <==> IsFormatOf(format, args, t)
  {
    hide ParseTree, PrintK, ArgsK, KindsOk, Fits;
    TreeWasPrinted(format, args);
    if IsFormatOf(format, args, t) {
      var rest, more :| Peek(rest) == '\0' && format == PrintK(t, rest) && args == ArgsK(t, more);
      TreeRoundTrip(t, rest, more);
    }
  }
}
