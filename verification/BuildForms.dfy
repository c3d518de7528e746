/** What can be built: format strings with their arguments as plans, told by how they are
written, and that xmlrpc_build_value() takes exactly these. */
module BuildForms {
  import opened Text
  import opened Utf8Text
  import opened Values
  import opened Lines
  import opened JsonLexer
  import opened Formats
  import opened Build
  import opened Rebuild

  /** A value to be built, with the arguments it takes. The key of a member may be any
      value that is a string; the last member may have a comma too. */
  datatype Plan =
    | NilPlan
    | One(kind: char, arg: Given, value: Value)
    | TextPlan(kind: char, sized: bool, memory: string, n: nat, value: Value)
    | ArrayPlan(items: seq<Plan>)
    | StructPlan(members: seq<MemberPlan>, comma: bool)

  datatype MemberPlan = MemberPlan(key: Plan, value: Plan)

  /** The format of `p` and then `k`. */
  function PlanK(p: Plan, k: string): string
    decreases p, 0
  {
    match p
    case NilPlan => "n" + k
    case One(kind, _, _) => [kind] + k
    case TextPlan(kind, sized, _, _, _) => [kind] + (if sized && kind != '6' then "#" + k else k)
    case ArrayPlan(items) => "(" + PlansK(items, ")" + k)
    case StructPlan(members, comma) => "{" + MemberPlansK(members, comma, "}" + k)
  }

  function PlansK(ps: seq<Plan>, k: string): string
    decreases ps, 0
  {
    if ps == [] then k else PlanK(ps[0], PlansK(ps[1..], k))
  }

  function MemberPlansK(ms: seq<MemberPlan>, comma: bool, k: string): string
    decreases ms, 0
  {
    if ms == [] then k
    else MemberPlanK(ms[0], (if |ms| > 1 || comma then "," else "") + MemberPlansK(ms[1..], comma, k))
  }

  function MemberPlanK(m: MemberPlan, k: string): string
    decreases m, 0
  {
    PlanK(m.key, ":" + PlanK(m.value, k))
  }

  /** The arguments `p` takes, and then `more`. */
  function PlanArgsK(p: Plan, more: seq<Given>): seq<Given>
    decreases p, 0
  {
    match p
    case NilPlan => more
    case One(_, arg, _) => [arg] + more
    case TextPlan(_, sized, memory, n, _) => [Chars(memory)] + (if sized then [Size(n)] + more else more)
    case ArrayPlan(items) => PlansArgsK(items, more)
    case StructPlan(members, _) => MemberPlansArgsK(members, more)
  }

  function PlansArgsK(ps: seq<Plan>, more: seq<Given>): seq<Given>
    decreases ps, 0
  {
    if ps == [] then more else PlanArgsK(ps[0], PlansArgsK(ps[1..], more))
  }

  function MemberPlansArgsK(ms: seq<MemberPlan>, more: seq<Given>): seq<Given>
    decreases ms, 0
  {
    if ms == [] then more else MemberPlanArgsK(ms[0], MemberPlansArgsK(ms[1..], more))
  }

  function MemberPlanArgsK(m: MemberPlan, more: seq<Given>): seq<Given>
    decreases m, 0
  {
    PlanArgsK(m.key, PlanArgsK(m.value, more))
  }

  /** The value that is built. */
  function PlanValue(p: Plan): Value
    decreases p, 0
  {
    match p
    case NilPlan => Nil
    case One(_, _, value) => value
    case TextPlan(_, _, _, _, value) => value
    case ArrayPlan(items) => Array(PlanValues(items))
    case StructPlan(members, _) => Struct(AllSet([], PlanMembers(members)))
  }

  function PlanValues(ps: seq<Plan>): seq<Value>
    decreases ps, 0
  {
    if ps == [] then [] else [PlanValue(ps[0])] + PlanValues(ps[1..])
  }

  function PlanMembers(ms: seq<MemberPlan>): seq<Member>
    decreases ms, 0
  {
    if ms == [] then [] else [PlanMember(ms[0])] + PlanMembers(ms[1..])
  }

  function PlanMember(m: MemberPlan): Member
    decreases m, 0
  {
    var key := PlanValue(m.key);
    Member(if key.Str? then key.str else "", PlanValue(m.value))
  }

  /** The text a string argument gives: as long as its size says, or up to NUL. */
  ghost predicate Gives(sized: bool, memory: string, n: nat, text: string) {
    if sized then n <= |memory| && text == memory[..n]
    else text <= memory && '\0' !in text && (text == memory || memory[|text|] == '\0')
  }

  /** Each specifier with its argument makes its type of value. */
  ghost predicate OneOk(mk: Makers, kind: char, arg: Given, v: Value) {
    if kind in {'i', 'b', 'd', 'I'} then arg == Number(v) && SpecifierOf(v) == Some(kind)
    else if kind in {'t', 'p'} then arg.Number? && mk.plain(kind, arg.v) == Ok(v)
    else if kind == '8' then arg.Chars? && exists text :: Gives(false, arg.text, 0, text) && mk.text(kind, text) == Ok(v)
    else kind in {'V', 'A', 'S'} && arg == Whole(v) && (kind != 'V' ==> SpecifierOf(v) == Some(kind))
  }

  ghost predicate TextOk(mk: Makers, kind: char, text: string, v: Value) {
    if kind == 's' then ValidUtf8(text) && v == Str(Normalise(text))
    else if kind == '6' then v == Base64(text)
    else kind == 'w' && mk.text(kind, text) == Ok(v)
  }

  ghost predicate PlanOk(mk: Makers, p: Plan)
    decreases p
  {
    match p
    case NilPlan => true
    case One(kind, arg, value) => OneOk(mk, kind, arg, value)
    case TextPlan(kind, sized, memory, n, value) =>
      (kind == '6' ==> sized) && exists text :: Gives(sized, memory, n, text) && TextOk(mk, kind, text, value)
    case ArrayPlan(items) => forall x :: x in items ==> PlanOk(mk, x)
    case StructPlan(members, _) => forall m :: m in members ==> PlanOk(mk, m.key) && PlanOk(mk, m.value) && PlanValue(m.key).Str?
  }

  lemma UnsizedGives(memory: string, text: string)
    ensures Gives(false, memory, 0, text) <==> text == memory[..UpToNul(memory)]
  {
    var n := UpToNul(memory);
    if Gives(false, memory, 0, text) {
      assert text == memory[..|text|];
      NulEnds(memory, |text|, n);
    }
  }

  lemma NulEnds(memory: string, m: nat, n: nat)
    requires m <= |memory| && '\0' !in memory[..m] && (m < |memory| ==> memory[m] == '\0')
    requires n <= |memory| && '\0' !in memory[..n] && (n < |memory| ==> memory[n] == '\0')
    ensures m == n
  {}

  // ---------------------------------------------------------------------
  // Plans are carried out

  lemma PlanStarts(mk: Makers, p: Plan, k: string)
    requires PlanOk(mk, p)
    ensures PlanK(p, k) != "" && Peek(PlanK(p, k)) !in {'\0', ')', '}', '#', ':', ','}
  {
    hide PlansK, MemberPlansK, Gives;
  }

  lemma OneCarriedOut(mk: Makers, p: Plan, k: string, more: seq<Given>)
    requires PlanOk(mk, p) && p.One?
    ensures BuildValue(mk, PlanK(p, k), PlanArgsK(p, more)) == Ready(PlanValue(p), k, more)
  {
    hide BuildItems, BuildMembers, UpToNul, Gives;
    HeadTail(PlanK(p, k), p.kind, k);
    HeadTail(PlanArgsK(p, more), p.arg, more);
    if p.kind == '8' {
      var text :| Gives(false, p.arg.text, 0, text) && mk.text(p.kind, text) == Ok(p.value);
      UnsizedGives(p.arg.text, text);
    }
  }

  lemma TextCarriedOut(mk: Makers, p: Plan, k: string, more: seq<Given>)
    requires PlanOk(mk, p) && p.TextPlan? && Peek(k) != '#'
    ensures BuildValue(mk, PlanK(p, k), PlanArgsK(p, more)) == Ready(PlanValue(p), k, more)
  {
    hide BuildItems, BuildMembers, UpToNul, Gives, Normalise, ValidUtf8;
    var text :| Gives(p.sized, p.memory, p.n, text) && TextOk(mk, p.kind, text, p.value);
    var rest := if p.sized && p.kind != '6' then "#" + k else k;
    HeadTail(PlanK(p, k), p.kind, rest);
    var after := if p.sized then [Size(p.n)] + more else more;
    HeadTail(PlanArgsK(p, more), Chars(p.memory), after);
    TextIsGiven(p, text, more);
    if p.sized {
      HeadTail("#" + k, '#', k);
      assert PlanArgsK(p, more)[2..] == after[1..] == more;
    }
  }

  lemma TextIsGiven(p: Plan, text: string, more: seq<Given>)
    requires p.TextPlan? && Gives(p.sized, p.memory, p.n, text)
    ensures TextGiven(PlanArgsK(p, more), p.sized) == Some(text)
  {
    hide UpToNul;
    if !p.sized { UnsizedGives(p.memory, text); }
  }

  lemma {:induction false} CarriedOut(mk: Makers, p: Plan, k: string, more: seq<Given>)
    requires PlanOk(mk, p) && Peek(k) != '#'
    ensures BuildValue(mk, PlanK(p, k), PlanArgsK(p, more)) == Ready(PlanValue(p), k, more)
    decreases p, 1
  {
    hide BuildItems, BuildMembers, PlansK, MemberPlansK, PlansArgsK, MemberPlansArgsK, Gives, OneOk, TextOk, PlanValues, PlanMembers, AllSet;
    match p
    case NilPlan => HeadTail(PlanK(p, k), 'n', k);
    case One(_, _, _) => OneCarriedOut(mk, p, k, more);
    case TextPlan(_, _, _, _, _) => TextCarriedOut(mk, p, k, more);
    case ArrayPlan(items) =>
      HeadTail(PlanK(p, k), '(', PlansK(items, ")" + k));
      PlansCarriedOut(mk, items, k, more, []);
      assert [] + PlanValues(items) == PlanValues(items);
    case StructPlan(members, comma) =>
      HeadTail(PlanK(p, k), '{', MemberPlansK(members, comma, "}" + k));
      MembersCarriedOut(mk, members, comma, k, more, []);
  }

  lemma {:induction false} PlansCarriedOut(mk: Makers, ps: seq<Plan>, k: string, more: seq<Given>, done: seq<Value>)
    requires forall x :: x in ps ==> PlanOk(mk, x)
    ensures BuildItems(mk, PlansK(ps, ")" + k), PlansArgsK(ps, more), done) == Ready(Array(done + PlanValues(ps)), k, more)
    decreases ps, 0
  {
    hide BuildValue, PlanOk, PlanK, PlanArgsK, PlanValue;
    if ps == [] {
      assert done + [] == done;
      HeadTail(")" + k, ')', k);
    } else {
      HeadAndTail(ps);
      var rest := PlansK(ps[1..], ")" + k);
      PlanStarts(mk, ps[0], rest);
      if ps[1..] != [] { PlanStarts(mk, ps[1], PlansK(ps[1..][1..], ")" + k)); }
      CarriedOut(mk, ps[0], rest, PlansArgsK(ps[1..], more));
      PlansCarriedOut(mk, ps[1..], k, more, done + [PlanValue(ps[0])]);
      assert (done + [PlanValue(ps[0])]) + PlanValues(ps[1..]) == done + PlanValues(ps);
    }
  }

  lemma {:induction false} MembersCarriedOut(mk: Makers, ms: seq<MemberPlan>, comma: bool, k: string, more: seq<Given>, done: seq<Member>)
    requires forall m :: m in ms ==> PlanOk(mk, m.key) && PlanOk(mk, m.value) && PlanValue(m.key).Str?
    ensures BuildMembers(mk, MemberPlansK(ms, comma, "}" + k), MemberPlansArgsK(ms, more), done)
              == Ready(Struct(AllSet(done, PlanMembers(ms))), k, more)
    decreases ms, 0
  {
    hide BuildValue, PlanOk, PlanK, MemberPlanK, PlanArgsK, MemberPlanArgsK, PlanValue, PlanMember, SetMember;
    HeadTail("}" + k, '}', k);
    if ms != [] {
      HeadAndTail(ms);
      MemberEnds(ms, comma, k);
      var f3 := MemberPlansK(ms[1..], comma, "}" + k);
      var f2 := (if |ms| > 1 || comma then "," else "") + f3;
      MemberCarriedOut(mk, ms[0], f2, f3, MemberPlansArgsK(ms[1..], more), done);
      var m := PlanMember(ms[0]);
      MembersCarriedOut(mk, ms[1..], comma, k, more, SetMember(done, m.key, m.value));
    }
  }

  lemma {:induction false} MemberCarriedOut(mk: Makers, m: MemberPlan, f2: string, f3: string, args: seq<Given>, done: seq<Member>)
    requires PlanOk(mk, m.key) && PlanOk(mk, m.value) && PlanValue(m.key).Str? && AfterMember(f2) == Some(f3) && Peek(f2) != '#'
    ensures var x := PlanMember(m);
      BuildMembers(mk, MemberPlanK(m, f2), MemberPlanArgsK(m, args), done) == BuildMembers(mk, f3, args, SetMember(done, x.key, x.value))
    decreases m, 2
  {
    hide BuildValue, PlanOk, PlanK, PlanArgsK, PlanValue, SetMember, AfterMember;
    var g := PlanK(m.value, f2);
    HeadTail(":" + g, ':', g);
    PlanStarts(mk, m.key, ":" + g);
    CarriedOut(mk, m.key, ":" + g, PlanArgsK(m.value, args));
    CarriedOut(mk, m.value, f2, args);
  }

  /** What follows a member: a comma, or at once the closing brace. */
  lemma MemberEnds(ms: seq<MemberPlan>, comma: bool, k: string)
    requires ms != []
    ensures var f3 := MemberPlansK(ms[1..], comma, "}" + k);
      var f2 := (if |ms| > 1 || comma then "," else "") + f3;
      AfterMember(f2) == Some(f3) && Peek(f2) != '#'
  {
    hide MemberPlanK;
    var f3 := MemberPlansK(ms[1..], comma, "}" + k);
    if |ms| > 1 || comma { HeadTail("," + f3, ',', f3); } else { assert "" + f3 == f3 == "}" + k; }
  }

  // ---------------------------------------------------------------------
  // What was built was planned

  ghost predicate Planned(mk: Makers, f: string, args: seq<Given>, b: Built, p: Plan) {
    b.Ready? ==> PlanOk(mk, p) && f == PlanK(p, b.format) && args == PlanArgsK(p, b.args) && PlanValue(p) == b.value
  }

  lemma OnePlanned(mk: Makers, f: string, args: seq<Given>) returns (p: Plan)
    requires f != "" && f[0] in {'i', 'b', 'd', 'I', 't', 'p', '8', 'V', 'A', 'S'}
    ensures Planned(mk, f, args, BuildValue(mk, f, args), p)
  {
    hide UpToNul, Gives;
    var b := BuildValue(mk, f, args);
    p := NilPlan;
    if b.Ready? {
      p := One(f[0], args[0], b.value);
      assert f == [f[0]] + f[1..] && args == [args[0]] + args[1..];
      if f[0] == '8' { UnsizedGives(args[0].text, args[0].text[..UpToNul(args[0].text)]); }
    }
  }

  lemma TextPlanned(mk: Makers, f: string, args: seq<Given>) returns (p: Plan)
    requires f != "" && f[0] in {'s', 'w', '6'}
    ensures Planned(mk, f, args, BuildValue(mk, f, args), p)
  {
    hide UpToNul, Gives, Normalise, ValidUtf8;
    var b := BuildValue(mk, f, args);
    p := NilPlan;
    if b.Ready? {
      var sized := f[0] == '6' || Peek(f[1..]) == '#';
      var text := TextGiven(args, sized).value;
      p := TextPlan(f[0], sized, args[0].text, if sized then args[1].n else 0, b.value);
      assert f == [f[0]] + f[1..] && args == [args[0]] + args[1..];
      GivenIsText(args, sized);
      if sized {
        assert args[1..] == [args[1]] + args[2..];
        if f[0] != '6' { assert f[1..] == "#" + f[1..][1..]; }
      }
    }
  }

  lemma GivenIsText(args: seq<Given>, sized: bool)
    requires TextGiven(args, sized).Some?
    ensures args != [] && args[0].Chars? && (sized ==> |args| > 1 && args[1].Size?)
    ensures Gives(sized, args[0].text, if sized then args[1].n else 0, TextGiven(args, sized).value)
  {
    hide UpToNul;
    if !sized { UnsizedGives(args[0].text, args[0].text[..UpToNul(args[0].text)]); }
  }

  lemma {:induction false} ValuePlanned(mk: Makers, f: string, args: seq<Given>) returns (p: Plan)
    ensures Planned(mk, f, args, BuildValue(mk, f, args), p)
    decreases |f|, 1
  {
    hide BuildItems, BuildMembers, UpToNul, PlansK, MemberPlansK, PlanOk, PlansArgsK, MemberPlansArgsK, PlanValues, PlanMembers, AllSet;
    p := NilPlan;
    if f != "" && BuildValue(mk, f, args).Ready? {
      var b := BuildValue(mk, f, args);
      assert f == [f[0]] + f[1..];
      if f[0] == 'n' {
        NilIsOk(mk);
      } else if f[0] == '(' {
        var ps := ItemsPlanned(mk, f[1..], args, []);
        p := ArrayPlan(ps);
        ArrayIsOk(mk, ps);
        assert [] + PlanValues(ps) == PlanValues(ps);
      } else if f[0] == '{' {
        var ms, comma := MembersPlanned(mk, f[1..], args, []);
        p := StructPlan(ms, comma);
        StructIsOk(mk, ms, comma);
      } else if f[0] in {'s', 'w', '6'} {
        p := TextPlanned(mk, f, args);
      } else {
        p := OnePlanned(mk, f, args);
      }
    }
  }

  lemma NilIsOk(mk: Makers)
    ensures PlanOk(mk, NilPlan)
  {}

  lemma ArrayIsOk(mk: Makers, ps: seq<Plan>)
    requires forall x :: x in ps ==> PlanOk(mk, x)
    ensures PlanOk(mk, ArrayPlan(ps))
  {}

  ghost predicate MemberOk(mk: Makers, m: MemberPlan) { PlanOk(mk, m.key) && PlanOk(mk, m.value) && PlanValue(m.key).Str? }

  lemma StructIsOk(mk: Makers, ms: seq<MemberPlan>, comma: bool)
    requires forall m :: m in ms ==> MemberOk(mk, m)
    ensures PlanOk(mk, StructPlan(ms, comma))
  {
    hide PlanValue;
  }

  lemma {:induction false} ItemsPlanned(mk: Makers, f: string, args: seq<Given>, done: seq<Value>) returns (ps: seq<Plan>)
    ensures var b := BuildItems(mk, f, args, done);
      b.Ready? ==>
        && (forall x :: x in ps ==> PlanOk(mk, x)) && b.value == Array(done + PlanValues(ps))
        && f == PlansK(ps, ")" + b.format) && args == PlansArgsK(ps, b.args)
    decreases |f|, 2
  {
    hide BuildValue, PlanOk, PlanK, PlanArgsK, PlanValue;
    ps := [];
    if Peek(f) == ')' {
      assert f == ")" + f[1..] && done + [] == done;
    } else if Peek(f) != '\0' {
      var b := BuildValue(mk, f, args);
      if b.Ready? {
        var p := ValuePlanned(mk, f, args);
        var rest := ItemsPlanned(mk, b.format, b.args, done + [b.value]);
        ps := [p] + rest;
        assert ps[1..] == rest && (done + [b.value]) + PlanValues(rest) == done + ([b.value] + PlanValues(rest));
      }
    }
  }

  lemma {:induction false} MembersPlanned(mk: Makers, f: string, args: seq<Given>, done: seq<Member>)
    returns (ms: seq<MemberPlan>, comma: bool)
    ensures var b := BuildMembers(mk, f, args, done);
      b.Ready? ==>
        && (forall m :: m in ms ==> MemberOk(mk, m)) && b.value == Struct(AllSet(done, PlanMembers(ms)))
        && f == MemberPlansK(ms, comma, "}" + b.format) && args == MemberPlansArgsK(ms, b.args)
        && (ms == [] <==> Peek(f) == '}')
    decreases |f|, 2
  {
    hide BuildValue, PlanOk, PlanK, PlanArgsK, PlanValue, SetMember, AllSet, PlanMembers, BuildMembers, MemberPlansK, MemberPlansArgsK;
    ms, comma := [], false;
    if BuildMembers(mk, f, args, done).Ready? {
      BuildMembersCases(mk, f, args, done);
      if Peek(f) == '}' {
        NoMembersPlanned(f, done);
      } else {
        var key := BuildValue(mk, f, args);
        var v := BuildValue(mk, key.format[1..], key.args);
        var f3 := AfterMember(v.format).value;
        var p := ValuePlanned(mk, f, args);
        var q := ValuePlanned(mk, key.format[1..], key.args);
        var rest, c := MembersPlanned(mk, f3, v.args, SetMember(done, key.value.str, v.value));
        ms := [MemberPlan(p, q)] + rest;
        comma := if rest == [] then Peek(v.format) == ',' else c;
        assert key.format == ":" + key.format[1..];
        OneMorePlanned(p, q, rest, c, v.format, f3, BuildMembers(mk, f, args, done), done);
      }
    }
  }

  lemma BuildMembersCases(mk: Makers, f: string, args: seq<Given>, done: seq<Member>)
    requires BuildMembers(mk, f, args, done).Ready?
    ensures Peek(f) == '}' ==> BuildMembers(mk, f, args, done) == Ready(Struct(done), f[1..], args)
    ensures Peek(f) != '}' ==>
              var key := BuildValue(mk, f, args);
              && key.Ready? && Peek(key.format) == ':' && key.value.Str?
              && var v := BuildValue(mk, key.format[1..], key.args);
                && v.Ready? && AfterMember(v.format).Some? && |AfterMember(v.format).value| < |f|
                && BuildMembers(mk, f, args, done)
                     == BuildMembers(mk, AfterMember(v.format).value, v.args, SetMember(done, key.value.str, v.value))
  {
    hide BuildValue, SetMember;
  }

  lemma NoMembersPlanned(f: string, done: seq<Member>)
    requires Peek(f) == '}'
    ensures f == MemberPlansK([], false, "}" + f[1..]) && AllSet(done, PlanMembers([])) == done
    ensures forall a :: MemberPlansArgsK([], a) == a
  {
    assert f == "}" + f[1..];
  }

  lemma OneMorePlanned(p: Plan, q: Plan, rest: seq<MemberPlan>, c: bool, after: string, f3: string, b: Built, done: seq<Member>)
    requires b.Ready? && f3 == MemberPlansK(rest, c, "}" + b.format) && AfterMember(after) == Some(f3) && PlanValue(p).Str?
    requires rest == [] <==> Peek(f3) == '}'
    ensures var ms, comma := [MemberPlan(p, q)] + rest, if rest == [] then Peek(after) == ',' else c;
      && MemberPlansK(ms, comma, "}" + b.format) == PlanK(p, ":" + PlanK(q, after))
      && (forall a :: MemberPlansArgsK(ms, a) == PlanArgsK(p, PlanArgsK(q, MemberPlansArgsK(rest, a))))
      && AllSet(done, PlanMembers(ms)) == AllSet(SetMember(done, PlanValue(p).str, PlanValue(q)), PlanMembers(rest))
  {
    hide PlanK, PlanArgsK, PlanValue, SetMember;
    var ms, comma := [MemberPlan(p, q)] + rest, if rest == [] then Peek(after) == ',' else c;
    assert ms[1..] == rest;
    if Peek(after) == ',' { assert after == "," + f3; } else { assert after == f3 == "" + f3; }
    var first := Member(PlanValue(p).str, PlanValue(q));
    assert PlanMembers(ms) == [first] + PlanMembers(rest);
    assert ([first] + PlanMembers(rest))[1..] == PlanMembers(rest);
  }

  /** The format and the front of the arguments carry out a plan for `v`. */
  ghost predicate IsPlanFor(mk: Makers, format: string, args: seq<Given>, v: Value) {
    exists p, rest, more :: PlanOk(mk, p) && Peek(rest) == '\0' && format == PlanK(p, rest) && args == PlanArgsK(p, more) && PlanValue(p) == v
  }

  /** Exactly the formats and arguments that make up a plan are built, each into the value
      planned. */
  lemma BuildExact(mk: Makers, format: string, args: seq<Given>, v: Value)
    ensures BuildAll(mk, format, args) == Ok(v) <==> IsPlanFor(mk, format, args, v)
  {
    hide BuildValue, PlanOk, PlanK, PlanArgsK, PlanValue;
    var q := ValuePlanned(mk, format, args);
    if IsPlanFor(mk, format, args, v) {
      var p, rest, more :| PlanOk(mk, p) && Peek(rest) == '\0' && format == PlanK(p, rest) && args == PlanArgsK(p, more) && PlanValue(p) == v;
      CarriedOut(mk, p, rest, more);
    }
  }
}
