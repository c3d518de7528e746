/** When decomposing succeeds, told by the types of values and the sizes of arrays, and how
building undoes it. */
module Rebuild {
  import opened Text
  import opened Utf8Text
  import opened Values
  import opened Lines
  import opened JsonLexer
  import opened Formats
  import opened Decompose
  import opened Build
  import opened Cells
  import opened Sharing
  import opened BuildInMemory

  // ---------------------------------------------------------------------
  // When decomposing succeeds

  /** The specifier for each type of value; none for datetimes and C pointers, whose
      specifiers are read by routines that are not part of this model. */
  function SpecifierOf(v: Value): Option<char> {
    match v
    case Int(_) => Some('i')
    case I8(_) => Some('I')
    case Bool(_) => Some('b')
    case Double(_) => Some('d')
    case Str(_) => Some('s')
    case Base64(_) => Some('6')
    case Nil => Some('n')
    case Array(_) => Some('A')
    case Struct(_) => Some('S')
    case _ => None
  }

  /** The specifiers whose readers are not part of this model. */
  predicate IsOutside(kind: char) { kind in {'t', 'p', '8', 'w'} }

  ghost predicate IsContainer(v: Value) { v.Array? || v.Struct? }

  /** Every part of `v` that `t` names has the type the specifier says; a string without a
      size holds no NUL. */
  ghost predicate TypesFit(v: Value, t: Tree)
    decreases t
  {
    match t
    case Ignored => true
    case NilLeaf => SpecifierOf(v) == Some('n')
    case Leaf(kind, _) => kind == 'V' || (if IsOutside(kind) then !IsContainer(v) else SpecifierOf(v) == Some(kind))
    case Sized(kind, _, sizeLoc) =>
      if kind == 'w' then !IsContainer(v) else SpecifierOf(v) == Some('s') && (sizeLoc.None? ==> '\0' !in v.str)
    case Bytes(_, _) => SpecifierOf(v) == Some('6')
    case ArrayOf(items, _) => v.Array? && forall i :: 0 <= i < |items| && i < |v.items| ==> TypesFit(v.items[i], items[i])
    case StructOf(members) =>
      v.Struct? && forall m :: m in members && ValueAt(v.members, m.key).Some? ==> TypesFit(ValueAt(v.members, m.key).value, m.tree)
  }

  /** Every array that `t` names has the items it wants, and every struct the members. */
  ghost predicate SizesFit(v: Value, t: Tree)
    decreases t
  {
    match t
    case ArrayOf(items, ignoreExcess) =>
      v.Array? ==>
        && |items| <= |v.items| && (|items| == |v.items| || ignoreExcess)
        && forall i :: 0 <= i < |items| ==> SizesFit(v.items[i], items[i])
    case StructOf(members) =>
      v.Struct? ==> forall m :: m in members ==> ValueAt(v.members, m.key).Some? && SizesFit(ValueAt(v.members, m.key).value, m.tree)
    case _ => true
  }

  /** The routines that are not part of this model read what they are given. */
  ghost predicate OutsideFits(rd: Readers, v: Value, t: Tree)
    decreases t
  {
    match t
    case Leaf(kind, _) =>
      IsOutside(kind) && !IsContainer(v) ==> if kind == '8' then rd.text(kind, v).Ok? else rd.plain(kind, v).Ok?
    case Sized(kind, _, _) => kind == 'w' && !IsContainer(v) ==> rd.text(kind, v).Ok?
    case ArrayOf(items, _) =>
      v.Array? ==> forall i :: 0 <= i < |items| && i < |v.items| ==> OutsideFits(rd, v.items[i], items[i])
    case StructOf(members) =>
      v.Struct? ==> forall m :: m in members && ValueAt(v.members, m.key).Some? ==> OutsideFits(rd, ValueAt(v.members, m.key).value, m.tree)
    case _ => true
  }

  /** How a result and the three conditions belong together. */
  ghost predicate Explained(ok: bool, code: FaultCode, types: bool, sizes: bool, outside: bool) {
    && (ok <==> types && sizes && outside)
    && (!ok && outside ==> code == TypeError || code == IndexError)
    && (!ok && types && outside ==> code == IndexError)
    && (!ok && sizes && outside ==> code == TypeError)
  }

  ghost function CodeOf<T>(r: Result<T>): FaultCode { if r.Fault? then r.code else InternalError }

  lemma LeafExplained(rd: Readers, v: Value, t: Tree)
    requires KindsOk(t) && t.Leaf?
    ensures Explained(ReadsV(rd, v, t).Ok?, CodeOf(ReadsV(rd, v, t)), TypesFit(v, t), SizesFit(v, t), OutsideFits(rd, v, t))
  {
    hide LeafV, Explained;
    LeafIsRead(rd, v, t.kind);
    OneExplained(LeafV(rd, t.kind, v).Ok?, CodeOf(LeafV(rd, t.kind, v)), TypesFit(v, t), OutsideFits(rd, v, t));
  }

  /** Each specifier reads its type of value. */
  lemma LeafIsRead(rd: Readers, v: Value, kind: char)
    requires IsLeafKind(kind)
    ensures var r := LeafV(rd, kind, v);
      && (kind == 'V' ==> r.Ok?)
      && (kind != 'V' && !IsOutside(kind) ==> (r.Ok? <==> SpecifierOf(v) == Some(kind)) && (r.Fault? ==> r.code == TypeError))
      && (IsOutside(kind) && IsContainer(v) ==> r == Fault(TypeError))
      && (IsOutside(kind) && !IsContainer(v) ==> (r.Ok? <==> if kind == '8' then rd.text(kind, v).Ok? else rd.plain(kind, v).Ok?))
  {}

  lemma OneExplained(ok: bool, code: FaultCode, types: bool, outside: bool)
    requires (ok <==> types && outside) && (!ok && outside ==> code == TypeError)
    ensures Explained(ok, code, types, true, outside)
  {}

  lemma OtherExplained(rd: Readers, v: Value, t: Tree)
    requires KindsOk(t) && !t.Leaf? && !t.ArrayOf? && !t.StructOf?
    ensures Explained(ReadsV(rd, v, t).Ok?, CodeOf(ReadsV(rd, v, t)), TypesFit(v, t), SizesFit(v, t), OutsideFits(rd, v, t))
  {}

  /** For every value and every tree: decomposing succeeds if and only if types and sizes
      fit and the outside routines succeed. Otherwise, if they do, the fault is a type
      fault or an index fault, and if only types or only sizes do not fit, it is that one. */
  lemma {:induction false} DecomposeExact(rd: Readers, v: Value, t: Tree)
    requires KindsOk(t)
    ensures Explained(ReadsV(rd, v, t).Ok?, CodeOf(ReadsV(rd, v, t)), TypesFit(v, t), SizesFit(v, t), OutsideFits(rd, v, t))
    decreases t, 1
  {
    hide ItemReadsV, MemberReadsV, ReadText, ReadPlain, Explained;
    match t
    case ArrayOf(items, _) =>
      if v.Array? && |items| <= |v.items| { ItemsExplained(rd, v.items[..|items|], items); }
      ArrayExplained(rd, v, t);
    case StructOf(members) =>
      if v.Struct? { MembersExplained(rd, v.members, members); }
      StructExplained(rd, v, t);
    case Leaf(_, _) => LeafExplained(rd, v, t);
    case _ => OtherExplained(rd, v, t);
  }

  ghost predicate ItemsExplain(rd: Readers, vs: seq<Value>, ts: seq<Tree>)
    requires |vs| == |ts|
  {
    var r := ItemReadsV(rd, vs, ts);
    Explained(r.Ok?, CodeOf(r), forall i :: 0 <= i < |ts| ==> TypesFit(vs[i], ts[i]), forall i :: 0 <= i < |ts| ==> SizesFit(vs[i], ts[i]),
      forall i :: 0 <= i < |ts| ==> OutsideFits(rd, vs[i], ts[i]))
  }

  ghost predicate MemberTypesFit(all: seq<Member>, m: Mbr) {
    var v := ValueAt(all, m.key); v.Some? ==> TypesFit(v.value, m.tree)
  }

  ghost predicate MemberSizesFit(all: seq<Member>, m: Mbr) {
    var v := ValueAt(all, m.key); v.Some? && SizesFit(v.value, m.tree)
  }

  ghost predicate MemberOutsideFits(rd: Readers, all: seq<Member>, m: Mbr) {
    var v := ValueAt(all, m.key); v.Some? ==> OutsideFits(rd, v.value, m.tree)
  }

  ghost predicate MembersExplain(rd: Readers, all: seq<Member>, ms: seq<Mbr>) {
    var r := MemberReadsV(rd, all, ms);
    Explained(r.Ok?, CodeOf(r), AllTypesFit(all, ms), AllSizesFit(all, ms), AllOutsideFit(rd, all, ms))
  }

  ghost predicate AllTypesFit(all: seq<Member>, ms: seq<Mbr>) { forall m :: m in ms ==> MemberTypesFit(all, m) }

  ghost predicate AllSizesFit(all: seq<Member>, ms: seq<Mbr>) { forall m :: m in ms ==> MemberSizesFit(all, m) }

  ghost predicate AllOutsideFit(rd: Readers, all: seq<Member>, ms: seq<Mbr>) { forall m :: m in ms ==> MemberOutsideFits(rd, all, m) }

  lemma LastFits(rd: Readers, all: seq<Member>, ms: seq<Mbr>)
    requires ms != []
    ensures var n := |ms| - 1;
      && (AllTypesFit(all, ms) <==> AllTypesFit(all, ms[..n]) && MemberTypesFit(all, ms[n]))
      && (AllSizesFit(all, ms) <==> AllSizesFit(all, ms[..n]) && MemberSizesFit(all, ms[n]))
      && (AllOutsideFit(rd, all, ms) <==> AllOutsideFit(rd, all, ms[..n]) && MemberOutsideFits(rd, all, ms[n]))
  {
    hide MemberTypesFit, MemberSizesFit, MemberOutsideFits;
    assert ms == ms[..|ms| - 1] + [ms[|ms| - 1]];
  }

  lemma ArrayExplained(rd: Readers, v: Value, t: Tree)
    requires t.ArrayOf?
    requires v.Array? && |t.items| <= |v.items| ==> ItemsExplain(rd, v.items[..|t.items|], t.items)
    ensures Explained(ReadsV(rd, v, t).Ok?, CodeOf(ReadsV(rd, v, t)), TypesFit(v, t), SizesFit(v, t), OutsideFits(rd, v, t))
  {
    hide ItemReadsV;
    if v.Array? && |t.items| <= |v.items| {
      var vs := v.items[..|t.items|];
      assert forall i :: 0 <= i < |t.items| ==> vs[i] == v.items[i];
    }
  }

  lemma StructExplained(rd: Readers, v: Value, t: Tree)
    requires t.StructOf?
    requires v.Struct? ==> MembersExplain(rd, v.members, t.members)
    ensures Explained(ReadsV(rd, v, t).Ok?, CodeOf(ReadsV(rd, v, t)), TypesFit(v, t), SizesFit(v, t), OutsideFits(rd, v, t))
  {
    hide MemberReadsV;
  }

  lemma BothExplained(a: Result<seq<OutV>>, b: Result<seq<OutV>>, at: bool, az: bool, ao: bool, bt: bool, bz: bool, bo: bool)
    requires Explained(a.Ok?, CodeOf(a), at, az, ao) && Explained(b.Ok?, CodeOf(b), bt, bz, bo)
    ensures var r := ThenV(a, b); Explained(r.Ok?, CodeOf(r), at && bt, az && bz, ao && bo)
  {}

  lemma {:induction false} ItemsExplained(rd: Readers, vs: seq<Value>, ts: seq<Tree>)
    requires |vs| == |ts| && forall x :: x in ts ==> KindsOk(x)
    ensures ItemsExplain(rd, vs, ts)
    decreases ts, 0
  {
    hide ReadsV, TypesFit, SizesFit, OutsideFits, Explained, KindsOk, ThenV;
    if ts == [] {
      NothingExplained();
    } else {
      var n := |ts| - 1;
      assert ts[n] in ts;
      ItemsExplained(rd, vs[..n], ts[..n]);
      DecomposeExact(rd, vs[n], ts[n]);
      var a, b := ItemReadsV(rd, vs[..n], ts[..n]), ReadsV(rd, vs[n], ts[n]);
      BothExplained(a, b, forall i :: 0 <= i < n ==> TypesFit(vs[..n][i], ts[..n][i]),
        forall i :: 0 <= i < n ==> SizesFit(vs[..n][i], ts[..n][i]), forall i :: 0 <= i < n ==> OutsideFits(rd, vs[..n][i], ts[..n][i]),
        TypesFit(vs[n], ts[n]), SizesFit(vs[n], ts[n]), OutsideFits(rd, vs[n], ts[n]));
    }
  }

  lemma NothingExplained()
    ensures Explained(true, InternalError, true, true, true)
  {}

  lemma {:induction false} MembersExplained(rd: Readers, all: seq<Member>, ms: seq<Mbr>)
    requires forall m :: m in ms ==> KindsOk(m.tree)
    ensures MembersExplain(rd, all, ms)
    decreases ms, 0
  {
    hide ReadsV, MemberTypesFit, MemberSizesFit, MemberOutsideFits, AllTypesFit, AllSizesFit, AllOutsideFit, Explained, KindsOk, ThenV,
      ValueAt;
    if ms == [] {
      NoneToFit(rd, all);
      NothingExplained();
    } else {
      var n := |ms| - 1;
      assert ms[n] in ms;
      LastFits(rd, all, ms);
      MembersExplained(rd, all, ms[..n]);
      var x := ValueAt(all, ms[n].key);
      var b := if x.None? then Fault(IndexError) else ReadsV(rd, x.value, ms[n].tree);
      MemberExplained(rd, all, ms[n]);
      BothExplained(MemberReadsV(rd, all, ms[..n]), b, AllTypesFit(all, ms[..n]), AllSizesFit(all, ms[..n]),
        AllOutsideFit(rd, all, ms[..n]), MemberTypesFit(all, ms[n]), MemberSizesFit(all, ms[n]), MemberOutsideFits(rd, all, ms[n]));
    }
  }

  lemma NoneToFit(rd: Readers, all: seq<Member>)
    ensures AllTypesFit(all, []) && AllSizesFit(all, []) && AllOutsideFit(rd, all, [])
  {}

  lemma {:induction false} MemberExplained(rd: Readers, all: seq<Member>, m: Mbr)
    requires KindsOk(m.tree)
    ensures var x := ValueAt(all, m.key);
      var r := if x.None? then Fault(IndexError) else ReadsV(rd, x.value, m.tree);
      Explained(r.Ok?, CodeOf(r), MemberTypesFit(all, m), MemberSizesFit(all, m), MemberOutsideFits(rd, all, m))
    decreases m, 2
  {
    hide ReadsV, TypesFit, SizesFit, OutsideFits, KindsOk, ValueAt;
    var x := ValueAt(all, m.key);
    if x.Some? { DecomposeExact(rd, x.value, m.tree); }
  }

  /** Of the items of an array, or the members of a struct, the first bad one tells the
      fault. */
  lemma {:induction false} FirstBadItem(rd: Readers, vs: seq<Value>, ts: seq<Tree>, k: nat)
    requires |vs| == |ts| && k < |ts| && forall i :: 0 <= i < k ==> ReadsV(rd, vs[i], ts[i]).Ok?
    requires ReadsV(rd, vs[k], ts[k]).Fault?
    ensures ItemReadsV(rd, vs, ts) == Fault(ReadsV(rd, vs[k], ts[k]).code)
    decreases |ts|
  {
    hide ReadsV;
    var n := |ts| - 1;
    if k < n { FirstBadItem(rd, vs[..n], ts[..n], k); } else { AllItemsRead(rd, vs[..n], ts[..n]); }
  }

  lemma {:induction false} AllItemsRead(rd: Readers, vs: seq<Value>, ts: seq<Tree>)
    requires |vs| == |ts| && forall i :: 0 <= i < |ts| ==> ReadsV(rd, vs[i], ts[i]).Ok?
    ensures ItemReadsV(rd, vs, ts).Ok?
    decreases |ts|
  {
    hide ReadsV;
    if ts != [] { AllItemsRead(rd, vs[..|ts| - 1], ts[..|ts| - 1]); }
  }

  /** What one member of a struct gives. */
  ghost function OneRead(rd: Readers, all: seq<Member>, m: Mbr): Result<seq<OutV>> {
    var v := ValueAt(all, m.key); if v.None? then Fault(IndexError) else ReadsV(rd, v.value, m.tree)
  }

  lemma {:induction false} FirstBadMember(rd: Readers, all: seq<Member>, ms: seq<Mbr>, k: nat)
    requires k < |ms| && OneRead(rd, all, ms[k]).Fault? && forall i :: 0 <= i < k ==> OneRead(rd, all, ms[i]).Ok?
    ensures MemberReadsV(rd, all, ms) == Fault(OneRead(rd, all, ms[k]).code)
    decreases |ms|
  {
    hide ReadsV, ValueAt;
    var n := |ms| - 1;
    if k < n { FirstBadMember(rd, all, ms[..n], k); } else { AllMembersRead(rd, all, ms[..n]); }
  }

  lemma {:induction false} AllMembersRead(rd: Readers, all: seq<Member>, ms: seq<Mbr>)
    requires forall i :: 0 <= i < |ms| ==> OneRead(rd, all, ms[i]).Ok?
    ensures MemberReadsV(rd, all, ms).Ok?
    decreases |ms|
  {
    hide ReadsV, ValueAt;
    if ms != [] { AllMembersRead(rd, all, ms[..|ms| - 1]); }
  }

  /** The same in memory, for a value that is there. */
  lemma DecomposeExactInMemory(rd: Readers, mem: Memory, id: Id, v: Value, t: Tree)
    requires KindsOk(t) && Denotes(mem, id, v)
    ensures var r := Reads(rd, mem, id, t);
      Explained(r.Ok?, CodeOf(r), TypesFit(v, t), SizesFit(v, t), OutsideFits(rd, v, t))
  {
    hide Reads, ReadsV, TypesFit, SizesFit, OutsideFits, KindsOk, Denotes, Explained;
    ReadsSame(rd, mem, id, v, t);
    DecomposeExact(rd, v, t);
  }

  // ---------------------------------------------------------------------
  // Building undoes decomposing

  /** The argument that builds what was stored. */
  function GivenOf(s: Stored): Given {
    match s
    case PlainV(v) => Number(v)
    case TextV(text) => Chars(text)
    case CountV(n) => Size(n)
    case WholeV(v) => Whole(v)
  }

  /** What was stored for `t`, as the list of arguments that builds it again, with the keys
      of members; and what was stored after that. */
  function GivenFrom(t: Tree, os: seq<OutV>): (seq<Given>, seq<OutV>)
    decreases t, 0
  {
    match t
    case Ignored => ([], os)
    case NilLeaf => ([], os)
    case Leaf(_, _) => if os == [] then ([], []) else ([GivenOf(os[0].stored)], os[1..])
    case Sized(_, _, sizeLoc) => TextFrom(sizeLoc.Some?, os)
    case Bytes(_, _) => TextFrom(true, os)
    case ArrayOf(items, _) => ItemsFrom(items, os)
    case StructOf(members) => MembersFrom(members, os)
  }

  function TextFrom(sized: bool, os: seq<OutV>): (seq<Given>, seq<OutV>) {
    if sized then
      if |os| < 2 then ([], []) else ([GivenOf(os[0].stored), GivenOf(os[1].stored)], os[2..])
    else
      if os == [] then ([], []) else ([GivenOf(os[0].stored)], os[1..])
  }

  function ItemsFrom(ts: seq<Tree>, os: seq<OutV>): (seq<Given>, seq<OutV>)
    decreases ts, 0
  {
    if ts == [] then ([], os)
    else
      var (a, left) := GivenFrom(ts[0], os);
      var (b, rest) := ItemsFrom(ts[1..], left);
      (a + b, rest)
  }

  function MembersFrom(ms: seq<Mbr>, os: seq<OutV>): (seq<Given>, seq<OutV>)
    decreases ms, 0
  {
    if ms == [] then ([], os)
    else
      var (a, left) := GivenFrom(ms[0].tree, os);
      var (b, rest) := MembersFrom(ms[1..], left);
      ([Chars(ms[0].key)] + a + b, rest)
  }

  /** The part of `v` that `t` names: of a struct, the members named, in that order. */
  function Selected(v: Value, t: Tree): Value
    decreases t, 0
  {
    match t
    case ArrayOf(items, _) => if v.Array? && |v.items| == |items| then Array(SelectedItems(v.items, items)) else v
    case StructOf(members) => if v.Struct? then Struct(SelectedMembers(v.members, members)) else v
    case _ => v
  }

  function SelectedItems(vs: seq<Value>, ts: seq<Tree>): (rs: seq<Value>)
    requires |vs| == |ts|
    ensures |rs| == |ts|
    decreases ts, 0
  {
    if ts == [] then [] else [Selected(vs[0], ts[0])] + SelectedItems(vs[1..], ts[1..])
  }

  function SelectedMembers(all: seq<Member>, ms: seq<Mbr>): (rs: seq<Member>)
    ensures |rs| == |ms| && forall i :: 0 <= i < |ms| ==> rs[i].key == ms[i].key
    decreases ms, 0
  {
    if ms == [] then []
    else
      var v := ValueAt(all, ms[0].key);
      [Member(ms[0].key, if v.Some? then Selected(v.value, ms[0].tree) else Nil)] + SelectedMembers(all, ms[1..])
  }

  /** `t` names all there is in the arrays and ignores nothing. */
  ghost predicate Complete(t: Tree)
    decreases t
  {
    match t
    case Ignored => false
    case ArrayOf(items, ignoreExcess) => !ignoreExcess && forall x :: x in items ==> Complete(x)
    case StructOf(members) => forall m :: m in members ==> Complete(m.tree)
    case _ => true
  }

  /** The texts that `t` names are ones the library would make: of UCS-2 characters with
      their line delimiters as LF; and the outside routines make again what they read. */
  ghost predicate Remade(mk: Makers, rd: Readers, v: Value, t: Tree)
    decreases t, 0
  {
    match t
    case Leaf(kind, _) =>
      if kind == '8' then rd.text(kind, v).Ok? && mk.text(kind, CString(rd.text(kind, v).value)) == Ok(v)
      else kind in {'V', 'A', 'S', 'i', 'b', 'd', 'I'} || (rd.plain(kind, v).Ok? && mk.plain(kind, rd.plain(kind, v).value) == Ok(v))
    case Sized(kind, _, sizeLoc) =>
      if kind == 's' then v.Str? && ValidUtf8(v.str) && Normalise(v.str) == v.str
      else
        && rd.text('w', v).Ok?
        && var text := rd.text('w', v).value; mk.text(kind, if sizeLoc.Some? then text else CString(text)) == Ok(v)
    case ArrayOf(items, _) => v.Array? && |v.items| == |items| && ItemsRemade(mk, rd, v.items, items)
    case StructOf(members) => v.Struct? && MembersRemade(mk, rd, v.members, members)
    case _ => true
  }

  function CString(text: string): string { text[..UpToNul(text)] }

  ghost predicate ItemsRemade(mk: Makers, rd: Readers, vs: seq<Value>, ts: seq<Tree>)
    requires |vs| == |ts|
    decreases ts, 0
  {
    ts == [] || (Remade(mk, rd, vs[0], ts[0]) && ItemsRemade(mk, rd, vs[1..], ts[1..]))
  }

  ghost predicate MembersRemade(mk: Makers, rd: Readers, all: seq<Member>, ms: seq<Mbr>)
    decreases ms, 0
  {
    ms == [] ||
    (&& ValueAt(all, ms[0].key).Some? && Remade(mk, rd, ValueAt(all, ms[0].key).value, ms[0].tree)
     && MembersRemade(mk, rd, all, ms[1..]))
  }

  /** What is built, if anything, takes just this format and these arguments; and it is
      `v` if and only if `same`. */
  ghost predicate Rebuilds(b: Built, v: Value, k: string, more: seq<Given>, same: bool) {
    (b.Ready? ==> b.format == k && b.args == more) && (b == Ready(v, k, more) <==> same)
  }

  lemma LeafRebuilt(mk: Makers, rd: Readers, v: Value, t: Tree, k: string, rest: seq<OutV>, more: seq<Given>)
    requires t.Leaf? && KindsOk(t) && ReadsV(rd, v, t).Ok?
    ensures var (g, left) := GivenFrom(t, ReadsV(rd, v, t).value + rest);
      left == rest && Rebuilds(BuildValue(mk, BuildK(t, k), g + more), v, k, more, Remade(mk, rd, v, t))
  {
    hide BuildItems, BuildMembers, UpToNul;
    HeadTail(BuildK(t, k), t.kind, k);
    var os := ReadsV(rd, v, t).value;
    HeadTail(os + rest, os[0], rest);
    HeadTail([GivenOf(os[0].stored)] + more, GivenOf(os[0].stored), more);
  }

  lemma TextRebuilt(mk: Makers, rd: Readers, v: Value, t: Tree, k: string, rest: seq<OutV>, more: seq<Given>)
    requires (t.Sized? || t.Bytes?) && KindsOk(t) && ReadsV(rd, v, t).Ok? && Peek(k) != '#'
    ensures var (g, left) := GivenFrom(t, ReadsV(rd, v, t).value + rest);
      left == rest && Rebuilds(BuildValue(mk, BuildK(t, k), g + more), v, k, more, Remade(mk, rd, v, t))
  {
    hide BuildItems, BuildMembers, UpToNul, Normalise, ValidUtf8;
    var os := ReadsV(rd, v, t).value;
    var sizeLoc := if t.Bytes? then Some(t.countLoc) else t.sizeLoc;
    TextTaken(os, sizeLoc, rest, more);
    var text := os[0].stored.text;
    assert text[..|text|] == text;
    if t.Bytes? {
      HeadTail(BuildK(t, k), '6', k);
    } else {
      var args := GivenFrom(t, os + rest).0 + more;
      if t.kind == 's' && t.sizeLoc.None? { NoNulInside(text); }
      SizedBuilt(mk, t, k, args);
    }
  }

  /** A string specifier takes its text, and perhaps its size. */
  lemma SizedBuilt(mk: Makers, t: Tree, k: string, args: seq<Given>)
    requires t.Sized? && KindsOk(t) && Peek(k) != '#' && args != [] && TextGiven(args, t.sizeLoc.Some?).Some?
    ensures var made := MakeText(mk, t.kind, TextGiven(args, t.sizeLoc.Some?).value);
      BuildValue(mk, BuildK(t, k), args) == Finish(made, k, if t.sizeLoc.Some? then args[2..] else args[1..])
  {
    hide BuildItems, BuildMembers, UpToNul, MakeText;
    HeadTail(BuildK(t, k), t.kind, if t.sizeLoc.Some? then "#" + k else k);
    HeadTail("#" + k, '#', k);
  }

  /** A text and its size, or a text alone, are taken from what is stored, and given. */
  lemma TextTaken(os: seq<OutV>, sizeLoc: Option<nat>, rest: seq<OutV>, more: seq<Given>)
    requires os != [] && os[0].stored.TextV? && os == [os[0]] + SizeV(sizeLoc, |os[0].stored.text|)
    ensures var (g, left) := TextFrom(sizeLoc.Some?, os + rest);
      var text := os[0].stored.text;
      && left == rest && g != [] && (g + more)[0] == Chars(text) && (sizeLoc.Some? ==> |g| == 2 && (g + more)[1] == Size(|text|))
      && (sizeLoc.None? ==> |g| == 1) && (g + more)[|g|..] == more
  {
    assert (os + rest)[|os|..] == rest && (os + rest)[0] == os[0];
    if sizeLoc.Some? { assert (os + rest)[1] == os[1]; }
  }

  /** For every value and every tree that names all there is: when decomposing succeeds,
      building from the tree's format and the list that was stored gives the part of the
      value that the tree names, if and only if its texts are ones the library would make
      and the outside routines make again what they read. */
  lemma {:induction false} BuildUndoesDecompose(mk: Makers, rd: Readers, v: Value, t: Tree, k: string, rest: seq<OutV>, more: seq<Given>)
    requires KindsOk(t) && KeysOk(t) && Complete(t) && Peek(k) != '#' && ReadsV(rd, v, t).Ok?
    ensures var (g, left) := GivenFrom(t, ReadsV(rd, v, t).value + rest);
      left == rest && Rebuilds(BuildValue(mk, BuildK(t, k), g + more), Selected(v, t), k, more, Remade(mk, rd, v, t))
    decreases t, 1
  {
    hide BuildItems, BuildMembers, BuildItemsK, BuildMembersK, ItemReadsV, MemberReadsV, ItemsFrom, MembersFrom, ItemsRemade, MembersRemade,
      SelectedItems, SelectedMembers;
    match t
    case NilLeaf =>
      HeadTail(BuildK(t, k), 'n', k);
      assert [] + more == more && [] + rest == rest;
    case Leaf(_, _) => LeafRebuilt(mk, rd, v, t, k, rest, more);
    case Sized(_, _, _) => TextRebuilt(mk, rd, v, t, k, rest, more);
    case Bytes(_, _) => TextRebuilt(mk, rd, v, t, k, rest, more);
    case ArrayOf(items, _) =>
      HeadTail(BuildK(t, k), '(', BuildItemsK(items, ")" + k));
      assert v.items[..|items|] == v.items;
      var built := ItemsRebuilt(mk, rd, v.items, items, k, rest, more, []);
      assert [] + built == built;
    case StructOf(members) =>
      HeadTail(BuildK(t, k), '{', BuildMembersK(members, "}" + k));
      var built := MembersRebuilt(mk, rd, v.members, members, k, rest, more, []);
      assert [] + built == built;
  }

  lemma {:induction false} ItemsRebuilt(mk: Makers, rd: Readers, vs: seq<Value>, ts: seq<Tree>, k: string, rest: seq<OutV>,
      more: seq<Given>, done: seq<Value>) returns (built: seq<Value>)
    requires |vs| == |ts| && (forall x :: x in ts ==> KindsOk(x) && KeysOk(x) && Complete(x)) && ItemReadsV(rd, vs, ts).Ok?
    ensures var (g, left) := ItemsFrom(ts, ItemReadsV(rd, vs, ts).value + rest);
      var b := BuildItems(mk, BuildItemsK(ts, ")" + k), g + more, done);
      && left == rest && |built| == |ts| && (b.Ready? ==> b == Ready(Array(done + built), k, more))
      && (b.Ready? && built == SelectedItems(vs, ts) <==> ItemsRemade(mk, rd, vs, ts))
    decreases ts, 0
  {
    hide BuildValue, BuildK, ReadsV, KindsOk, KeysOk, Complete, Remade, GivenFrom, Selected, ItemReadsV;
    if ts == [] {
      built := [];
      NothingRead(rd);
      assert done + [] == done && [] + more == more && [] + rest == rest;
      HeadTail(")" + k, ')', k);
    } else {
      HeadAndTail(ts);
      assert [vs[0]] + vs[1..] == vs && [ts[0]] + ts[1..] == ts;
      ItemsCons(rd, vs[0], vs[1..], ts[0], ts[1..]);
      var x, xs := ReadsV(rd, vs[0], ts[0]).value, ItemReadsV(rd, vs[1..], ts[1..]).value;
      Assoc(x, xs, rest);
      var (g0, _) := GivenFrom(ts[0], x + (xs + rest));
      var (g1, _) := ItemsFrom(ts[1..], xs + rest);
      Assoc(g0, g1, more);
      var f := BuildItemsK(ts[1..], ")" + k);
      if ts[1..] != [] { BuildNotEnd(ts[1], BuildItemsK(ts[1..][1..], ")" + k)); }
      BuildUndoesDecompose(mk, rd, vs[0], ts[0], f, xs + rest, g1 + more);
      BuildNotEnd(ts[0], f);
      var b := BuildValue(mk, BuildK(ts[0], f), g0 + (g1 + more));
      var first := if b.Ready? then b.value else Nil;
      var others := ItemsRebuilt(mk, rd, vs[1..], ts[1..], k, rest, more, done + [first]);
      built := [first] + others;
      Assoc(done, [first], others);
      ConsEqual(first, others, Selected(vs[0], ts[0]), SelectedItems(vs[1..], ts[1..]));
    }
  }

  lemma ConsEqual<T>(a: T, s: seq<T>, b: T, t: seq<T>)
    ensures [a] + s == [b] + t <==> a == b && s == t
  {
    if [a] + s == [b] + t { assert ([a] + s)[0] == ([b] + t)[0] && ([a] + s)[1..] == s && ([b] + t)[1..] == t; }
  }

  lemma NothingRead(rd: Readers)
    ensures ItemReadsV(rd, [], []) == Ok([])
  {}

  lemma {:induction false} MembersCons(rd: Readers, all: seq<Member>, ms: seq<Mbr>)
    requires ms != []
    ensures var x := ValueAt(all, ms[0].key);
      MemberReadsV(rd, all, ms) == ThenV(if x.None? then Fault(IndexError) else ReadsV(rd, x.value, ms[0].tree), MemberReadsV(rd, all, ms[1..]))
    decreases |ms|
  {
    hide ReadsV, ValueAt;
    var x := ValueAt(all, ms[0].key);
    var a := if x.None? then Fault(IndexError) else ReadsV(rd, x.value, ms[0].tree);
    if |ms| == 1 {
      assert ms[..0] == [] && ms[1..] == [];
      assert MemberReadsV(rd, all, []) == Ok([]);
      if a.Ok? { assert [] + a.value == a.value == a.value + []; }
    } else {
      var n := |ms| - 1;
      MembersCons(rd, all, ms[..n]);
      assert ms[..n][1..] == ms[1..][..n - 1] && ms[1..][n - 1] == ms[n];
      var y := ValueAt(all, ms[n].key);
      ThenAssoc(a, MemberReadsV(rd, all, ms[1..][..n - 1]), if y.None? then Fault(IndexError) else ReadsV(rd, y.value, ms[n].tree));
    }
  }

  lemma MemberRefused(mk: Makers, key: string, g: string, args: seq<Given>, done: seq<Member>)
    requires KeyOk(key) && args != [] && args[0] == Chars(key) && BuildValue(mk, g, args[1..]).Refused?
    ensures BuildMembers(mk, "s:" + g, args, done).Refused?
  {
    hide BuildValue, KeyOk, SetMember;
    KeyBuilt(mk, key, g, args);
  }

  lemma KeysLeft(done: seq<Member>, key: string, v: Value, ms: seq<Mbr>)
    requires ms != [] && ms[0].key == key && forall i, j :: 0 <= i < j < |ms| ==> ms[i].key != ms[j].key
    requires forall d, m :: d in done && m in ms ==> d.key != m.key
    ensures SetMember(done, key, v) == done + [Member(key, v)]
    ensures forall i, j :: 0 <= i < j < |ms[1..]| ==> ms[1..][i].key != ms[1..][j].key
    ensures forall d, m :: d in done + [Member(key, v)] && m in ms[1..] ==> d.key != m.key
  {
    KeysApart(done, ms, v);
    SetNewMember(done, key, v);
  }

  lemma {:induction false} MembersRebuilt(mk: Makers, rd: Readers, all: seq<Member>, ms: seq<Mbr>, k: string, rest: seq<OutV>,
      more: seq<Given>, done: seq<Member>) returns (built: seq<Member>)
    requires (forall m :: m in ms ==> KindsOk(m.tree) && KeyOk(m.key) && KeysOk(m.tree) && Complete(m.tree)) && MemberReadsV(rd, all, ms).Ok?
    requires forall i, j :: 0 <= i < j < |ms| ==> ms[i].key != ms[j].key
    requires forall d, m :: d in done && m in ms ==> d.key != m.key
    ensures var (g, left) := MembersFrom(ms, MemberReadsV(rd, all, ms).value + rest);
      var b := BuildMembers(mk, BuildMembersK(ms, "}" + k), g + more, done);
      && left == rest && |built| == |ms| && (b.Ready? ==> b == Ready(Struct(done + built), k, more))
      && (b.Ready? && built == SelectedMembers(all, ms) <==> MembersRemade(mk, rd, all, ms))
    decreases ms, 0
  {
    hide BuildValue, BuildMembers, BuildK, ReadsV, KindsOk, KeysOk, KeyOk, Complete, Remade, GivenFrom, Selected, MemberReadsV, ValueAt, SetMember;
    if ms == [] {
      built := [];
      NoMembersRead(rd, all);
      NoMembersBuilt(mk, rd, k, more, done);
      assert done + [] == done && [] + more == more && [] + rest == rest;
    } else {
      var m := ms[0];
      HeadAndTail(ms);
      MembersCons(rd, all, ms);
      var v := ValueAt(all, m.key).value;
      var x, xs := ReadsV(rd, v, m.tree).value, MemberReadsV(rd, all, ms[1..]).value;
      Assoc(x, xs, rest);
      var (g0, _) := GivenFrom(m.tree, x + (xs + rest));
      var (g1, _) := MembersFrom(ms[1..], xs + rest);
      var f := BuildMembersK(ms[1..], "}" + k);
      MemberGiven(m.key, g0, g1, more);
      HeadTail("," + f, ',', f);
      BuildUndoesDecompose(mk, rd, v, m.tree, "," + f, xs + rest, g1 + more);
      var first := MemberRebuilt(mk, m.key, BuildK(m.tree, "," + f), f, g0 + (g1 + more), done);
      KeysLeft(done, m.key, first.value, ms);
      var others := MembersRebuilt(mk, rd, all, ms[1..], k, rest, more, done + [first]);
      built := [first] + others;
      Assoc(done, [first], others);
      ConsEqual(first, others, Member(m.key, Selected(v, m.tree)), SelectedMembers(all, ms[1..]));
    }
  }

  lemma MemberGiven(key: string, g0: seq<Given>, g1: seq<Given>, more: seq<Given>)
    ensures ([Chars(key)] + g0 + g1) + more == [Chars(key)] + (g0 + (g1 + more))
  {}

  /** One member of a struct built, or the struct refused. */
  lemma MemberRebuilt(mk: Makers, key: string, g: string, f: string, args: seq<Given>, done: seq<Member>) returns (first: Member)
    requires KeyOk(key)
    requires var b := BuildValue(mk, g, args); b.Ready? ==> b.format == "," + f
    ensures var b := BuildValue(mk, g, args);
      b.Ready? ==> BuildMembers(mk, "s:" + g, [Chars(key)] + args, done) == BuildMembers(mk, f, b.args, SetMember(done, key, b.value))
    ensures var b := BuildValue(mk, g, args); b.Refused? ==> BuildMembers(mk, "s:" + g, [Chars(key)] + args, done).Refused?
    ensures var b := BuildValue(mk, g, args); first == Member(key, if b.Ready? then b.value else Nil)
  {
    hide BuildValue, KeyOk, SetMember, BuildMembers;
    var b := BuildValue(mk, g, args);
    first := Member(key, if b.Ready? then b.value else Nil);
    HeadTail([Chars(key)] + args, Chars(key), args);
    if b.Ready? { OneMemberBuilt(mk, key, g, f, [Chars(key)] + args, done); } else { MemberRefused(mk, key, g, [Chars(key)] + args, done); }
  }

  lemma NoMembersRead(rd: Readers, all: seq<Member>)
    ensures MemberReadsV(rd, all, []) == Ok([])
  {}
}
