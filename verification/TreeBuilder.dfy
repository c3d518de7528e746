/** The event handlers of xmlrpc-c/src/xmlrpc_expat.c, which build the element tree.

Elements are kept in one sequence; the index of an element stands for a pointer to
it. */
module TreeBuilder {
  import opened Text
  import opened XmlReader

  /** `cdata` gets a trailing NUL when the element ends. */
  datatype Node = Node(name: string, cdata: string, children: seq<nat>, parent: Option<nat>)

  datatype Context = Context(nodes: seq<Node>, root: Option<nat>, current: Option<nat>)

  const START := Context([], None, None)

  /** What the handlers assert: there is a current element, except before the root; an end
      tag names it; and only the root has no parent. */
  predicate Expected(c: Context, e: Event) {
    match e
    case Start(_) => c.root.None? || (c.current.Some? && c.current.value < |c.nodes|)
    case End(name) =>
      && c.current.Some? && c.current.value < |c.nodes| && c.nodes[c.current.value].name == name
      && (c.nodes[c.current.value].parent.Some? || c.current == c.root)
    case Chars(_) => c.current.Some? && c.current.value < |c.nodes|
  }

  /** The context after an event. */
  function Handle(c: Context, e: Event): Context
    requires Expected(c, e)
  {
    match e
    case Start(name) =>
      var id := |c.nodes|;
      if c.root.None? then Context(c.nodes + [Node(name, "", [], None)], Some(id), Some(id))
      else
        var p := c.current.value;
        Context(c.nodes[p := c.nodes[p].(children := c.nodes[p].children + [id])] + [Node(name, "", [], Some(p))],
                c.root, Some(id))
    case End(name) =>
      var p := c.current.value;
      Context(c.nodes[p := c.nodes[p].(cdata := c.nodes[p].cdata + ['\0'])], c.root, c.nodes[p].parent)
    case Chars(text) =>
      var p := c.current.value;
      c.(nodes := c.nodes[p := c.nodes[p].(cdata := c.nodes[p].cdata + text)])
  }

  /** All events handled in order; None if some event breaks an assertion. */
  function Run(c: Context, es: seq<Event>): Option<Context>
    decreases |es|
  {
    if es == [] then Some(c)
    else if !Expected(c, es[0]) then None
    else Run(Handle(c, es[0]), es[1..])
  }

  // ---------------------------------------------------------------------
  // The element a node denotes

  function Cdata(n: Node): string { if n.cdata == "" then "" else n.cdata[..|n.cdata| - 1] }

  function Denote(nodes: seq<Node>, id: nat): Elem
    decreases |nodes| - id, 1
  {
    if id >= |nodes| then Elem("", "", [])
    else Elem(nodes[id].name, Cdata(nodes[id]), DenoteAll(nodes, id, nodes[id].children))
  }

  function DenoteAbove(nodes: seq<Node>, low: nat, x: nat): Elem
    decreases |nodes| - low, 0, 0
  {
    if low < x < |nodes| then Denote(nodes, x) else Elem("", "", [])
  }

  function DenoteAll(nodes: seq<Node>, low: nat, ids: seq<nat>): (es: seq<Elem>)
    ensures |es| == |ids|
    ensures forall i :: 0 <= i < |es| ==> es[i] == DenoteAbove(nodes, low, ids[i])
    decreases |nodes| - low, 0, 1
  {
    seq(|ids|, i requires 0 <= i < |ids| => DenoteAbove(nodes, low, ids[i]))
  }

  /** The nodes from `lo` to `hi` have their children above themselves and below `hi`. */
  ghost predicate Closed(nodes: seq<Node>, lo: nat, hi: nat) {
    hi <= |nodes| && forall j, x :: lo <= j < hi && x in nodes[j].children ==> j < x < hi
  }

  ghost predicate SameFrom(a: seq<Node>, b: seq<Node>, lo: nat, hi: nat) {
    hi <= |a| && hi <= |b| && forall j :: lo <= j < hi ==> a[j] == b[j]
  }

  lemma {:induction false} DenoteSame(a: seq<Node>, b: seq<Node>, lo: nat, hi: nat, id: nat)
    requires Closed(a, lo, hi) && SameFrom(a, b, lo, hi) && lo <= id < hi
    ensures Denote(a, id) == Denote(b, id)
    decreases hi - id
  {
    var ids := a[id].children;
    forall i | 0 <= i < |ids| ensures DenoteAbove(a, id, ids[i]) == DenoteAbove(b, id, ids[i]) {
      assert ids[i] in ids;
      DenoteSame(a, b, lo, hi, ids[i]);
    }
    assert DenoteAll(a, id, ids) == DenoteAll(b, id, ids);
  }

  /** Each node from the second on is in its parent's list. */
  ghost predicate Owned(nodes: seq<Node>) {
    forall q :: 1 <= q < |nodes| ==>
      nodes[q].parent.Some? && nodes[q].parent.value < |nodes| && q in nodes[nodes[q].parent.value].children
  }

  /** The children of a node name it as their parent. */
  ghost predicate Parented(nodes: seq<Node>) {
    forall p, x {:trigger x in nodes[p].children} ::
      0 <= p < |nodes| && x in nodes[p].children ==> 1 <= x < |nodes| && nodes[x].parent == Some(p)
  }

  /** No list of children has a node twice. */
  ghost predicate Increasing(nodes: seq<Node>) {
    forall p, i, j :: 0 <= p < |nodes| && 0 <= i < j < |nodes[p].children| ==>
      nodes[p].children[i] < nodes[p].children[j]
  }

  /** Parent links and lists of children agree. */
  ghost predicate Linked(nodes: seq<Node>) { Owned(nodes) && Parented(nodes) && Increasing(nodes) }

  /** `now` is `before` with text `text` and the new nodes `kids` added to node `p`. */
  ghost predicate Extended(before: Context, now: Context, p: nat, text: string, kids: seq<nat>) {
    && p < |before.nodes| <= |now.nodes|
    && now.root == before.root && now.current == Some(p)
    && (forall j :: 0 <= j < |before.nodes| && j != p ==> now.nodes[j] == before.nodes[j])
    && now.nodes[p] == before.nodes[p].(cdata := before.nodes[p].cdata + text, children := before.nodes[p].children + kids)
    && Closed(now.nodes, |before.nodes|, |now.nodes|)
    && (forall x :: x in kids ==> |before.nodes| <= x < |now.nodes|)
  }

  ghost predicate KidsDenote(nodes: seq<Node>, kids: seq<nat>, es: seq<Elem>) {
    |kids| == |es| && forall i :: 0 <= i < |kids| ==> Denote(nodes, kids[i]) == es[i]
  }

  /** Running the handlers over what an element has inside adds its text and its
      children, and nothing else. */
  lemma {:induction false} InnerRuns(c: Context, es: seq<Event>, p: nat) returns (c': Context, kids: seq<nat>)
    requires c.current == Some(p) && p < |c.nodes| && c.root.Some? && Inner(es).Inside?
    requires Linked(c.nodes)
    ensures var i := Inner(es);
      && Run(c, es) == Run(c', i.rest)
      && Extended(c, c', p, i.cdata, kids) && KidsDenote(c'.nodes, kids, i.children)
      && Linked(c'.nodes)
    decreases |es|
  {
    hide Denote, Linked;
    if es == [] || es[0].End? {
      c', kids := c, [];
      NothingAdded(c, p);
    } else if es[0].Chars? {
      var c1 := Handle(c, es[0]);
      TextLinked(c.nodes, p, es[0].text);
      c', kids := InnerRuns(c1, es[1..], p);
      assert (c.nodes[p].cdata + es[0].text) + Inner(es[1..]).cdata == c.nodes[p].cdata + (es[0].text + Inner(es[1..]).cdata);
    } else {
      c', kids := ElementRuns(c, es, p);
    }
  }

  lemma NothingAdded(c: Context, p: nat)
    requires c.current == Some(p) && p < |c.nodes|
    ensures Extended(c, c, p, "", [])
  {
    assert c.nodes[p].cdata + "" == c.nodes[p].cdata && c.nodes[p].children + [] == c.nodes[p].children;
  }

  lemma TextLinked(nodes: seq<Node>, p: nat, text: string)
    requires Linked(nodes) && p < |nodes|
    ensures Linked(nodes[p := nodes[p].(cdata := nodes[p].cdata + text)])
  {
    var now := nodes[p := nodes[p].(cdata := nodes[p].cdata + text)];
    forall j | 0 <= j < |now| ensures now[j].children == nodes[j].children && now[j].parent == nodes[j].parent {}
    SameLinks(nodes, now);
  }

  lemma SameLinks(a: seq<Node>, b: seq<Node>)
    requires Linked(a) && |a| == |b|
    requires forall j :: 0 <= j < |a| ==> b[j].children == a[j].children && b[j].parent == a[j].parent
    ensures Linked(b)
  {
    forall p, x | 0 <= p < |b| && x in b[p].children ensures 1 <= x < |b| && b[x].parent == Some(p) {
      assert x in a[p].children;
    }
    forall q | 1 <= q < |b|
      ensures b[q].parent.Some? && b[q].parent.value < |b| && q in b[b[q].parent.value].children
    {
      assert q in a[a[q].parent.value].children;
    }
  }

  lemma ChildLinked(nodes: seq<Node>, p: nat, name: string)
    requires Linked(nodes) && p < |nodes|
    ensures Linked(nodes[p := nodes[p].(children := nodes[p].children + [|nodes|])] + [Node(name, "", [], Some(p))])
  {
    hide Owned, Parented, Increasing;
    ChildOwned(nodes, p, name);
    ChildParented(nodes, p, name);
    ChildIncreasing(nodes, p, name);
  }

  lemma ChildOwned(nodes: seq<Node>, p: nat, name: string)
    requires Owned(nodes) && p < |nodes|
    ensures Owned(nodes[p := nodes[p].(children := nodes[p].children + [|nodes|])] + [Node(name, "", [], Some(p))])
  {
    var kids := nodes[p].children + [|nodes|];
    assert kids[|kids| - 1] == |nodes|;
  }

  lemma ChildParented(nodes: seq<Node>, p: nat, name: string)
    requires Parented(nodes) && p < |nodes|
    ensures Parented(nodes[p := nodes[p].(children := nodes[p].children + [|nodes|])] + [Node(name, "", [], Some(p))])
  {
    var now := nodes[p := nodes[p].(children := nodes[p].children + [|nodes|])] + [Node(name, "", [], Some(p))];
    forall r, x | 0 <= r < |now| && x in now[r].children ensures 1 <= x < |now| && now[x].parent == Some(r) {
      if x != |nodes| { assert x in nodes[r].children; }
    }
  }

  lemma ChildIncreasing(nodes: seq<Node>, p: nat, name: string)
    requires Parented(nodes) && Increasing(nodes) && p < |nodes|
    ensures Increasing(nodes[p := nodes[p].(children := nodes[p].children + [|nodes|])] + [Node(name, "", [], Some(p))])
  {
    var kids := nodes[p].children;
    forall i | 0 <= i < |kids| ensures kids[i] < |nodes| { assert kids[i] in nodes[p].children; }
  }

  /** One child element: its start tag, what is inside, its end tag, and what follows. */
  lemma {:induction false} ElementRuns(c: Context, es: seq<Event>, p: nat) returns (c': Context, kids: seq<nat>)
    requires c.current == Some(p) && p < |c.nodes| && c.root.Some? && Inner(es).Inside?
    requires es != [] && es[0].Start? && Linked(c.nodes)
    ensures var i := Inner(es);
      && Run(c, es) == Run(c', i.rest)
      && Extended(c, c', p, i.cdata, kids) && KidsDenote(c'.nodes, kids, i.children)
      && Linked(c'.nodes)
    decreases |es|, 0
  {
    hide Denote, Linked;
    var name, q := es[0].name, |c.nodes|;
    var c1 := Handle(c, es[0]);
    ChildLinked(c.nodes, p, name);
    var i1 := Inner(es[1..]);
    var c2, kids2 := InnerRuns(c1, es[1..], q);
    var c3 := Handle(c2, i1.rest[0]);
    TextLinked(c2.nodes, q, ['\0']);
    assert Run(c, es) == Run(c3, i1.rest[1..]);
    ChildBuilt(c, c1, c2, p, name, i1.cdata, kids2, i1.children);
    var kids4;
    c', kids4 := InnerRuns(c3, i1.rest[1..], p);
    kids := [q] + kids4;
    ChildKept(c, c3, c', p, Inner(i1.rest[1..]).cdata, kids4, Elem(name, i1.cdata, i1.children), Inner(i1.rest[1..]).children);
  }

  /** After the end tag of a child, the child denotes what was inside. */
  lemma ChildBuilt(c: Context, c1: Context, c2: Context, p: nat, name: string, text: string, kids: seq<nat>, es: seq<Elem>)
    requires c.current == Some(p) && p < |c.nodes| && c.root.Some?
    requires c1 == Handle(c, Start(name)) && Extended(c1, c2, |c.nodes|, text, kids) && KidsDenote(c2.nodes, kids, es)
    ensures Expected(c2, End(name))
    ensures var c3, q := Handle(c2, End(name)), |c.nodes|;
      && c3.root == c.root && c3.current == Some(p) && |c3.nodes| == |c2.nodes| > q
      && (forall j :: 0 <= j < q && j != p ==> c3.nodes[j] == c.nodes[j])
      && c3.nodes[p] == c.nodes[p].(children := c.nodes[p].children + [q])
      && Closed(c3.nodes, q, |c3.nodes|)
      && Denote(c3.nodes, q) == Elem(name, text, es)
  {
    var q, c3 := |c.nodes|, Handle(c2, End(name));
    var n, m := c2.nodes, c3.nodes;
    assert n[q].children == [] + kids == kids && n[q].cdata == "" + text == text;
    assert Closed(n, q + 1, |n|) && SameFrom(n, m, q + 1, |n|);
    assert m[q].cdata[..|m[q].cdata| - 1] == text;
    forall i | 0 <= i < |kids| ensures DenoteAbove(m, q, kids[i]) == es[i] {
      assert kids[i] in kids;
      DenoteSame(n, m, q + 1, |n|, kids[i]);
    }
    assert DenoteAll(m, q, kids) == es;
  }

  /** What follows a child leaves it as it is. */
  lemma ChildKept(c: Context, c3: Context, c4: Context, p: nat, text: string, kids: seq<nat>, e: Elem, es: seq<Elem>)
    requires p < |c.nodes| < |c3.nodes|
    requires c3.root == c.root
    requires forall j :: 0 <= j < |c.nodes| && j != p ==> c3.nodes[j] == c.nodes[j]
    requires c3.nodes[p] == c.nodes[p].(children := c.nodes[p].children + [|c.nodes|])
    requires Closed(c3.nodes, |c.nodes|, |c3.nodes|) && Denote(c3.nodes, |c.nodes|) == e
    requires Extended(c3, c4, p, text, kids) && KidsDenote(c4.nodes, kids, es)
    ensures Extended(c, c4, p, text, [|c.nodes|] + kids) && KidsDenote(c4.nodes, [|c.nodes|] + kids, [e] + es)
  {
    hide Denote;
    var q := |c.nodes|;
    assert SameFrom(c3.nodes, c4.nodes, q, |c3.nodes|);
    DenoteSame(c3.nodes, c4.nodes, q, |c3.nodes|, q);
    assert (c.nodes[p].children + [q]) + kids == c.nodes[p].children + ([q] + kids);
    forall j, x | q <= j < |c4.nodes| && x in c4.nodes[j].children ensures j < x < |c4.nodes| {
      if j < |c3.nodes| { assert x in c3.nodes[j].children; }
    }
  }

  /** For every well-nested stream with one root: no assertion fails, the handlers build
      exactly the element the stream denotes, each element's text being the
      concatenation of its own pieces however they were cut; no element is current at
      the end; and the parent links match the lists of children. */
  lemma HandlersBuildTheTree(es: seq<Event>)
    requires ElementOf(es).Some?
    ensures var c := Run(START, es);
      && c.Some? && c.value.root == Some(0) && c.value.current == None
      && |c.value.nodes| > 0 && Denote(c.value.nodes, 0) == ElementOf(es).value
      && c.value.nodes[0].parent == None && Linked(c.value.nodes)
  {
    hide Denote, Linked;
    var name := es[0].name;
    var c1 := Handle(START, es[0]);
    RootLinked(name);
    assert [] + [Node(name, "", [], None)] == [Node(name, "", [], None)];
    var i := Inner(es[1..]);
    var c2, kids := InnerRuns(c1, es[1..], 0);
    assert i.rest == [End(name)] && i.rest[1..] == [];
    var c3 := Handle(c2, End(name));
    TextLinked(c2.nodes, 0, ['\0']);
    assert Run(c2, i.rest) == Run(c3, i.rest[1..]) == Some(c3);
    RootBuilt(c2.nodes, c3.nodes, kids, i.cdata, i.children);
  }

  lemma RootLinked(name: string)
    ensures Linked([Node(name, "", [], None)])
  {}

  lemma RootBuilt(n: seq<Node>, m: seq<Node>, kids: seq<nat>, text: string, es: seq<Elem>)
    requires n != [] && n[0].cdata == "" + text && n[0].children == [] + kids
    requires m == n[0 := n[0].(cdata := n[0].cdata + ['\0'])] && Closed(n, 1, |n|) && KidsDenote(n, kids, es)
    requires forall x :: x in kids ==> 1 <= x < |n|
    ensures Denote(m, 0) == Elem(n[0].name, text, es)
  {
    assert [] + kids == kids && "" + text == text;
    assert m[0].cdata[..|m[0].cdata| - 1] == text;
    assert SameFrom(n, m, 1, |n|);
    forall i | 0 <= i < |kids| ensures DenoteAbove(m, 0, kids[i]) == es[i] {
      assert kids[i] in kids;
      DenoteSame(n, m, 1, |n|, kids[i]);
    }
    assert DenoteAll(m, 0, kids) == es;
  }

  // ---------------------------------------------------------------------
  // The handlers

  class ParseContext {
    var nodes: seq<Node>
    var rootP: Option<nat>
    var currentP: Option<nat>

    function State(): Context
      reads this
    {
      Context(nodes, rootP, currentP)
    }

    constructor ()
      ensures State() == START
    {
      nodes, rootP, currentP := [], None, None;
    }

    /** xml_element_append_cdata() */
    method AppendCdata(elem: nat, cdata: string)
      requires elem < |nodes|
      modifies `nodes
      ensures nodes == old(nodes)[elem := old(nodes)[elem].(cdata := old(nodes)[elem].cdata + cdata)]
    {
      nodes := nodes[elem := nodes[elem].(cdata := nodes[elem].cdata + cdata)];
    }

    /** xml_element_append_child() */
    method AppendChild(elem: nat, child: nat)
      requires elem < |nodes| && child < |nodes| && elem != child && nodes[child].parent.None?
      modifies `nodes
      ensures nodes == old(nodes)[elem := old(nodes)[elem].(children := old(nodes)[elem].children + [child])]
                                 [child := old(nodes)[child].(parent := Some(elem))]
    {
      nodes := nodes[elem := nodes[elem].(children := nodes[elem].children + [child])];
      nodes := nodes[child := nodes[child].(parent := Some(elem))];
    }

    method StartElement(name: string)
      requires Expected(State(), Start(name))
      modifies this
      ensures State() == Handle(old(State()), Start(name))
    {
      var elem := |nodes|;
      nodes := nodes + [Node(name, "", [], None)];
      if rootP.None? {
        rootP := Some(elem);
        currentP := Some(elem);
      } else {
        AppendChild(currentP.value, elem);
        currentP := Some(elem);
      }
    }

    method EndElement(name: string)
      requires Expected(State(), End(name))
      modifies this
      ensures State() == Handle(old(State()), End(name))
    {
      AppendCdata(currentP.value, ['\0']);
      currentP := nodes[currentP.value].parent;
    }

    method CharacterData(s: string)
      requires Expected(State(), Chars(s))
      modifies this
      ensures State() == Handle(old(State()), Chars(s))
    {
      AppendCdata(currentP.value, s);
    }

    /** The driver's part: each event goes to its handler. */
    method Drive(es: seq<Event>) returns (ok: bool)
      modifies this
      ensures ok <==> Run(old(State()), es).Some?
      ensures ok ==> Run(old(State()), es) == Some(State())
    {
      var i := 0;
      assert es[0..] == es;
      while i < |es|
        invariant i <= |es| && Run(old(State()), es) == Run(State(), es[i..])
      {
        assert es[i..][0] == es[i] && es[i..][1..] == es[i + 1..];
        if !Expected(State(), es[i]) { return false; }
        match es[i] {
          case Start(name) => StartElement(name);
          case End(name) => EndElement(name);
          case Chars(text) => CharacterData(text);
        }
        i := i + 1;
      }
      assert es[i..] == [];
      ok := true;
    }
  }
}
