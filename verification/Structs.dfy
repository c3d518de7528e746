/** The hash-accelerated structs of xmlrpc-c/src/xmlrpc_struct.c, and what creating
and changing values does to memory, as functions. */
module Structs {
  import opened Text
  import opened Values
  import opened Cells

  const UINT32 := 0x1_0000_0000

  /** A byte as C's (signed) char. */
  function SignedChar(c: char): int {
    if c as int < 128 then c as int else c as int - 256
  }

  /** The Bernstein hash of a key, in 32 bits. */
  function HashKey(key: string): (h: nat)
    ensures h < UINT32
  {
    if key == "" then 0
    else (HashKey(key[..|key| - 1]) * 33 + SignedChar(key[|key| - 1])) % UINT32
  }

  lemma Wraps(hash: nat, c: int)
    ensures (hash + c + hash * 32 % UINT32) % UINT32 == (hash * 33 + c) % UINT32
  {
    var q := hash * 32 / UINT32;
    assert hash * 33 + c == (hash + c + hash * 32 % UINT32) + q * UINT32;
    SameResidue(hash + c + hash * 32 % UINT32, q);
  }

  lemma SameResidue(a: int, q: int)
    ensures (a + q * UINT32) % UINT32 == a % UINT32
  {}

  lemma HashStep(key: string)
    requires key != ""
    ensures HashKey(key) == (HashKey(key[..|key| - 1]) * 33 + SignedChar(key[|key| - 1])) % UINT32
  {}

  ghost function Power33(n: nat): nat { if n == 0 then 1 else 33 * Power33(n - 1) }

  /** The characters of a key, read as the digits of a number in base 33. */
  ghost function Number33(key: string): int {
    if key == "" then 0 else SignedChar(key[0]) * Power33(|key| - 1) + Number33(key[1..])
  }

  lemma {:induction false} DigitBehind(key: string, c: char)
    ensures Number33(key + [c]) == Number33(key) * 33 + SignedChar(c)
  {
    hide SignedChar;
    if key == "" {
      assert ("" + [c])[1..] == "";
    } else {
      DigitBehind(key[1..], c);
      var longer := key + [c];
      assert longer[1..] == key[1..] + [c] && longer[0] == key[0];
      assert SignedChar(key[0]) * (33 * Power33(|key| - 1)) == (SignedChar(key[0]) * Power33(|key| - 1)) * 33;
    }
  }

  lemma Residues(a: int, h: nat, c: int)
    requires h == a % UINT32
    ensures (h * 33 + c) % UINT32 == (a * 33 + c) % UINT32
  {
    var q := a / UINT32;
    assert a * 33 + c == h * 33 + c + (33 * q) * UINT32;
    SameResidue(h * 33 + c, 33 * q);
  }

  /** The hash of a key is that number, wrapped at 32 bits. */
  lemma {:induction false} HashIsNumber(key: string)
    ensures HashKey(key) == Number33(key) % UINT32
    decreases |key|
  {
    if key != "" {
      var n := |key| - 1;
      HashIsNumber(key[..n]);
      DigitBehind(key[..n], key[n]);
      assert key[..n] + [key[n]] == key;
      Residues(Number33(key[..n]), HashKey(key[..n]), SignedChar(key[n]));
    }
  }

  /** The source's hashStructKey(), which shifts, adds and wraps at 32 bits. */
  method HashStructKey(key: string) returns (hash: nat)
    ensures hash == HashKey(key)
  {
    hash := 0;
    var i := 0;
    while i < |key|
      invariant i <= |key|
      invariant hash == HashKey(key[..i])
    {
      assert key[..i + 1][..i] == key[..i];
      hide HashKey;
      var shifted := hash * 32 % UINT32;
      Wraps(hash, SignedChar(key[i]));
      hash := (hash + SignedChar(key[i]) + shifted) % UINT32;
      HashStep(key[..i + 1]);
      i := i + 1;
    }
    assert key[..i] == key;
  }

  /** Equal hashes stay equal when the same characters follow. */
  lemma {:induction false} SameHashOnward(a: string, b: string, tail: string)
    requires HashKey(a) == HashKey(b)
    ensures HashKey(a + tail) == HashKey(b + tail)
    decreases |tail|
  {
    if tail == "" {
      assert a + tail == a && b + tail == b;
    } else {
      var n := |tail| - 1;
      SameHashOnward(a, b, tail[..n]);
      assert (a + tail)[..|a| + n] == a + tail[..n] && (b + tail)[..|b| + n] == b + tail[..n];
    }
  }

  /** Every key shares its hash with another one, so comparing hashes alone would not do:
      a NUL in front adds nothing. */
  lemma HashesCollide(key: string)
    ensures "\0" + key != key && HashKey("\0" + key) == HashKey(key)
  {
    assert |"\0" + key| == |key| + 1;
    assert HashKey("\0") == HashKey("") by { HashStep("\0"); assert "\0"[..0] == ""; }
    SameHashOnward("\0", "", key);
    assert "" + key == key;
  }

  /** Nor is it only NULs: two neighbouring characters can make up for each other. */
  lemma NeighboursCollide(c: char, d: char, c': char, d': char, key: string)
    requires SignedChar(c') == SignedChar(c) + 1 && SignedChar(d') == SignedChar(d) - 33
    ensures [c, d] + key != [c', d'] + key && HashKey([c, d] + key) == HashKey([c', d'] + key)
  {
    assert ([c, d] + key)[0] == c && ([c', d'] + key)[0] == c' && c != c';
    PairHash(c, d);
    PairHash(c', d');
    SameHashOnward([c, d], [c', d'], key);
  }

  lemma PairHash(c: char, d: char)
    ensures HashKey([c, d]) == (SignedChar(c) * 33 + SignedChar(d)) % UINT32
  {
    assert [c, d][..1] == [c] && [c][..0] == "";
    assert HashKey([c]) == SignedChar(c) % UINT32;
    var q := SignedChar(c) / UINT32;
    assert HashKey([c]) * 33 + SignedChar(d) == SignedChar(c) * 33 + SignedChar(d) - (33 * q) * UINT32;
    SameResidue(SignedChar(c) * 33 + SignedChar(d) - (33 * q) * UINT32, 33 * q);
  }

  predicate IsString(mem: Memory, id: Id) {
    id < |mem| && mem[id].Live? && mem[id].body.Leaf? && mem[id].body.v.Str?
  }

  function KeyText(mem: Memory, id: Id): string
    requires IsString(mem, id)
  {
    mem[id].body.v.str
  }

  /** Every stored hash is the hash of its key, and no key text occurs twice. */
  ghost predicate StructOk(mem: Memory, members: seq<MemberRec>) {
    && (forall i :: 0 <= i < |members| ==>
          IsString(mem, members[i].key) && members[i].hash == HashKey(KeyText(mem, members[i].key)))
    && (forall i, j :: 0 <= i < j < |members| ==>
          IsString(mem, members[i].key) && IsString(mem, members[j].key)
          && KeyText(mem, members[i].key) != KeyText(mem, members[j].key))
  }

  ghost predicate StructsOk(mem: Memory) {
    forall p: Id :: IsLive(mem, p) && mem[p].body.StructBody? ==> StructOk(mem, mem[p].body.members)
  }

  ghost predicate Sound(mem: Memory, held: multiset<Id>) {
    Conserved(mem, held) && StructsOk(mem) && NoneDying(mem)
  }

  // ---------------------------------------------------------------------
  // Operations on memory

  ghost predicate Empty(body: Body) { Refs(body) == [] }

  function Create(mem: Memory, body: Body): Memory { mem + [Live(1, body)] }

  function Retain(mem: Memory, id: Id): Memory
    requires IsLive(mem, id)
  {
    mem[id := Live(mem[id].refcount + 1, mem[id].body)]
  }

  function Rewrite(mem: Memory, id: Id, body: Body): Memory
    requires IsLive(mem, id)
  {
    mem[id := Live(mem[id].refcount, body)]
  }

  function AppendItem(mem: Memory, arr: Id, item: Id): Memory
    requires IsLive(mem, arr) && mem[arr].body.ArrayBody? && IsLive(mem, item)
  {
    var m := Retain(mem, item);
    Rewrite(m, arr, ArrayBody(m[arr].body.items + [item]))
  }

  function AddMember(mem: Memory, struct: Id, key: Id, value: Id): Memory
    requires IsLive(mem, struct) && mem[struct].body.StructBody? && IsString(mem, key)
    requires IsLive(mem, key) && IsLive(mem, value)
  {
    var members := mem[struct].body.members + [MemberRec(HashKey(KeyText(mem, key)), key, value)];
    Retain(Retain(Rewrite(mem, struct, StructBody(members)), key), value)
  }

  /** The new value is retained before the old one is released: they may be the
      same object. */
  function ChangeMember(mem: Memory, struct: Id, index: nat, value: Id): Memory
    requires IsLive(mem, struct) && mem[struct].body.StructBody? && index < |mem[struct].body.members|
    requires IsLive(mem, value)
  {
    var members := mem[struct].body.members;
    var changed := members[index := members[index].(value := value)];
    Drop(Retain(Rewrite(mem, struct, StructBody(changed)), value), [members[index].value])
  }

  lemma CreateConserves(mem: Memory, held: multiset<Id>, body: Body)
    requires Conserved(mem, held) && Empty(body)
    ensures Conserved(Create(mem, body), held + multiset{|mem|})
  {
    hide HeldCount;
    forall id: Id ensures HeldCount(Create(mem, body), id) + (held + multiset{|mem|})[id] == CountAt(Create(mem, body), id) {
      HeldAppend(mem, Live(1, body), id);
      assert HeldCount(mem, id) + held[id] == CountAt(mem, id);
    }
  }

  lemma RetainConserves(mem: Memory, held: multiset<Id>, id: Id)
    requires Conserved(mem, held) && IsLive(mem, id)
    ensures Conserved(Retain(mem, id), held + multiset{id})
  {
    hide HeldCount;
    forall x: Id ensures HeldCount(Retain(mem, id), x) + (held + multiset{id})[x] == CountAt(Retain(mem, id), x) {
      HeldUpdate(mem, id, Retain(mem, id)[id], x);
      assert HeldCount(mem, x) + held[x] == CountAt(mem, x);
    }
  }

  /** Rewriting the slots of a container moves references between the container and
      the outside. */
  lemma RewriteConserves(mem: Memory, held: multiset<Id>, id: Id, body: Body, held': multiset<Id>)
    requires Conserved(mem, held) && IsLive(mem, id)
    requires forall x: Id :: held[x] + Uses(Refs(mem[id].body), x) == held'[x] + Uses(Refs(body), x)
    ensures Conserved(Rewrite(mem, id, body), held')
  {
    hide HeldCount, Refs;
    var mem' := Rewrite(mem, id, body);
    forall x: Id ensures HeldCount(mem', x) + held'[x] == CountAt(mem', x) {
      HeldUpdate(mem, id, mem'[id], x);
      assert HeldCount(mem, x) + held[x] == CountAt(mem, x);
      assert held[x] + Uses(Refs(mem[id].body), x) == held'[x] + Uses(Refs(body), x);
    }
  }

  lemma AppendConserves(mem: Memory, held: multiset<Id>, arr: Id, item: Id)
    requires Conserved(mem, held)
    requires IsLive(mem, arr) && mem[arr].body.ArrayBody? && IsLive(mem, item)
    ensures Conserved(AppendItem(mem, arr, item), held)
  {
    var m := Retain(mem, item);
    var items := m[arr].body.items;
    RetainConserves(mem, held, item);
    forall x: Id ensures Uses(items + [item], x) == Uses(items, x) + One(item, x) {}
    RewriteConserves(m, held + multiset{item}, arr, ArrayBody(items + [item]), held);
  }

  function One(a: Id, x: Id): nat { if a == x then 1 else 0 }

  function Uses(refs: seq<Id>, x: Id): nat { multiset(refs)[x] }

  /** How often a struct's members refer to `x`. */
  function MemberUses(members: seq<MemberRec>, x: Id): nat { Uses(MemberRefs(members), x) }

  lemma MemberRefsAdd(members: seq<MemberRec>, m: MemberRec, x: Id)
    ensures MemberUses(members + [m], x) == MemberUses(members, x) + One(m.key, x) + One(m.value, x)
  {
    assert (members + [m])[..|members|] == members;
    assert MemberRefs(members + [m]) == MemberRefs(members) + [m.key, m.value];
  }

  lemma {:induction false} MemberRefsChange(members: seq<MemberRec>, i: nat, value: Id, x: Id)
    requires i < |members|
    ensures MemberUses(members[i := members[i].(value := value)], x) + One(members[i].value, x)
              == MemberUses(members, x) + One(value, x)
  {
    hide MemberUses, One;
    var n := |members| - 1;
    var front, last := members[..n], members[n];
    assert members == front + [last];
    MemberRefsAdd(front, last, x);
    if i == n {
      MemberRefsAdd(front, last.(value := value), x);
      assert members[i := last.(value := value)] == front + [last.(value := value)];
    } else {
      MemberRefsChange(front, i, value, x);
      var front' := front[i := members[i].(value := value)];
      MemberRefsAdd(front', last, x);
      assert members[i := members[i].(value := value)] == front' + [last];
    }
  }

  lemma AddMemberConserves(mem: Memory, held: multiset<Id>, struct: Id, key: Id, value: Id)
    requires Conserved(mem, held)
    requires IsLive(mem, struct) && mem[struct].body.StructBody? && IsString(mem, key)
    requires IsLive(mem, key) && IsLive(mem, value)
    ensures Conserved(AddMember(mem, struct, key, value), held)
  {
    hide HeldCount, MemberRefs;
    var members := mem[struct].body.members;
    var m := MemberRec(HashKey(KeyText(mem, key)), key, value);
    RetainConserves(mem, held, key);
    var m1 := Retain(mem, key);
    RetainConserves(m1, held + multiset{key}, value);
    var m2 := Retain(m1, value);
    forall x: Id
      ensures (held + multiset{key} + multiset{value})[x] + Uses(Refs(m2[struct].body), x)
                == held[x] + Uses(Refs(StructBody(members + [m])), x)
    {
      MemberRefsAdd(members, m, x);
    }
    RewriteConserves(m2, held + multiset{key} + multiset{value}, struct, StructBody(members + [m]), held);
    assert Rewrite(m2, struct, StructBody(members + [m])) == AddMember(mem, struct, key, value);
  }

  /** Just before the old value is released: one reference to it is pending. */
  lemma ChangeMemberPending(mem: Memory, held: multiset<Id>, struct: Id, index: nat, value: Id)
    requires Conserved(mem, held)
    requires IsLive(mem, struct) && mem[struct].body.StructBody? && index < |mem[struct].body.members|
    requires IsLive(mem, value)
    ensures var members := mem[struct].body.members;
      var changed := members[index := members[index].(value := value)];
      Conserved(Retain(Rewrite(mem, struct, StructBody(changed)), value), held + multiset{members[index].value})
  {
    hide HeldCount, MemberRefs;
    var members := mem[struct].body.members;
    var old' := members[index];
    var changed := members[index := old'.(value := value)];
    RetainConserves(mem, held, value);
    var m1 := Retain(mem, value);
    forall x: Id
      ensures (held + multiset{value})[x] + Uses(Refs(m1[struct].body), x)
                == (held + multiset{old'.value})[x] + Uses(Refs(StructBody(changed)), x)
    {
      MemberRefsChange(members, index, value, x);
    }
    RewriteConserves(m1, held + multiset{value}, struct, StructBody(changed), held + multiset{old'.value});
    assert Rewrite(m1, struct, StructBody(changed)) == Retain(Rewrite(mem, struct, StructBody(changed)), value);
  }

  /** Replacing a member's value keeps the law, also when the value is the very
      object already there. */
  lemma ChangeMemberConserves(mem: Memory, held: multiset<Id>, struct: Id, index: nat, value: Id)
    requires Conserved(mem, held)
    requires IsLive(mem, struct) && mem[struct].body.StructBody? && index < |mem[struct].body.members|
    requires IsLive(mem, value)
    ensures Conserved(ChangeMember(mem, struct, index, value), held)
  {
    hide HeldCount, Drop;
    var members := mem[struct].body.members;
    var changed := members[index := members[index].(value := value)];
    ChangeMemberPending(mem, held, struct, index, value);
    assert multiset([members[index].value]) == multiset{members[index].value};
    DropConserves(Retain(Rewrite(mem, struct, StructBody(changed)), value), held, [members[index].value]);
  }

  // ---------------------------------------------------------------------
  // The struct invariant

  /** Live values of `now` were live strings of `before` with the same text. */
  ghost predicate KeepsStrings(before: Memory, now: Memory) {
    forall id: Id :: IsString(before, id) && id < |now| && now[id].Live? ==>
      IsString(now, id) && KeyText(now, id) == KeyText(before, id)
  }

  lemma StructOkKept(before: Memory, now: Memory, members: seq<MemberRec>)
    requires StructOk(before, members) && KeepsStrings(before, now)
    requires forall i :: 0 <= i < |members| ==> members[i].key < |now| && now[members[i].key].Live?
    ensures StructOk(now, members)
  {
    forall i | 0 <= i < |members|
      ensures IsString(now, members[i].key) && KeyText(now, members[i].key) == KeyText(before, members[i].key)
    {
    }
  }

  lemma MemberKeyLive(mem: Memory, held: multiset<Id>, p: Id, i: nat)
    requires Conserved(mem, held) && IsLive(mem, p) && mem[p].body.StructBody? && i < |mem[p].body.members|
    ensures IsLive(mem, mem[p].body.members[i].key) && IsLive(mem, mem[p].body.members[i].value)
  {
    var members := mem[p].body.members;
    var refs := MemberRefs(members);
    assert refs[2 * i] == members[i].key && refs[2 * i + 1] == members[i].value;
    assert refs[2 * i] in CellRefs(mem[p]) && refs[2 * i + 1] in CellRefs(mem[p]);
    HeldIsLive(mem, held, p, members[i].key);
    HeldIsLive(mem, held, p, members[i].value);
  }

  /** All structs stay good when strings keep their texts, memory stays conserved
      and no struct but `except` has a new body. */
  lemma StructsKept(before: Memory, now: Memory, held: multiset<Id>, except: Id)
    requires StructsOk(before) && KeepsStrings(before, now) && Conserved(now, held)
    requires forall p: Id :: IsLive(now, p) && now[p].body.StructBody? && p != except ==>
               IsLive(before, p) && before[p].body == now[p].body
    requires IsLive(now, except) && now[except].body.StructBody? ==> StructOk(now, now[except].body.members)
    ensures StructsOk(now)
  {
    hide HeldCount, HashKey;
    forall p: Id | IsLive(now, p) && now[p].body.StructBody? && p != except
      ensures StructOk(now, now[p].body.members)
    {
      var members := now[p].body.members;
      forall i | 0 <= i < |members| ensures members[i].key < |now| && now[members[i].key].Live? {
        MemberKeyLive(now, held, p, i);
      }
      StructOkKept(before, now, members);
    }
  }

  lemma DropSound(mem: Memory, held: multiset<Id>, ids: seq<Id>)
    requires Conserved(mem, held + multiset(ids)) && StructsOk(mem) && NoneDying(mem)
    ensures Sound(Drop(mem, ids), held)
  {
    hide HeldCount, Drop, HashKey;
    var now := Drop(mem, ids);
    DropConserves(mem, held, ids);
    DropSurvives(mem, ids);
    DropNoneDying(mem, ids);
    StructsKept(mem, now, held, |mem|);
  }

  lemma {:induction false} DropNoneDying(mem: Memory, ids: seq<Id>)
    requires NoneDying(mem)
    ensures NoneDying(Drop(mem, ids))
    decreases Total(mem), |ids|
  {
    hide Released, Total;
    if ids != [] {
      if !IsLive(mem, ids[0]) {
        DropNoneDying(mem, ids[1..]);
      } else {
        DropLive(mem, ids);
        var (c, more) := Released(mem[ids[0]]);
        assert c.Live? ==> c.refcount > 0 by { ReleasedNotDying(mem[ids[0]]); }
        DropNoneDying(mem[ids[0] := c], more + ids[1..]);
      }
    }
  }

  lemma ReleasedNotDying(c: Cell)
    requires c.Live? && c.refcount > 0
    ensures Released(c).0.Live? ==> Released(c).0.refcount > 0
  {}
}
