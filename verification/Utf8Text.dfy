/** UTF-8: the encoding itself, and the validator, decoder and encoder of
xmlrpc-c/lib/libutil/utf8.c, which know the characters of UCS-2 only. */
module Utf8Text {
  import opened Text

  function Byte(n: nat): (c: char)
    requires n < 256
    ensures c as int == n
  {
    n as char
  }

  /** The source's utf8Decode(), which despite its name encodes. */
  function Utf8(c: nat): (s: string)
    requires c <= 0x1FFFFF
    ensures 1 <= |s| <= 4
  {
    var c1, c2, c3 := c / 64, c / 64 / 64, c / 64 / 64 / 64;
    if c <= 0x7F then [Byte(c)]
    else if c <= 0x7FF then [Byte(0xC0 + c1), Byte(0x80 + c % 64)]
    else if c <= 0xFFFF then [Byte(0xE0 + c2), Byte(0x80 + c1 % 64), Byte(0x80 + c % 64)]
    else [Byte(0xF0 + c3), Byte(0x80 + c2 % 64), Byte(0x80 + c1 % 64), Byte(0x80 + c % 64)]
  }

  predicate IsContinuation(s: string, i: nat) { i < |s| && 0x80 <= s[i] as int < 0xC0 }

  function Continuation(s: string, i: nat): (n: nat)
    requires IsContinuation(s, i)
    ensures n < 64
  {
    s[i] as int - 0x80
  }

  /** The character number at the front of `s` and how many octets hold it, by the
      table of RFC 3629 section 3: the lead octet gives the length, and an
      encoding longer than needed is refused. */
  function Utf8Front(s: string): (r: Option<(nat, nat)>)
    ensures r.Some? ==> 1 <= r.value.1 <= |s|
  {
    if s == "" then None
    else
      var b := s[0] as int;
      if b < 0x80 then Some((b, 1))
      else if 0xC2 <= b < 0xE0 && IsContinuation(s, 1) then
        Some(((b - 0xC0) * 64 + Continuation(s, 1), 2))
      else if 0xE0 <= b < 0xF0 && IsContinuation(s, 1) && IsContinuation(s, 2) then
        var c := (b - 0xE0) * 4096 + Continuation(s, 1) * 64 + Continuation(s, 2);
        if c < 0x800 then None else Some((c, 3))
      else if 0xF0 <= b < 0xF8 && IsContinuation(s, 1) && IsContinuation(s, 2) && IsContinuation(s, 3) then
        var c := (b - 0xF0) * 262144 + Continuation(s, 1) * 4096 + Continuation(s, 2) * 64 + Continuation(s, 3);
        if c < 0x10000 then None else Some((c, 4))
      else None
  }

  lemma Utf8RoundTrip(c: nat, rest: string)
    requires c <= 0x1FFFFF
    ensures Utf8Front(Utf8(c) + rest) == Some((c, |Utf8(c)|))
  {
    var s := Utf8(c) + rest;
    var c1, c2, c3 := c / 64, c / 64 / 64, c / 64 / 64 / 64;
    assert c == c1 * 64 + c % 64 && c1 == c2 * 64 + c1 % 64 && c2 == c3 * 64 + c2 % 64;
    assert s[0] == Utf8(c)[0];
    if 0x7F < c {
      assert s[1] == Utf8(c)[1];
      if 0x7FF < c {
        assert s[2] == Utf8(c)[2];
        if 0xFFFF < c {
          assert s[3] == Utf8(c)[3];
        }
      }
    }
  }

  // ---------------------------------------------------------------------
  // Texts

  /** validateUtf16(): a character of 16 bits that is no surrogate. */
  predicate IsUcs2(c: nat) { c <= 0xFFFD && !(0xD800 <= c <= 0xDFFF) }

  function Ucs2Front(s: string): (r: Option<(nat, nat)>)
    ensures r.Some? ==> 1 <= r.value.1 <= |s|
  {
    match Utf8Front(s)
    case Some((c, n)) => if IsUcs2(c) then Some((c, n)) else None
    case None => None
  }

  /** The characters of a text, if each is one of UCS-2. */
  function Decoded(s: string): (r: Option<seq<nat>>)
    decreases |s|
  {
    if s == "" then Some([])
    else match Ucs2Front(s)
      case Some((c, n)) => First(c, Decoded(s[n..]))
      case None => None
  }

  function First(c: nat, rest: Option<seq<nat>>): Option<seq<nat>> {
    match rest case None => None case Some(cs) => Some([c] + cs)
  }

  /** xmlrpc_validate_utf8() accepts the text. */
  predicate ValidUtf8(s: string) { Decoded(s).Some? }

  /** The octets of characters of 16 bits. */
  function Encoded(cs: seq<nat>): string
    requires forall c :: c in cs ==> c <= 0xFFFF
  {
    if cs == [] then "" else HeadAndTail(cs); Utf8(cs[0]) + Encoded(cs[1..])
  }

  // ---------------------------------------------------------------------
  // The loops

  /** The source's table of sequence lengths by first octet; 0 for none. */
  function SeqLength(b: nat): nat {
    if b < 0x80 then 1
    else if b < 0xC0 then 0
    else if b < 0xE0 then 2
    else if b < 0xF0 then 3
    else if b < 0xF8 then 4
    else if b < 0xFC then 5
    else if b < 0xFE then 6
    else 0
  }

  /** decodeMultibyte() on the `length` octets from `cur`. */
  method DecodeMultibyte(data: string, cur: nat, length: nat) returns (r: Option<nat>)
    requires cur < |data| && data[cur] as int >= 0x80
    requires length == SeqLength(data[cur] as int) > 0 && cur + length <= |data|
    ensures match Ucs2Front(data[cur..])
            case Some((c, n)) => n == length && r == Some(c)
            case None => r == None
  {
    ghost var s := data[cur..];
    assert forall i :: 0 <= i < length ==> s[i] == data[cur + i];
    var wc: nat;
    if length == 2 {
      if !IsContinuation(data, cur + 1) { return None; }
      wc := (data[cur] as int - 0xC0) * 64 + Continuation(data, cur + 1);
    } else if length == 3 {
      if !IsContinuation(data, cur + 1) || !IsContinuation(data, cur + 2) { return None; }
      wc := (data[cur] as int - 0xE0) * 4096 + Continuation(data, cur + 1) * 64 + Continuation(data, cur + 2);
    } else {
      return None;
    }
    if wc > 0xFFFD || 0xD800 <= wc <= 0xDFFF { return None; }
    if wc < (if length == 2 then 0x80 else 0x800) { return None; }
    r := Some(wc);
  }

  /** decodeUtf8(), which xmlrpc_validate_utf8() calls for its fault alone. */
  method DecodeUtf8(data: string) returns (r: Option<seq<nat>>)
    ensures r == Decoded(data)
  {
    hide Utf8Front;
    var cur := 0;
    var out: seq<nat> := [];
    assert data[0..] == data;
    OntoNothing(Decoded(data));
    while cur < |data|
      invariant 0 <= cur <= |data|
      invariant Decoded(data) == Onto(out, Decoded(data[cur..]))
    {
      var init := data[cur] as int;
      ghost var s := data[cur..];
      FrontOctet(s);
      var wc, length := init, 1;
      if init >= 0x80 {
        length := SeqLength(init);
        if length == 0 || cur + length > |data| { return None; }
        var c := DecodeMultibyte(data, cur, length);
        if c.None? { return None; }
        wc := c.value;
      }
      assert s[length..] == data[cur + length..];
      OntoFirst(out, wc, Decoded(data[cur + length..]));
      out := out + [wc];
      cur := cur + length;
    }
    assert data[cur..] == "" && out + [] == out;
    r := Some(out);
  }

  ghost function Onto(cs: seq<nat>, rest: Option<seq<nat>>): Option<seq<nat>> {
    match rest case None => None case Some(more) => Some(cs + more)
  }

  lemma OntoNothing(r: Option<seq<nat>>)
    ensures Onto([], r) == r
  {
    if r.Some? { assert [] + r.value == r.value; }
  }

  lemma OntoFirst(cs: seq<nat>, c: nat, rest: Option<seq<nat>>)
    ensures Onto(cs, First(c, rest)) == Onto(cs + [c], rest)
  {
    if rest.Some? { Assoc(cs, [c], rest.value); }
  }

  /** What the first octet tells about the character. */
  lemma FrontOctet(s: string)
    requires s != ""
    ensures s[0] as int < 0x80 ==> Ucs2Front(s) == Some((s[0] as int, 1))
    ensures Ucs2Front(s).Some? ==> Ucs2Front(s).value.1 == SeqLength(s[0] as int)
  {}

  lemma {:induction false} EncodedSnoc(cs: seq<nat>, c: nat)
    requires c <= 0xFFFF && forall x :: x in cs ==> x <= 0xFFFF
    ensures Encoded(cs + [c]) == Encoded(cs) + Utf8(c)
  {
    hide Utf8;
    if cs == [] {
      assert cs + [c] == [c] && [c][1..] == [];
      assert Utf8(c) + "" == Utf8(c);
    } else {
      HeadAndTail(cs);
      EncodedSnoc(cs[1..], c);
      assert (cs + [c])[1..] == cs[1..] + [c];
    }
  }

  /** xmlrpc_wcs_to_utf8(): three octets are set aside for each character, which is
      always enough; a character of more than 16 bits is a fault. */
  method WcsToUtf8(wcs: seq<nat>) returns (r: Option<string>)
    ensures r == if forall c :: c in wcs ==> c <= 0xFFFF then Some(Encoded(wcs)) else None
  {
    hide Encoded;
    var estimate := |wcs| * 3;
    var buffer := new char[estimate](_ => '\0');
    var used: nat, i: nat := 0, 0;
    NothingEncoded();
    while i < |wcs|
      invariant 0 <= i <= |wcs| && used <= 3 * i
      invariant forall c :: c in wcs[..i] ==> c <= 0xFFFF
      invariant buffer[..used] == Encoded(wcs[..i])
    {
      var wc := wcs[i];
      assert wc in wcs;
      if wc > 0xFFFF { return None; }
      assert wcs[..i + 1] == wcs[..i] + [wc];
      EncodedSnoc(wcs[..i], wc);
      used := AppendCharacter(buffer, used, wc);
      i := i + 1;
    }
    assert wcs[..i] == wcs;
    r := Some(buffer[..used]);
  }

  lemma NothingEncoded()
    ensures Encoded([]) == ""
  {}

  method AppendCharacter(buffer: array<char>, used: nat, wc: nat) returns (used': nat)
    requires wc <= 0xFFFF && used + 3 <= buffer.Length
    modifies buffer
    ensures used' <= used + 3 && buffer[..used'] == old(buffer[..used]) + Utf8(wc)
  {
    ghost var before := buffer[..used];
    used' := used;
    if wc <= 0x7F {
      buffer[used'] := Byte(wc); used' := used' + 1;
    } else if wc <= 0x7FF {
      buffer[used'] := Byte(0xC0 + wc / 64); used' := used' + 1;
      buffer[used'] := Byte(0x80 + wc % 64); used' := used' + 1;
    } else {
      buffer[used'] := Byte(0xE0 + wc / 4096); used' := used' + 1;
      buffer[used'] := Byte(0x80 + wc / 64 % 64); used' := used' + 1;
      buffer[used'] := Byte(0x80 + wc % 64); used' := used' + 1;
    }
    assert wc / 64 / 64 == wc / 4096;
    assert buffer[..used'][..used] == before;
    assert buffer[used..used'] == Utf8(wc);
    assert buffer[..used'] == buffer[..used] + buffer[used..used'];
  }

  // ---------------------------------------------------------------------
  // Encoding and decoding

  /** Characters of 16 bits decode from their octets, to themselves, if and only if each
      is one of UCS-2. */
  lemma {:induction false} DecodeUndoesEncode(cs: seq<nat>)
    requires forall c :: c in cs ==> c <= 0xFFFF
    ensures Decoded(Encoded(cs)) == if forall c :: c in cs ==> IsUcs2(c) then Some(cs) else None
  {
    hide Utf8, Utf8Front, IsUcs2;
    if cs != [] {
      HeadAndTail(cs);
      var c, rest := cs[0], Encoded(cs[1..]);
      DecodeUndoesEncode(cs[1..]);
      Utf8RoundTrip(c, rest);
      assert (Utf8(c) + rest)[|Utf8(c)|..] == rest;
      assert cs == [c] + cs[1..];
    }
  }

  lemma FrontEncodes(s: string)
    requires Utf8Front(s).Some?
    ensures var (c, n) := Utf8Front(s).value; c <= 0x1FFFFF && Utf8(c) == s[..n]
  {
    var (c, n) := Utf8Front(s).value;
    var b := s[0] as int;
    if n == 2 {
      assert c / 64 == b - 0xC0 && c % 64 == Continuation(s, 1);
    } else if n == 3 {
      assert c / 64 == (b - 0xE0) * 64 + Continuation(s, 1) && c % 64 == Continuation(s, 2);
      assert c / 64 / 64 == b - 0xE0 && c / 64 % 64 == Continuation(s, 1);
    } else if n == 4 {
      assert c / 64 == (b - 0xF0) * 4096 + Continuation(s, 1) * 64 + Continuation(s, 2) && c % 64 == Continuation(s, 3);
      assert c / 64 / 64 == (b - 0xF0) * 64 + Continuation(s, 1) && c / 64 % 64 == Continuation(s, 2);
      assert c / 64 / 64 / 64 == b - 0xF0 && c / 64 / 64 % 64 == Continuation(s, 1);
    }
  }

  /** Text that is accepted is the encoding of its characters, so that no two texts mean
      the same. */
  lemma {:induction false} EncodeUndoesDecode(s: string)
    requires ValidUtf8(s)
    ensures var cs := Decoded(s).value; (forall c :: c in cs ==> IsUcs2(c)) && Encoded(cs) == s
    decreases |s|
  {
    hide Utf8, Utf8Front;
    if s != "" {
      var (c, n) := Ucs2Front(s).value;
      FrontEncodes(s);
      EncodeUndoesDecode(s[n..]);
      var rest := Decoded(s[n..]).value;
      assert ([c] + rest)[1..] == rest && s == s[..n] + s[n..];
    }
  }
}
