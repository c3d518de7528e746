/** The base64 encoding, told character by character. */
module Base64Layout {
  import opened Text
  import opened Lines
  import opened Base64Text

  /** How many characters stand for `n` octets on a line. */
  function Width(n: nat): nat { (n + 2) / 3 * 4 }

  function OctetAt(b: string, i: nat): (n: nat)
    ensures n < 256
  {
    if i < |b| then Octet(b[i]) else 0
  }

  /** Three octets from `i` on as one number of 24 bits, with zeros behind the end. */
  function Group(b: string, i: nat): nat { 65536 * OctetAt(b, i) + 256 * OctetAt(b, i + 1) + OctetAt(b, i + 2) }

  /** The six bits number `k` of a group, counted from the front. */
  function SixBits(group: nat, k: nat): (n: nat)
    requires k < 4
    ensures n < 64
  {
    (if k == 0 then group / 262144 else if k == 1 then group / 4096 else if k == 2 then group / 64 else group) % 64
  }

  /** Character number `j` of the line that encodes the octets `b`. */
  function LineChar(b: string, j: nat): char {
    if j / 4 * 3 + j % 4 > |b| then PAD else Sextet(SixBits(Group(b, j / 4 * 3), j % 4))
  }

  lemma FirstBits(x: nat, y: nat, z: nat)
    requires x < 256 && y < 256 && z < 256
    ensures SixBits(65536 * x + 256 * y + z, 0) == x / 4 && SixBits(65536 * x + 256 * y + z, 3) == z % 64
  {}

  lemma SecondBits(x: nat, y: nat, z: nat)
    requires x < 256 && y < 256 && z < 256
    ensures SixBits(65536 * x + 256 * y + z, 1) == x % 4 * 16 + y / 16
  {
    assert (65536 * x + 256 * y + z) / 4096 == 16 * x + y / 16;
  }

  lemma ThirdBits(x: nat, y: nat, z: nat)
    requires x < 256 && y < 256 && z < 256
    ensures SixBits(65536 * x + 256 * y + z, 2) == y % 16 * 4 + z / 64
  {
    assert (65536 * x + 256 * y + z) / 64 == 1024 * x + 4 * y + z / 64;
  }

  lemma FirstTaken(x: nat, b: string)
    requires b != "" && x == OctetAt(b, 0)
    ensures Emit(0, 0, b) == [Sextet(x / 4)] + Emit(1, x % 4, b[1..])
  {
    hide Sextet;
  }

  lemma SecondTaken(p: nat, y: nat, b: string)
    requires b != "" && p < 4 && y == OctetAt(b, 0)
    ensures Emit(1, p, b) == [Sextet(p * 16 + y / 16)] + Emit(2, y % 16, b[1..])
  {
    hide Sextet;
  }

  lemma ThirdTaken(p: nat, z: nat, b: string)
    requires b != "" && p < 16 && z == OctetAt(b, 0)
    ensures Emit(2, p, b) == [Sextet(p * 4 + z / 64), Sextet(z % 64)] + Emit(0, 0, b[1..])
  {
    hide Sextet;
  }

  /** What encodes the first three octets, or fewer at the end. */
  function GroupText(group: nat, n: nat, rest: string): string {
    var c0, c1, c2, c3 := Sextet(SixBits(group, 0)), Sextet(SixBits(group, 1)), Sextet(SixBits(group, 2)), Sextet(SixBits(group, 3));
    if n == 1 then [c0, c1, PAD, PAD] else if n == 2 then [c0, c1, c2, PAD] else [c0, c1, c2, c3] + rest
  }

  /** The four characters as the encoder takes them. */
  lemma GroupJoined(x: nat, y: nat, z: nat, n: nat, rest: string)
    requires x < 256 && y < 256 && z < 256 && 1 <= n && (n == 1 ==> y == 0) && (n <= 2 ==> z == 0)
    ensures GroupText(65536 * x + 256 * y + z, n, rest)
              == if n == 1 then [Sextet(x / 4)] + [Sextet(x % 4 * 16), PAD, PAD]
                 else if n == 2 then [Sextet(x / 4)] + ([Sextet(x % 4 * 16 + y / 16)] + [Sextet(y % 16 * 4), PAD])
                 else [Sextet(x / 4)] + ([Sextet(x % 4 * 16 + y / 16)] + ([Sextet(y % 16 * 4 + z / 64), Sextet(z % 64)] + rest))
  {
    hide SixBits, Sextet;
    FirstBits(x, y, z);
    SecondBits(x, y, z);
    ThirdBits(x, y, z);
  }

  lemma OctetsLeft(b: string)
    requires |b| >= 2
    ensures OctetAt(b[1..], 0) == OctetAt(b, 1) && (|b| >= 3 ==> OctetAt(b[1..][1..], 0) == OctetAt(b, 2) && b[1..][1..][1..] == b[3..])
  {}

  lemma FirstGroup(b: string)
    requires b != ""
    ensures Emit(0, 0, b) == GroupText(Group(b, 0), |b|, if |b| >= 3 then Emit(0, 0, b[3..]) else "")
  {
    hide Sextet, Emit, GroupText, OctetAt;
    NoOctets(b);
    if |b| == 1 {
      OneGrouped(OctetAt(b, 0), b);
    } else if |b| == 2 {
      TwoGrouped(OctetAt(b, 0), OctetAt(b, 1), b);
    } else {
      ThreeGrouped(OctetAt(b, 0), OctetAt(b, 1), OctetAt(b, 2), b);
    }
  }

  lemma OneGrouped(x: nat, b: string)
    requires |b| == 1 && x == OctetAt(b, 0)
    ensures Emit(0, 0, b) == GroupText(65536 * x, 1, "")
  {
    hide Sextet, Emit, GroupText, OctetAt;
    GroupJoined(x, 0, 0, 1, "");
    FirstTaken(x, b);
    assert b[1..] == "";
    var p := x % 4;
    EmitNothing(1, p);
  }

  lemma TwoGrouped(x: nat, y: nat, b: string)
    requires |b| == 2 && x == OctetAt(b, 0) && y == OctetAt(b, 1)
    ensures Emit(0, 0, b) == GroupText(65536 * x + 256 * y, 2, "")
  {
    hide Sextet, Emit, GroupText, OctetAt;
    GroupJoined(x, y, 0, 2, "");
    TwoTaken(x, y, b);
    assert b[1..][1..] == "";
    var p := y % 16;
    EmitNothing(2, p);
  }

  lemma ThreeGrouped(x: nat, y: nat, z: nat, b: string)
    requires |b| >= 3 && x == OctetAt(b, 0) && y == OctetAt(b, 1) && z == OctetAt(b, 2)
    ensures Emit(0, 0, b) == GroupText(65536 * x + 256 * y + z, |b|, Emit(0, 0, b[3..]))
  {
    hide Sextet, Emit, GroupText, OctetAt;
    GroupJoined(x, y, z, |b|, Emit(0, 0, b[3..]));
    OctetsLeft(b);
    TwoTaken(x, y, b);
    var p := y % 16;
    ThirdTaken(p, z, b[1..][1..]);
  }

  lemma NoOctets(b: string)
    ensures (|b| <= 1 ==> OctetAt(b, 1) == 0) && (|b| <= 2 ==> OctetAt(b, 2) == 0)
  {}

  lemma TwoTaken(x: nat, y: nat, b: string)
    requires |b| >= 2 && x == OctetAt(b, 0) && y == OctetAt(b, 1)
    ensures Emit(0, 0, b) == [Sextet(x / 4)] + ([Sextet(x % 4 * 16 + y / 16)] + Emit(2, y % 16, b[1..][1..]))
  {
    hide Sextet, Emit, OctetAt;
    OctetsLeft(b);
    FirstTaken(x, b);
    var p := x % 4;
    SecondTaken(p, y, b[1..]);
  }

  /** Each character of a line. */
  lemma {:induction false} LineAt(b: string, j: nat)
    ensures |Emit(0, 0, b)| == Width(|b|)
    ensures j < Width(|b|) ==> Emit(0, 0, b)[j] == LineChar(b, j)
    decreases |b|
  {
    hide Emit, LineChar, GroupText;
    if b == "" {
      EmitNothing(0, 0);
    } else {
      FirstGroup(b);
      var rest := if |b| >= 3 then Emit(0, 0, b[3..]) else "";
      GroupAt(b, rest, j);
      if |b| >= 3 {
        LineAt(b[3..], if j >= 4 then j - 4 else 0);
        if j >= 4 { LaterChar(b, j); }
      }
    }
  }

  lemma GroupAt(b: string, rest: string, j: nat)
    requires b != ""
    ensures var t := GroupText(Group(b, 0), |b|, rest);
      && |t| == (if |b| >= 3 then 4 + |rest| else 4)
      && (j < 4 ==> t[j] == LineChar(b, j))
      && (|b| >= 3 && 4 <= j < |t| ==> t[j] == rest[j - 4])
  {
    hide SixBits, Sextet, Group;
    assert j < 4 ==> j / 4 == 0 && j % 4 == j;
  }

  lemma LaterChar(b: string, j: nat)
    requires |b| >= 3 && j >= 4
    ensures LineChar(b[3..], j - 4) == LineChar(b, j)
  {
    hide SixBits, Sextet, Group;
    assert (j - 4) / 4 == j / 4 - 1 && (j - 4) % 4 == j % 4;
    SameGroup(b, j / 4 * 3);
  }

  lemma SameGroup(b: string, i: nat)
    requires |b| >= 3 && i >= 3
    ensures Group(b[3..], i - 3) == Group(b, i)
  {}

  /** The octets on line `n`. */
  function LineOctets(b: string, n: nat): string {
    var rest := b[if MAXBIN * n <= |b| then MAXBIN * n else |b|..]; rest[..LineLen(rest)]
  }

  function Size64(n: nat): nat { Width(n) + 2 * ((n + 56) / 57) }

  /** What stands in column `column` of the line that encodes `line`. */
  ghost predicate StandsAt(c: char, line: string, column: nat) {
    var width := Width(|line|);
    column < width + 2 && c == if column < width then LineChar(line, column) else if column == width then CR else LF
  }

  /** Each character of the encoding: lines of up to 76 characters, each with CR and LF
      behind it. */
  lemma {:induction false} EncodedAt(b: string, i: nat)
    requires b != ""
    ensures |Encode64(b)| == Size64(|b|)
    ensures i < Size64(|b|) ==> StandsAt(Encode64(b)[i], LineOctets(b, i / 78), i % 78)
    decreases |b|
  {
    hide Emit, EncodedLines, StandsAt, LineOctets, Size64;
    var first, rest := b[..LineLen(b)], b[LineLen(b)..];
    OneLine(b, [CR, LF]);
    SizeStep(|b|);
    LineStands(first, EncodedLines(rest, [CR, LF]), i % 78);
    LineFound(b, i);
    if rest == "" {
      Base64Text.NoLines([CR, LF]);
    } else {
      EncodedAt(rest, if i >= 78 then i - 78 else 0);
    }
  }

  lemma LineStands(line: string, rest: string, column: nat)
    ensures var t := Emit(0, 0, line) + ([CR, LF] + rest);
      |t| == Width(|line|) + 2 + |rest| && (column < Width(|line|) + 2 ==> StandsAt(t[column], line, column))
  {
    hide Emit, LineChar, Width;
    LineAt(line, column);
  }

  /** Line and column in what is left after the first line. */
  lemma LineFound(b: string, i: nat)
    requires b != ""
    ensures i < 78 ==> i % 78 == i && LineOctets(b, i / 78) == b[..LineLen(b)]
    ensures i >= 78 && |b| > MAXBIN ==> (i - 78) % 78 == i % 78 && LineOctets(b[MAXBIN..], (i - 78) / 78) == LineOctets(b, i / 78)
    ensures Width(MAXBIN) == 76 && (|b| <= MAXBIN ==> Width(|b|) <= 76)
  {
    if i < 78 {
      assert b[0..] == b;
    } else if |b| > MAXBIN {
      hide LineOctets;
      assert (i - 78) / 78 == i / 78 - 1;
      SameLine(b, i / 78);
    }
  }

  lemma SizeStep(n: nat)
    requires n >= 1
    ensures Size64(n) == if n > 57 then 78 + Size64(n - 57) else Width(n) + 2
  {
    if n > 57 { assert (n + 2) / 3 == 19 + (n - 57 + 2) / 3 && (n + 56) / 57 == 1 + (n - 57 + 56) / 57; }
  }

  lemma SameLine(b: string, n: nat)
    requires |b| > MAXBIN && n >= 1
    ensures LineOctets(b[MAXBIN..], n - 1) == LineOctets(b, n)
  {
    var rest := b[MAXBIN..];
    var j := if MAXBIN * (n - 1) <= |rest| then MAXBIN * (n - 1) else |rest|;
    assert rest[j..] == b[MAXBIN + j..];
  }
}
