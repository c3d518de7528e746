/** Texts as lines, each with the way it ends, and what the conversions of line delimiters
make of them. */
module LineForms {
  import opened Text
  import opened Lines

  datatype Ending = Lf | Cr | CrLf

  datatype Line = Line(text: string, ending: Ending)

  function EndingText(e: Ending): string {
    match e case Lf => [LF] case Cr => [CR] case CrLf => [CR, LF]
  }

  /** The lines, and the text after the last line end. */
  function Written(lines: seq<Line>, last: string): string {
    if lines == [] then last else lines[0].text + (EndingText(lines[0].ending) + Written(lines[1..], last))
  }

  /** The same lines, all ended alike. */
  function Ended(lines: seq<Line>, e: Ending): (ls: seq<Line>)
    ensures |ls| == |lines| && forall i :: 0 <= i < |ls| ==> ls[i] == Line(lines[i].text, e)
  {
    seq(|lines|, i requires 0 <= i < |lines| => Line(lines[i].text, e))
  }

  ghost predicate IsPlain(s: string) { CR !in s && LF !in s }

  /** No line holds a delimiter, and no CR that ends a line is followed by an LF, with
      which it would be one delimiter. */
  ghost predicate LinesOk(lines: seq<Line>, last: string)
    decreases |lines|
  {
    if lines == [] then IsPlain(last)
    else
      && IsPlain(lines[0].text) && LinesOk(lines[1..], last)
      && (lines[0].ending == Cr ==> !StartsWithLf(Written(lines[1..], last)))
  }

  predicate StartsWithLf(s: string) { s != "" && s[0] == LF }

  lemma {:induction false} PlainThen(a: string, rest: string)
    requires IsPlain(a)
    ensures Normalise(a + rest) == a + Normalise(rest) && ToCrlf(a + rest) == a + ToCrlf(rest)
  {
    hide Normalise, ToCrlf;
    if a == "" {
      assert a + rest == rest;
      assert a + Normalise(rest) == Normalise(rest) && a + ToCrlf(rest) == ToCrlf(rest);
    } else {
      HeadAndTail(a);
      PlainThen(a[1..], rest);
      assert a + rest == [a[0]] + (a[1..] + rest) && a == [a[0]] + a[1..];
      PlainFirst(a[0], a[1..] + rest);
      Assoc([a[0]], a[1..], Normalise(rest));
      Assoc([a[0]], a[1..], ToCrlf(rest));
    }
  }

  lemma PlainFirst(c: char, rest: string)
    requires c != CR && c != LF
    ensures Normalise([c] + rest) == [c] + Normalise(rest) && ToCrlf([c] + rest) == [c] + ToCrlf(rest)
  {
    assert ([c] + rest)[1..] == rest;
  }

  lemma EndingNormalised(e: Ending, rest: string)
    requires e == Cr ==> !StartsWithLf(rest)
    ensures Normalise(EndingText(e) + rest) == [LF] + Normalise(rest)
  {
    var s := EndingText(e) + rest;
    if e == CrLf { assert s[2..] == rest; } else { assert s[1..] == rest; }
  }

  /** Every line keeps its text and ends in LF, however it ended before. */
  lemma {:induction false} NormaliseLines(lines: seq<Line>, last: string)
    requires LinesOk(lines, last)
    ensures Normalise(Written(lines, last)) == Written(Ended(lines, Lf), last)
    decreases |lines|
  {
    if lines == [] {
      PlainThen(last, "");
      assert last + "" == last;
    } else {
      var rest := Written(lines[1..], last);
      NormaliseLines(lines[1..], last);
      PlainThen(lines[0].text, EndingText(lines[0].ending) + rest);
      EndingNormalised(lines[0].ending, rest);
      assert Ended(lines, Lf)[1..] == Ended(lines[1..], Lf);
    }
  }

  /** Every LF becomes CR LF, and nothing else changes. */
  lemma {:induction false} CrlfLines(lines: seq<Line>, last: string)
    requires LinesOk(lines, last)
    ensures ToCrlf(Written(Ended(lines, Lf), last)) == Written(Ended(lines, CrLf), last)
    decreases |lines|
  {
    if lines == [] {
      PlainThen(last, "");
      assert last + "" == last;
    } else {
      var rest := Written(Ended(lines[1..], Lf), last);
      CrlfLines(lines[1..], last);
      PlainThen(lines[0].text, [LF] + rest);
      assert ([LF] + rest)[1..] == rest;
      assert ToCrlf([LF] + rest) == [CR, LF] + ToCrlf(rest);
      assert Ended(lines, Lf)[1..] == Ended(lines[1..], Lf) && Ended(lines, CrLf)[1..] == Ended(lines[1..], CrLf);
    }
  }

  /** Every text is lines. */
  lemma {:induction false} AllIsLines(s: string) returns (lines: seq<Line>, last: string)
    ensures LinesOk(lines, last) && Written(lines, last) == s
    decreases |s|
  {
    if s == "" {
      lines, last := [], "";
    } else if s[0] == CR || s[0] == LF {
      var e := if s[0] == LF then Lf else if |s| > 1 && s[1] == LF then CrLf else Cr;
      var rest := s[|EndingText(e)|..];
      var more;
      more, last := AllIsLines(rest);
      lines := [Line("", e)] + more;
      assert lines[1..] == more;
      assert s == EndingText(e) + rest && "" + s == s;
    } else {
      var more, after := AllIsLines(s[1..]);
      last := after;
      if more == [] {
        lines, last := [], s;
        assert s == [s[0]] + s[1..];
      } else {
        lines := [Line([s[0]] + more[0].text, more[0].ending)] + more[1..];
        assert lines[1..] == more[1..];
        var tail := EndingText(more[0].ending) + Written(more[1..], last);
        assert s == [s[0]] + s[1..] && s[1..] == more[0].text + tail;
        assert ([s[0]] + more[0].text) + tail == s;
      }
    }
  }

  /** For every text: normalising keeps the text of each line, which is told by where CR LF,
      CR and LF stand, and ends each in LF; and the other conversion turns that into the
      same lines ended in CR LF. */
  lemma LinesKept(s: string) returns (lines: seq<Line>, last: string)
    ensures LinesOk(lines, last) && s == Written(lines, last)
    ensures Normalise(s) == Written(Ended(lines, Lf), last) && ToCrlf(Normalise(s)) == Written(Ended(lines, CrLf), last)
  {
    lines, last := AllIsLines(s);
    NormaliseLines(lines, last);
    CrlfLines(lines, last);
  }
}
