/** Line delimiters: the conversions of xmlrpc-c/src/xmlrpc_string.c between the form
of values, where LF ends a line, and the forms of the outside. */
module Lines {
  import opened Text

  const CR := '\r'
  const LF := '\n'

  /** The line-end normalisation of XML 1.0 section 2.11: CR LF, and any CR that no LF
      follows, become LF. */
  function Normalise(s: string): (t: string)
    ensures |t| <= |s| && (s != "" ==> t != "")
    decreases |s|
  {
    if s == "" then ""
    else if s[0] != CR then [s[0]] + Normalise(s[1..])
    else if |s| > 1 && s[1] == LF then [LF] + Normalise(s[2..])
    else [LF] + Normalise(s[1..])
  }

  /** LF written as CR LF. */
  function ToCrlf(s: string): string {
    if s == "" then "" else CrlfOf(s[0]) + ToCrlf(s[1..])
  }

  function CrlfOf(c: char): string { if c == LF then [CR, LF] else [c] }

  function LineCount(s: string): nat {
    if s == "" then 0 else (if s[0] == LF then 1 else 0) + LineCount(s[1..])
  }

  lemma {:induction false} NoCrLeft(s: string)
    ensures CR !in Normalise(s)
    decreases |s|
  {
    if s != "" {
      if s[0] != CR { NoCrLeft(s[1..]); }
      else if |s| > 1 && s[1] == LF { NoCrLeft(s[2..]); }
      else { NoCrLeft(s[1..]); }
    }
  }

  lemma {:induction false} CrFreeStays(s: string)
    requires CR !in s
    ensures Normalise(s) == s
  {
    if s != "" {
      CrFreeStays(s[1..]);
    }
  }

  /** Exactly the texts without CR are left as they are. */
  lemma StaysIffCrFree(s: string)
    ensures Normalise(s) == s <==> CR !in s
  {
    NoCrLeft(s);
    if CR !in s { CrFreeStays(s); }
  }

  lemma NormaliseTwice(s: string)
    ensures Normalise(Normalise(s)) == Normalise(s)
  {
    NoCrLeft(s);
    CrFreeStays(Normalise(s));
  }

  lemma {:induction false} CrlfLength(s: string)
    ensures |ToCrlf(s)| == |s| + LineCount(s)
  {
    if s != "" {
      CrlfLength(s[1..]);
    }
  }

  lemma {:induction false} CrlfNormalised(s: string)
    requires CR !in s
    ensures Normalise(ToCrlf(s)) == s
  {
    if s != "" {
      CrlfNormalised(s[1..]);
      var t := ToCrlf(s);
      if s[0] == LF {
        assert t[0] == CR && t[1] == LF && t[2..] == ToCrlf(s[1..]);
      } else {
        assert t[0] == s[0] && t[1..] == ToCrlf(s[1..]);
      }
    }
  }

  /** Writing CR LF and reading it back is the identity on exactly the texts without
      CR. */
  lemma CrlfRoundTrip(s: string)
    ensures Normalise(ToCrlf(s)) == s <==> CR !in s
  {
    NoCrLeft(ToCrlf(s));
    if CR !in s { CrlfNormalised(s); }
  }

  // ---------------------------------------------------------------------
  // The conversions, which move cursors over buffers.

  /** memchr(): the first `c` in `src[from..to]`. */
  method MemChr(src: array<char>, from: nat, to: nat, c: char) returns (pos: Option<nat>)
    requires from <= to <= src.Length
    ensures pos.None? ==> c !in src[from..to]
    ensures pos.Some? ==> from <= pos.value < to && src[pos.value] == c && c !in src[from..pos.value]
  {
    var i := from;
    while i < to
      invariant from <= i <= to && c !in src[from..i]
    {
      if src[i] == c { return Some(i); }
      i := i + 1;
    }
    pos := None;
  }

  method MemCpy(dst: array<char>, at: nat, src: array<char>, from: nat, n: nat)
    requires dst != src && at + n <= dst.Length && from + n <= src.Length
    modifies dst
    ensures dst[..at + n] == old(dst[..at]) + src[from..from + n]
  {
    forall i | 0 <= i < n { dst[at + i] := src[from + i]; }
  }

  method Put(dst: array<char>, at: nat, c: char)
    requires at < dst.Length
    modifies dst
    ensures dst[..at + 1] == old(dst[..at]) + [c]
  {
    dst[at] := c;
  }

  lemma {:induction false} PlainRun(r: string, n: nat)
    requires n <= |r| && CR !in r[..n]
    ensures Normalise(r) == r[..n] + Normalise(r[n..])
  {
    if n == 0 {
      assert r[..0] == "" && r[0..] == r;
    } else {
      assert r[..n][0] == r[0];
      assert r[1..][..n - 1] == r[..n][1..] && r[1..][n - 1..] == r[n..];
      PlainRun(r[1..], n - 1);
    }
  }

  /** The text of `src[i..n]`; nothing once `i` is past `n`. */
  ghost function Rest(src: string, i: nat, n: nat): string
    requires n <= |src|
  {
    if i < n then src[i..n] else ""
  }

  /** What follows a CR at `k` and the LF that may belong to it. */
  function AfterCr(r: string, k: nat): string
    requires k < |r|
  {
    if k + 1 < |r| && r[k + 1] == LF then r[k + 2..] else r[k + 1..]
  }

  lemma CrStep(r: string, k: nat)
    requires k < |r| && r[k] == CR && CR !in r[..k]
    ensures Normalise(r) == (r[..k] + [LF]) + Normalise(AfterCr(r, k))
  {
    PlainRun(r, k);
    CrHead(r[k..]);
    hide Normalise;
    assert AfterCr(r[k..], 0) == AfterCr(r, k);
    Assoc(r[..k], [LF], Normalise(AfterCr(r, k)));
  }

  lemma CrHead(t: string)
    requires t != "" && t[0] == CR
    ensures Normalise(t) == [LF] + Normalise(AfterCr(t, 0))
  {}

  /** One line: the run up to a CR is copied, LF is written and the delimiter skipped. */
  method CopyLine(src: array<char>, srcLen: nat, from: nat, crPos: nat, dst: array<char>, at: nat)
    returns (srcCursor: nat, dstCursor: nat)
    requires from <= crPos < srcLen < src.Length && src[crPos] == CR
    requires dst != src && at <= from && srcLen < dst.Length
    modifies dst
    ensures crPos < srcCursor <= srcLen + 1 && dstCursor <= srcCursor && dstCursor <= srcLen
    ensures dst[..dstCursor] == old(dst[..at]) + (src[from..crPos] + [LF])
    ensures Rest(src[..], srcCursor, srcLen) == AfterCr(src[from..srcLen], crPos - from)
  {
    var copyLen := crPos - from;
    MemCpy(dst, at, src, from, copyLen);
    srcCursor := from + copyLen;
    dstCursor := at + copyLen;
    Put(dst, dstCursor, LF);
    dstCursor := dstCursor + 1;
    srcCursor := srcCursor + 1;
    if src[srcCursor] == LF { srcCursor := srcCursor + 1; }
    Assoc(old(dst[..at]), src[from..crPos], [LF]);
  }

  /** The rest of the text, up to the first CR in it. */
  lemma RestRun(src: array<char>, i: nat, cr: Option<nat>, n: nat)
    requires i < n <= src.Length
    requires cr.Some? ==> i <= cr.value < n
    ensures Rest(src[..], i, n) == src[i..n]
    ensures cr.Some? ==> Rest(src[..], i, n)[..cr.value - i] == src[i..cr.value]
    ensures cr.Some? ==> Rest(src[..], i, n)[cr.value - i] == src[cr.value]
  {}

  lemma RestEnds(src: string, i: nat, n: nat)
    requires n <= i && n <= |src|
    ensures Rest(src, i, n) == ""
    ensures Normalise("") == ""
  {}

  /** copyLines(): `srcLen` bytes of `src` are copied with their line delimiters
      normalised, and NUL is added; never more than `srcLen + 1` bytes are used. Like
      the source, it may look at the byte after the last. */
  method CopyLines(src: array<char>, srcLen: nat) returns (dst: array<char>, size: nat)
    requires srcLen < src.Length
    ensures fresh(dst) && size <= dst.Length == srcLen + 1
    ensures dst[..size] == Normalise(src[..srcLen]) + ['\0']
  {
    hide Normalise, AfterCr, Rest;
    dst := new char[srcLen + 1];
    var srcCursor, dstCursor: nat := 0, 0;
    ghost var total, rest := Normalise(src[..srcLen]), src[..srcLen];
    if srcLen > 0 { RestRun(src, 0, None, srcLen); } else { RestEnds(src[..], 0, 0); }
    assert dst[..0] + total == total;
    while srcCursor < srcLen
      invariant dstCursor <= srcLen && dstCursor <= srcCursor <= srcLen + 1
      invariant rest == Rest(src[..], srcCursor, srcLen)
      invariant dst[..dstCursor] + Normalise(rest) == total
    {
      var crPos := MemChr(src, srcCursor, srcLen, CR);
      RestRun(src, srcCursor, crPos, srcLen);
      if crPos.Some? {
        ghost var done, k := dst[..dstCursor], crPos.value - srcCursor;
        CrStep(rest, k);
        Assoc(done, rest[..k] + [LF], Normalise(AfterCr(rest, k)));
        srcCursor, dstCursor := CopyLine(src, srcLen, srcCursor, crPos.value, dst, dstCursor);
        rest := AfterCr(rest, k);
      } else {
        CrFreeStays(rest);
        srcCursor, dstCursor := CopyRest(src, srcLen, srcCursor, dst, dstCursor);
        rest := "";
      }
    }
    RestEnds(src[..], srcCursor, srcLen);
    Assoc(dst[..dstCursor], "", "");
    Put(dst, dstCursor, '\0');
    size := dstCursor + 1;
  }

  /** No CR is left: the remaining bytes are copied. */
  method CopyRest(src: array<char>, srcLen: nat, from: nat, dst: array<char>, at: nat)
    returns (srcCursor: nat, dstCursor: nat)
    requires from < srcLen < src.Length && dst != src && at <= from && srcLen < dst.Length
    modifies dst
    ensures srcCursor == srcLen && dstCursor <= srcCursor
    ensures dst[..dstCursor] + Normalise("") == old(dst[..at]) + src[from..srcLen]
    ensures Rest(src[..], srcCursor, srcLen) == ""
  {
    var remainingLen := srcLen - from;
    MemCpy(dst, at, src, from, remainingLen);
    srcCursor := from + remainingLen;
    dstCursor := at + remainingLen;
    Assoc(dst[..dstCursor], "", "");
  }

  lemma {:induction false} NoLines(s: string)
    requires LF !in s
    ensures LineCount(s) == 0
  {
    if s != "" { NoLines(s[1..]); }
  }

  lemma {:induction false} LinesSplit(a: string, b: string)
    ensures LineCount(a + b) == LineCount(a) + LineCount(b)
  {
    if a == "" {
      assert a + b == b;
    } else {
      LinesSplit(a[1..], b);
      assert (a + b)[1..] == a[1..] + b;
    }
  }

  method LineDelimCount(src: array<char>, end: nat) returns (count: nat)
    requires end <= src.Length
    ensures count == LineCount(src[..end])
  {
    count := 0;
    var p := 0;
    while p < end
      invariant p <= end && count == LineCount(src[..p])
    {
      var nlPos := MemChr(src, p, end, LF);
      if nlPos.Some? {
        NoLines(src[p..nlPos.value]);
        LinesSplit(src[p..nlPos.value], [LF]);
        LinesSplit(src[..p], src[p..nlPos.value + 1]);
        assert src[p..nlPos.value + 1] == src[p..nlPos.value] + [LF];
        assert src[..nlPos.value + 1] == src[..p] + src[p..nlPos.value + 1];
        count := count + 1;
        p := nlPos.value + 1;
      } else {
        NoLines(src[p..end]);
        LinesSplit(src[..p], src[p..end]);
        assert src[..end] == src[..p] + src[p..end];
        p := end;
      }
    }
  }

  lemma {:induction false} CrlfSplit(a: string, b: string)
    ensures ToCrlf(a + b) == ToCrlf(a) + ToCrlf(b)
  {
    if a == "" {
      assert a + b == b;
    } else {
      CrlfSplit(a[1..], b);
      CrlfHead(a);
      CrlfHead(a + b);
      hide ToCrlf, CrlfOf;
      assert (a + b)[1..] == a[1..] + b && (a + b)[0] == a[0];
      Assoc(CrlfOf(a[0]), ToCrlf(a[1..]), ToCrlf(b));
    }
  }

  lemma CrlfHead(s: string)
    requires s != ""
    ensures ToCrlf(s) == CrlfOf(s[0]) + ToCrlf(s[1..])
  {}

  lemma CrlfStep(src: string, p: nat, n: nat)
    requires p < n <= |src|
    ensures ToCrlf(src[..p + 1]) == ToCrlf(src[..p]) + CrlfOf(src[p])
    ensures |ToCrlf(src[..p + 1])| <= |ToCrlf(src[..n])|
  {
    assert src[..p + 1] == src[..p] + [src[p]];
    CrlfSplit(src[..p], [src[p]]);
    assert [src[p]][1..] == "";
    assert src[..n] == src[..p + 1] + src[p + 1..n];
    CrlfSplit(src[..p + 1], src[p + 1..n]);
  }

  /** copyAndConvertLfToCrlf(): the buffer that was sized by counting is filled exactly. */
  method CopyAndConvertLfToCrlf(src: array<char>, srcLen: nat) returns (dst: array<char>, dstLen: nat)
    requires srcLen <= src.Length
    ensures fresh(dst) && dst.Length == dstLen + 1 && dst[dstLen] == '\0'
    ensures dst[..dstLen] == ToCrlf(src[..srcLen])
  {
    hide ToCrlf;
    var nLineDelim := LineDelimCount(src, srcLen);
    dstLen := srcLen + nLineDelim;
    CrlfLength(src[..srcLen]);
    ghost var s := src[..];
    assert s[..srcLen] == src[..srcLen];
    dst := new char[dstLen + 1];
    var p, q := 0, 0;
    NoText(s[..0]);
    while p < srcLen
      invariant p <= srcLen && q <= dstLen && s == src[..]
      invariant dst[..q] == ToCrlf(s[..p])
    {
      CrlfStep(s, p, srcLen);
      if src[p] == LF {
        dst[q] := CR;
        q := q + 1;
      }
      dst[q] := src[p];
      q := q + 1;
      p := p + 1;
    }
    dst[q] := '\0';
  }

  lemma NoText(s: string)
    requires s == ""
    ensures ToCrlf(s) == ""
  {}
}
