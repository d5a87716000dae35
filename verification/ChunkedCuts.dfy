/** What the client's chunked reader makes of size lines in general, and of replies that are cut short. */
module ChunkedCuts {
  import opened Wrappers
  import opened Bytes
  import opened LineReader
  import opened Chunked

  ghost predicate HexDigits(d: Bytes) {
    forall i :: 0 <= i < |d| ==> '0' <= d[i] <= '9' || 'a' <= d[i] <= 'f' || 'A' <= d[i] <= 'F'
  }

  /** Spaces and control characters that a number may follow. */
  ghost predicate Blank(s: Bytes) {
    forall i :: 0 <= i < |s| ==> s[i] in " \t\n\r" || s[i] as int == 11 || s[i] as int == 12
  }

  /** What a run of digits may be followed by: nothing that would belong to the number. */
  ghost predicate EndsNumber(tail: Bytes) {
    tail == [] || (!HexDigits([tail[0]]) && tail[0] != 'x' && tail[0] != 'X')
  }

  lemma DigitIff(c: Byte)
    ensures HexDigits([c]) <==> HexValue(c).Some?
  {
    assert [c][0] == c;
  }

  lemma DigitsIff(d: Bytes)
    ensures HexDigits(d) <==> forall i :: 0 <= i < |d| ==> HexValue(d[i]).Some?
  {
  }

  lemma {:induction false} SkipsBlank(space: Bytes, s: Bytes)
    requires Blank(space) && (s == [] || !IsSpace(s[0]))
    ensures SkipSpace(space + s) == s
  {
    if space == [] {
      assert space + s == s;
    } else {
      assert (space + s)[1..] == space[1..] + s;
      SkipsBlank(space[1..], s);
    }
  }

  lemma {:induction false} RunOfDigits(d: Bytes, tail: Bytes)
    requires HexDigits(d) && EndsNumber(tail)
    ensures DigitRun(d + tail) == |d|
  {
    if d == [] {
      assert d + tail == tail;
      if tail != [] { DigitIff(tail[0]); }
    } else {
      assert (d + tail)[1..] == d[1..] + tail;
      RunOfDigits(d[1..], tail);
    }
  }

  /** An optional 0x before the digits changes nothing. */
  lemma {:induction false} AfterPrefix(prefix: Bytes, d: Bytes, tail: Bytes)
    requires prefix in {[], ['0', 'x'], ['0', 'X']} && d != [] && HexDigits(d) && EndsNumber(tail)
    ensures var b := prefix + d + tail;
      (if |b| > 2 && b[0] == '0' && (b[1] == 'x' || b[1] == 'X') && HexValue(b[2]).Some? then b[2..] else b) == d + tail
  {
    var b := prefix + d + tail;
    if prefix == [] {
      assert b == d + tail;
      assert |d| == 1 && |b| > 1 ==> b[1] == tail[0];
      assert |d| > 1 ==> b[1] == d[1];
    } else {
      assert b[2] == d[0];
      assert b[2..] == d + tail;
    }
  }

  /** A number with its sign. */
  function Signed(sign: Bytes, n: nat): int { if sign == ['-'] then -(n as int) else n }

  /**
   * What a size line may look like: blanks, a sign, 0x and digits, and anything after them. It is read as
   * the signed number the digits denote, and throws exactly if that does not fit an `int`.
   */
  lemma {:induction false} StoiReads(space: Bytes, sign: Bytes, prefix: Bytes, d: Bytes, tail: Bytes)
    requires Blank(space) && sign in {[], ['+'], ['-']} && prefix in {[], ['0', 'x'], ['0', 'X']}
    requires d != [] && HexDigits(d) && EndsNumber(tail)
    ensures forall i :: 0 <= i < |d| ==> HexValue(d[i]).Some?
    ensures StoiHex(space + (sign + (prefix + d + tail))) ==
      var v := Signed(sign, ValueOf(d)); if -0x8000_0000 <= v <= 0x7fff_ffff then Some(v) else None
  {
    hide *;
    DigitsIff(d);
    var b := prefix + d + tail;
    StartsNumber(prefix, d, tail);
    AfterSign(sign, b);
    SkipsBlank(space, sign + b);
    AfterPrefix(prefix, d, tail);
    RunOfDigits(d, tail);
    assert (d + tail)[..|d|] == d;
    StoiParts(space + (sign + b), sign + b, b, d + tail, |d|, sign == ['-']);
    SignedIs(sign, ValueOf(d));
  }

  lemma SignedIs(sign: Bytes, n: nat)
    ensures Signed(sign, n) == if sign == ['-'] then -(n as int) else n
  {
  }

  /** The stages of reading a number. */
  lemma StoiParts(s: Bytes, a: Bytes, b: Bytes, c: Bytes, n: nat, negative: bool)
    requires SkipSpace(s) == a && a != [] && (a[0] == '-' <==> negative)
    requires (if a[0] == '-' || a[0] == '+' then a[1..] else a) == b
    requires (if |b| > 2 && b[0] == '0' && (b[1] == 'x' || b[1] == 'X') && HexValue(b[2]).Some? then b[2..] else b) == c
    requires DigitRun(c) == n
    ensures n <= |c| && forall i :: 0 <= i < n ==> HexValue(c[..n][i]).Some?
    ensures StoiHex(s) ==
      var v: int := if negative then -(ValueOf(c[..n]) as int) else ValueOf(c[..n]);
      if n == 0 || v < -0x8000_0000 || v > 0x7fff_ffff then None else Some(v)
  {
    hide SkipSpace, DigitRun, ValueOf, HexValue;
  }

  lemma StartsNumber(prefix: Bytes, d: Bytes, tail: Bytes)
    requires prefix in {[], ['0', 'x'], ['0', 'X']} && d != [] && HexDigits(d)
    ensures var b := prefix + d + tail; b != [] && HexDigits([b[0]])
  {
    var b := prefix + d + tail;
    assert b[0] == if prefix == [] then d[0] else '0';
  }

  lemma AfterSign(sign: Bytes, b: Bytes)
    requires sign in {[], ['+'], ['-']} && b != [] && HexDigits([b[0]])
    ensures var a := sign + b;
      && a != [] && !IsSpace(a[0])
      && (a[0] == '-' <==> sign == ['-'])
      && (if a[0] == '-' || a[0] == '+' then a[1..] else a) == b
  {
    var a := sign + b;
    assert [b[0]][0] == b[0];
    if sign == [] {
      assert a == b;
    } else {
      assert a[0] == sign[0] && a[1..] == b;
    }
  }

  /** Without a digit after blanks and sign there is no number, and the reader throws. */
  lemma {:induction false} StoiThrows(space: Bytes, sign: Bytes, tail: Bytes)
    requires Blank(space) && sign in {[], ['+'], ['-']}
    requires tail == [] || !HexDigits([tail[0]])
    requires sign == [] && tail != [] ==> !IsSpace(tail[0]) && tail[0] != '+' && tail[0] != '-'
    ensures StoiHex(space + (sign + tail)) == None
  {
    var a := sign + tail;
    if tail != [] { DigitIff(tail[0]); }
    assert sign != [] ==> a[0] == sign[0] && a[1..] == tail;
    assert sign == [] ==> a == tail;
    SkipsBlank(space, a);
  }

  /** A negative size is taken for the end of the reply: it is reported complete. */
  lemma {:induction false} NegativeSizeEnds(n: nat, rest: Bytes, broken: bool)
    requires 0 < n <= 0x8000_0000
    ensures Decode(['-'] + Hex(n) + CRLF + rest, broken) == ChunkResult(Finished(true), [], rest)
  {
    hide Hex, StoiHex, NextLine;
    var line := ['-'] + Hex(n) + [CR];
    HexDenotes(n);
    HexPrintable(Hex(n));
    DigitsIff(Hex(n));
    LineOf(line, rest);
    assert ['-'] + Hex(n) + CRLF + rest == line + [LF] + rest;
    assert CString(line + [LF]) == line + [LF];
    DigitIff(CR);
    assert [] + (['-'] + ([] + Hex(n) + CRLF)) == line + [LF];
    StoiReads([], ['-'], [], Hex(n), CRLF);
  }

  /** A size line without a number makes the reader throw. */
  lemma {:induction false} NoSizeThrows(line: Bytes, rest: Bytes, broken: bool)
    requires LF !in line && (line == [] || line[0] == NUL || (!HexDigits([line[0]]) && !IsSpace(line[0])))
    requires line != [] ==> line[0] != '+' && line[0] != '-'
    ensures Decode(line + [LF] + rest, broken).outcome == Threw
  {
    hide NextLine;
    LineOf(line, rest);
    var s := CString(line + [LF]);
    if line == [] {
      assert s == [LF];
      SkipsBlank([LF], []);
      assert [LF] + [] == s;
      assert StoiHex(s) == None;
    } else if line[0] == NUL {
      assert s == [];
      assert StoiHex(s) == None;
    } else {
      assert s[0] == line[0];
      DigitIff(line[0]);
      assert [] + ([] + s) == s;
      StoiThrows([], [], s);
    }
  }

  /**
   * What is written for a chunk is a chunk by the grammar of section 4.1 of RFC 7230: its size in
   * hexadecimal digits, a line end, the data, a line end.
   */
  lemma {:induction false} FrameIsChunk(c: Bytes) returns (size: Bytes)
    ensures size != [] && HexDigits(size) && (forall i :: 0 <= i < |size| ==> HexValue(size[i]).Some?)
    ensures ValueOf(size) == |c| && Frame(c) == size + "\r\n" + c + "\r\n"
  {
    hide Hex, ValueOf;
    size := Hex(|c|);
    HexDenotes(|c|);
    DigitsIff(size);
    assert CRLF == "\r\n";
  }

  /** Reading a whole chunk, and then what follows it. */
  lemma {:induction false} ReadChunk(c: Bytes, t: Bytes, broken: bool)
    requires c != [] && |c| <= INT_MAX
    ensures Decode(Hex(|c|) + CRLF + (c + CRLF + t), broken) == var r := Decode(t, broken); r.(body := c + r.body)
  {
    hide Hex, NextSize, NextLine, CString;
    var data := c + CRLF + t;
    SizeLine(|c|, data, broken);
    assert data[..|c|] == c && data[|c|..] == CRLF + t;
    CRLFLine(t, broken);
    assert c + [] == c;
  }

  lemma {:induction false} ValueOfPrefix(d: Bytes, k: nat)
    requires k <= |d| && forall i :: 0 <= i < |d| ==> HexValue(d[i]).Some?
    ensures ValueOf(d[..k]) <= ValueOf(d)
  {
    if k < |d| {
      ValueOfPrefix(d[..|d| - 1], k);
      assert d[..|d| - 1][..k] == d[..k];
    } else {
      assert d[..k] == d;
    }
  }

  /** A line without its newline. */
  lemma {:induction false} Unfinished(p: Bytes, broken: bool)
    requires LF !in p
    ensures NextLine(p, broken) == LineResult(p != [] && !broken, p, [])
  {
    LineShape(p);
    var n := LineLength(p);
    assert n > 0 ==> p[n - 1] in p;
    assert p[..|p|] == p && p[|p|..] == [];
  }

  /** The first digits of a number denote no more than all of them. */
  lemma {:induction false} CutDigits(h: Bytes, k: nat, tail: Bytes)
    requires (forall i :: 0 <= i < |h| ==> HexValue(h[i]).Some?) && k <= |h| && ValueOf(h) <= INT_MAX
    requires (tail == [] || tail == [CR]) && (k == 0 ==> tail == [])
    ensures LF !in h[..k] + tail && NUL !in h[..k] + tail
    ensures 0 < k ==> StoiHex(h[..k] + tail).Some? && 0 <= StoiHex(h[..k] + tail).value
  {
    hide StoiHex, ValueOf, HexValue;
    var d := h[..k];
    HexPrintable(h);
    DigitsIff(h);
    assert forall i :: 0 <= i < k ==> d[i] == h[i] && h[i] in h;
    if 0 < k {
      DigitIff(CR);
      assert HexDigits(d) && d + tail == [] + ([] + ([] + d + tail));
      StoiReads([], [], [], d, tail);
      ValueOfPrefix(h, k);
    }
  }

  /** A size line cut short is no line, or is read as a smaller size with nothing after it. */
  lemma {:induction false} CutSize(n: nat, k: nat, broken: bool)
    requires n <= INT_MAX && k < |Hex(n)| + 2
    ensures var s := NextSize((Hex(n) + CRLF)[..k], broken);
      s == SizeResult(Some(Finished(false)), 0, []) || (s.outcome.None? && 0 <= s.size && s.rest == [])
  {
    hide Hex, StoiHex, NextLine;
    var h, p := Hex(n), (Hex(n) + CRLF)[..k];
    HexDenotes(n);
    HexPrintable(h);
    if k <= |h| {
      assert p == h[..k] + [];
      CutDigits(h, k, []);
    } else {
      assert p == h[..|h|] + [CR];
      CutDigits(h, |h|, [CR]);
    }
    Unfinished(p, broken);
  }

  /** The cut comes after the carriage return that follows the data of chunk `j`. */
  ghost predicate BetweenCRAndLF(chunks: seq<Bytes>, j: nat, n: nat) {
    j < |chunks| && n + 1 == |Frames(chunks[..j + 1])|
  }

  /** What becomes of a reply of which only the first `n` bytes arrive. */
  ghost predicate CutOutcome(chunks: seq<Bytes>, n: nat, broken: bool, r: ChunkResult) {
    || (r.outcome == Finished(false) && (broken || forall j :: 0 <= j < |chunks| ==> !BetweenCRAndLF(chunks, j, n)))
    || (r.outcome == Finished(true) && !broken
        && exists j :: 0 <= j < |chunks| && BetweenCRAndLF(chunks, j, n) && r.body == Flatten(chunks[..j]))
  }

  lemma FirstFrame(chunks: seq<Bytes>)
    requires chunks != []
    ensures Frames(chunks) == Frame(chunks[0]) + Frames(chunks[1..])
    ensures Frame(chunks[0]) == Hex(|chunks[0]|) + CRLF + (chunks[0] + CRLF)
    ensures |Frame(chunks[0])| == |Hex(|chunks[0]|)| + 2 + |chunks[0]| + 2
  {
  }

  /** Where the cut is, seen from the first chunk and from the others. */
  lemma {:induction false} BetweenFirst(chunks: seq<Bytes>, j: nat, n: nat)
    requires j < |chunks|
    ensures BetweenCRAndLF(chunks, j, n) <==>
      if j == 0 then n + 1 == |Frame(chunks[0])|
      else |Frame(chunks[0])| <= n && BetweenCRAndLF(chunks[1..], j - 1, n - |Frame(chunks[0])|)
    ensures 0 < j ==> Flatten(chunks[..j]) == chunks[0] + Flatten(chunks[1..][..j - 1])
    ensures Flatten(chunks[..0]) == []
  {
    hide Frame, Hex;
    var first := chunks[..j + 1];
    assert first[0] == chunks[0] && first[1..] == chunks[1..][..j];
    FirstFrame(first);
    if j == 0 {
      assert Frames(chunks[1..][..0]) == [];
    } else {
      assert chunks[..j][1..] == chunks[1..][..j - 1];
      FirstFrame(chunks[1..][..j]);
    }
  }

  /** A cut in the middle of the first chunk. */
  lemma {:induction false} CutInChunk(c: Bytes, k: nat, broken: bool)
    requires c != [] && |c| <= INT_MAX && k < |c| + 2
    ensures var r := Decode(Hex(|c|) + CRLF + (c + CRLF)[..k], broken);
      r.body == [] && r.outcome == Finished(k == |c| + 1 && !broken)
  {
    hide Hex, NextSize, NextLine;
    var part := (c + CRLF)[..k];
    SizeLine(|c|, part, broken);
    if |c| <= k {
      var p := part[|c|..];
      assert p == CRLF[..k - |c|];
      Unfinished(p, broken);
      assert CString(p) != CRLF;
    }
  }

  /** A cut in the last size line or the line end after it. */
  lemma {:induction false} CutAtEnd(k: nat, broken: bool)
    requires k < 2
    ensures Decode(Hex(0) + CRLF + CRLF[..k], broken).outcome == Finished(false)
  {
    hide Hex, NextSize, NextLine;
    var p := CRLF[..k];
    SizeLine(0, p, broken);
    Unfinished(p, broken);
    assert CString(p) != CRLF;
  }

  lemma {:induction false} CutInSize(n: nat, k: nat, broken: bool)
    requires n <= INT_MAX && k < |Hex(n)| + 2
    ensures Decode((Hex(n) + CRLF)[..k], broken).outcome == Finished(false)
  {
    hide Hex, NextSize, NextLine;
    CutSize(n, k, broken);
    Unfinished([], broken);
  }

  /**
   * A reply cut short is reported as failed, never as an exception, with one exception: on a connection
   * that ends in order, a cut between the carriage return and the line feed after a chunk's data is
   * reported as success, and the body lacks that chunk and all after it.
   */
  lemma {:induction false} CutShort(chunks: seq<Bytes>, n: nat, broken: bool)
    requires NonEmpty(chunks) && FitInt(chunks) && n < |Frames(chunks) + Frame([])|
    ensures CutOutcome(chunks, n, broken, Decode((Frames(chunks) + Frame([]))[..n], broken))
    decreases |chunks|
  {
    hide Hex, Frames, Frame, Decode, BetweenCRAndLF;
    var all := Frames(chunks) + Frame([]);
    if chunks == [] {
      NoFrames();
      assert all == Frame([]);
      CutTerminator(n, broken);
    } else {
      var c, cs, line := chunks[0], chunks[1..], Hex(|chunks[0]|) + CRLF;
      var t := Frames(cs) + Frame([]);
      FirstFrame(chunks);
      forall j | 0 <= j < |chunks| ensures BetweenCRAndLF(chunks, j, n) <==>
        if j == 0 then n + 1 == |Frame(c)| else |Frame(c)| <= n && BetweenCRAndLF(cs, j - 1, n - |Frame(c)|)
      {
        BetweenFirst(chunks, j, n);
      }
      assert all == line + (c + CRLF) + t;
      if n < |line| {
        assert all[..n] == line[..n];
        CutInSize(|c|, n, broken);
      } else if n < |Frame(c)| {
        assert all[..n] == line + (c + CRLF)[..n - |line|];
        CutInChunk(c, n - |line|, broken);
        BetweenFirst(chunks, 0, n);
      } else {
        var m := n - |Frame(c)|;
        assert all[..n] == Hex(|c|) + CRLF + (c + CRLF + t[..m]);
        ReadChunk(c, t[..m], broken);
        CutShort(cs, m, broken);
        CutLater(chunks, n, broken, Decode(t[..m], broken));
      }
    }
  }

  lemma NoFrames()
    ensures Frames([]) == []
  {
  }

  lemma {:induction false} CutTerminator(n: nat, broken: bool)
    requires n < |Frame([])|
    ensures Decode(Frame([])[..n], broken).outcome == Finished(false)
  {
    hide Hex, Decode;
    var line := Hex(0) + CRLF;
    assert Frame([]) == line + CRLF;
    if n < |line| {
      assert Frame([])[..n] == line[..n];
      CutInSize(0, n, broken);
    } else {
      assert Frame([])[..n] == line + CRLF[..n - |line|];
      CutAtEnd(n - |line|, broken);
    }
  }

  /** The outcome for the other chunks is the outcome for all, with the first one's data in front. */
  lemma {:induction false} CutLater(chunks: seq<Bytes>, n: nat, broken: bool, r: ChunkResult)
    requires chunks != [] && |Frame(chunks[0])| <= n
    requires CutOutcome(chunks[1..], n - |Frame(chunks[0])|, broken, r)
    ensures CutOutcome(chunks, n, broken, r.(body := chunks[0] + r.body))
  {
    hide Frame, BetweenCRAndLF;
    var cs, m := chunks[1..], n - |Frame(chunks[0])|;
    if r.outcome == Finished(true) {
      var j :| 0 <= j < |cs| && BetweenCRAndLF(cs, j, m) && r.body == Flatten(cs[..j]);
      BetweenFirst(chunks, j + 1, n);
    } else if !broken {
      forall j | 0 <= j < |chunks| ensures !BetweenCRAndLF(chunks, j, n) {
        BetweenFirst(chunks, j, n);
      }
    }
  }

  /** Anything but an empty line after a chunk's data ends the reply, without that chunk but as a success. */
  lemma {:induction false} WrongLineEnd(c: Bytes, line: Bytes, rest: Bytes, broken: bool)
    requires c != [] && |c| <= INT_MAX && LF !in line && line != [CR]
    ensures Decode(Hex(|c|) + CRLF + (c + (line + [LF] + rest)), broken) == ChunkResult(Finished(true), [], rest)
  {
    hide Hex, NextSize, NextLine;
    var data := c + (line + [LF] + rest);
    SizeLine(|c|, data, broken);
    assert data[|c|..] == line + [LF] + rest;
    LineOf(line, rest);
    NotEmptyLine(line);
  }

  /** Anything but an empty line after the last size line is a failure: there is no room for trailers. */
  lemma {:induction false} NoTrailers(line: Bytes, rest: Bytes, broken: bool)
    requires LF !in line && line != [CR]
    ensures Decode(Hex(0) + CRLF + (line + [LF] + rest), broken) == ChunkResult(Finished(false), [], rest)
  {
    hide Hex, NextSize, NextLine;
    SizeLine(0, line + [LF] + rest, broken);
    LineOf(line, rest);
    NotEmptyLine(line);
  }

  lemma {:induction false} NotEmptyLine(line: Bytes)
    requires LF !in line && line != [CR]
    ensures CString(line + [LF]) != CRLF
  {
    var s := CString(line + [LF]);
    var l := line + [LF];
    assert forall i :: 0 <= i < |s| ==> s[i] == l[i];
    assert |line| > 1 ==> l[1] == line[1] && line[1] in line;
    assert |line| == 1 ==> l[0] == line[0] && line == [line[0]];
  }
}
