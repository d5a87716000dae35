/** Chunked transfer coding, section 4.1 of RFC 7230: the server's writer and the client's reader. */
module Chunked {
  import opened Wrappers
  import opened Bytes
  import opened LineReader

  const HEX_DIGITS: Bytes := "0123456789abcdef"
  const INT_MAX: int := 0x7fff_ffff
  const INT_MIN: int := -0x8000_0000

  function Hex(n: nat): (s: Bytes)
    ensures s != []
  {
    if n < 16 then [HEX_DIGITS[n]] else Hex(n / 16) + [HEX_DIGITS[n % 16]]
  }

  ghost function HexOrNothing(n: nat): Bytes { if n == 0 then [] else Hex(n) }

  lemma LastDigit(n: nat)
    ensures Hex(n) == HexOrNothing(n / 16) + [HEX_DIGITS[n % 16]]
  {
  }

  /** Digits are produced from the last to the first. */
  method FromIToHex(n: nat) returns (ret: Bytes)
    ensures ret == Hex(n)
  {
    hide Hex;
    LastDigit(n);
    ret := [HEX_DIGITS[n % 16]];
    var m: nat := n / 16;
    while m > 0
      invariant Hex(n) == HexOrNothing(m) + ret
    {
      LastDigit(m);
      ret := [HEX_DIGITS[m % 16]] + ret;
      m := m / 16;
    }
  }

  function HexValue(c: Byte): (v: Option<nat>)
    ensures v.Some? ==> v.value < 16
  {
    if '0' <= c <= '9' then Some(c as int - '0' as int)
    else if 'A' <= c <= 'F' then Some(c as int - 'A' as int + 10)
    else if 'a' <= c <= 'f' then Some(c as int - 'a' as int + 10)
    else None
  }

  /** The leading hex digits of a string. */
  function DigitRun(s: Bytes): (n: nat)
    ensures n <= |s| && forall i :: 0 <= i < n ==> HexValue(s[i]).Some?
  {
    if s == [] || HexValue(s[0]).None? then 0 else 1 + DigitRun(s[1..])
  }

  function ValueOf(s: Bytes): nat
    requires forall i :: 0 <= i < |s| ==> HexValue(s[i]).Some?
  {
    if s == [] then 0 else ValueOf(s[..|s| - 1]) * 16 + HexValue(s[|s| - 1]).value
  }

  predicate IsSpace(c: Byte) { c == ' ' || 9 <= c as int <= 13 }

  function SkipSpace(s: Bytes): Bytes {
    if s != [] && IsSpace(s[0]) then SkipSpace(s[1..]) else s
  }

  /** `std::stoi(s, 0, 16)`: space, sign, optional 0x, digits; throws without digits or beyond `int`. */
  function StoiHex(s: Bytes): Option<int> {
    var a := SkipSpace(s);
    var negative := a != [] && a[0] == '-';
    var b := if a != [] && (a[0] == '-' || a[0] == '+') then a[1..] else a;
    var c := if |b| > 2 && b[0] == '0' && (b[1] == 'x' || b[1] == 'X') && HexValue(b[2]).Some? then b[2..] else b;
    var n := DigitRun(c);
    var v: int := if negative then -(ValueOf(c[..n]) as int) else ValueOf(c[..n]);
    if n == 0 || v < INT_MIN || v > INT_MAX then None else Some(v)
  }

  /** The answer of the reader: whether it reports success or an exception leaves it. */
  datatype Outcome = Finished(ok: bool) | Threw

  datatype ChunkResult = ChunkResult(outcome: Outcome, body: Bytes, rest: Bytes)

  /** Reading a size line. */
  datatype SizeResult = SizeResult(outcome: Option<Outcome>, size: int, rest: Bytes)

  function NextSize(data: Bytes, broken: bool): (r: SizeResult)
    ensures |r.rest| <= |data|
  {
    var l := NextLine(data, broken);
    if !l.ok then SizeResult(Some(Finished(false)), 0, l.rest)
    else match StoiHex(CString(l.line))
      case None => SizeResult(Some(Threw), 0, l.rest)
      case Some(n) => SizeResult(None, n, l.rest)
  }

  /** Reading the data of a chunk and the line end after it. */
  datatype DataResult = DataResult(outcome: Option<Outcome>, chunk: Bytes, rest: Bytes)

  function NextData(size: nat, data: Bytes, broken: bool): (r: DataResult)
    ensures r.outcome.None? ==> |r.rest| + size <= |data|
  {
    if |data| < size then DataResult(Some(Finished(false)), [], [])
    else
      var l := NextLine(data[size..], broken);
      if !l.ok then DataResult(Some(Finished(false)), [], l.rest)
      else if CString(l.line) != CRLF then DataResult(Some(Finished(true)), [], l.rest)
      else DataResult(None, data[..size], l.rest)
  }

  /** The chunks after a size line announcing `size` bytes. */
  function DecodeChunks(size: int, data: Bytes, broken: bool): ChunkResult
    decreases |data|
  {
    if size > 0 then
      var d := NextData(size, data, broken);
      if d.outcome.Some? then ChunkResult(d.outcome.value, [], d.rest)
      else
        var next := NextSize(d.rest, broken);
        if next.outcome.Some? then ChunkResult(next.outcome.value, d.chunk, next.rest)
        else
          var r := DecodeChunks(next.size, next.rest, broken);
          r.(body := d.chunk + r.body)
    else if size == 0 then
      var l := NextLine(data, broken);
      ChunkResult(Finished(l.ok && CString(l.line) == CRLF), [], l.rest)
    else ChunkResult(Finished(true), [], data)
  }

  function Decode(data: Bytes, broken: bool): ChunkResult {
    var first := NextSize(data, broken);
    if first.outcome.Some? then ChunkResult(first.outcome.value, [], first.rest)
    else DecodeChunks(first.size, first.rest, broken)
  }

  /** Reads exactly `len` bytes however the stream cuts them up. */
  method ReadContentWithLength(strm: Stream, len: nat) returns (ok: bool, out: Bytes)
    modifies strm
    ensures ok <==> len <= |old(strm.data)|
    ensures ok ==> out == old(strm.data)[..len] && strm.data == old(strm.data)[len..]
    ensures !ok ==> strm.data == []
  {
    out := [];
    var r := 0;
    ghost var all := strm.data;
    while r < len
      invariant r == |out| <= len && out + strm.data == all
      decreases len - r
    {
      ghost var before := strm.data;
      var n, bytes := strm.Read(len - r);
      if n <= 0 {
        return false, out;
      }
      assert out + before == (out + bytes) + strm.data;
      out := out + bytes;
      r := r + n;
    }
    ok := true;
    Halves(out, strm.data);
  }

  lemma Halves(a: Bytes, b: Bytes)
    ensures (a + b)[..|a|] == a && (a + b)[|a|..] == b
  {
  }

  /** One size line through the reader. */
  method ReadSize(reader: StreamLineReader) returns (outcome: Option<Outcome>, size: int)
    requires reader.Valid()
    modifies reader`fixedUsed, reader`growable, reader`line, reader.fixedBuffer, reader.strm
    ensures SizeResult(outcome, size, reader.strm.data) == NextSize(old(reader.strm.data), reader.strm.broken)
  {
    hide StoiHex, NextLine, CString;
    outcome, size := None, 0;
    var ok := reader.GetLine();
    if !ok {
      return Some(Finished(false)), 0;
    }
    var ptr := reader.Ptr();
    var parsed := StoiHex(ptr);
    if parsed.None? {
      return Some(Threw), 0;
    }
    size := parsed.value;
  }

  /** One chunk and the line end after it. */
  method ReadData(reader: StreamLineReader, chunkLen: nat) returns (stop: Option<Outcome>, chunk: Bytes)
    requires reader.Valid()
    modifies reader`fixedUsed, reader`growable, reader`line, reader.fixedBuffer, reader.strm
    ensures reader.Valid()
    ensures DataResult(stop, chunk, reader.strm.data) == NextData(chunkLen, old(reader.strm.data), reader.strm.broken)
  {
    hide NextLine, CString;
    var ok;
    ok, chunk := ReadContentWithLength(reader.strm, chunkLen);
    if !ok {
      return Some(Finished(false)), [];
    }
    ok := reader.GetLine();
    if !ok {
      return Some(Finished(false)), [];
    }
    var ptr := reader.Ptr();
    if ptr != CRLF {
      return Some(Finished(true)), [];
    }
    stop := None;
  }

  /** The client's reader, for any way the stream cuts up its data. */
  method ReadContentChunked(strm: Stream) returns (outcome: Outcome, out: Bytes)
    modifies strm
    ensures ChunkResult(outcome, out, strm.data) == Decode(old(strm.data), strm.broken)
  {
    hide NextSize, NextData, NextLine, CString;
    ghost var data := strm.data;
    var buf := new Byte[16](i => NUL);
    var reader := new StreamLineReader(strm, buf);
    out := [];
    var bad, chunkLen := ReadSize(reader);
    if bad.Some? {
      return bad.value, out;
    }
    while chunkLen > 0
      invariant reader.Valid() && fresh(reader) && fresh(reader.fixedBuffer) && reader.strm == strm
      invariant Decode(data, strm.broken) ==
        var r := DecodeChunks(chunkLen, strm.data, strm.broken); r.(body := out + r.body)
      decreases |strm.data|
    {
      var stop, chunk := ReadData(reader, chunkLen);
      if stop.Some? {
        return stop.value, out;
      }
      out := out + chunk;
      bad, chunkLen := ReadSize(reader);
      if bad.Some? {
        return bad.value, out;
      }
    }
    if chunkLen == 0 {
      var ok := reader.GetLine();
      if !ok {
        return Finished(false), out;
      }
      var ptr := reader.Ptr();
      if ptr != CRLF {
        return Finished(false), out;
      }
    }
    outcome := Finished(true);
  }

  /** One chunk on the wire. */
  function Frame(chunk: Bytes): Bytes { Hex(|chunk|) + CRLF + chunk + CRLF }

  function Frames(chunks: seq<Bytes>): Bytes {
    if chunks == [] then [] else Frame(chunks[0]) + Frames(chunks[1..])
  }

  lemma {:induction false} FramesAppend(chunks: seq<Bytes>, last: Bytes)
    ensures Frames(chunks + [last]) == Frames(chunks) + Frame(last)
  {
    hide Frame;
    if chunks != [] {
      FramesAppend(chunks[1..], last);
      assert (chunks + [last])[1..] == chunks[1..] + [last];
    } else {
      assert chunks + [last] == [last];
    }
  }

  /** What the callback answers, call by call, when it announces its end with an empty chunk. */
  ghost predicate Answers(answers: seq<Bytes>) {
    answers != [] && forall i :: 0 <= i < |answers| ==> (answers[i] == [] <==> i == |answers| - 1)
  }

  /** What the first `n` writes of the server's loop put on the wire. */
  ghost function Emitted(answers: seq<Bytes>, n: nat, chunkedResponse: bool): Bytes
    requires n <= |answers|
  {
    if chunkedResponse then Frames(answers[..n]) else Flatten(answers[..n])
  }

  lemma {:induction false} EmittedStep(answers: seq<Bytes>, n: nat, chunkedResponse: bool)
    requires n < |answers|
    ensures Emitted(answers, 0, chunkedResponse) == []
    ensures Emitted(answers, n + 1, chunkedResponse) ==
      Emitted(answers, n, chunkedResponse) + if chunkedResponse then Frame(answers[n]) else answers[n]
    ensures |Flatten(answers[..n + 1])| == |Flatten(answers[..n])| + |answers[n]|
  {
    hide Frame;
    assert answers[..n + 1] == answers[..n] + [answers[n]];
    FramesAppend(answers[..n], answers[n]);
    FlattenAppend(answers[..n], answers[n]);
  }

  /** The server's loop: one write per answer of the callback, framed unless the length was announced. */
  method WriteChunks(strm: Sink, answers: seq<Bytes>, chunkedResponse: bool) returns (ghost offsets: seq<nat>)
    requires Answers(answers)
    modifies strm
    ensures var n := if old(strm.budget) < |answers| then old(strm.budget) else |answers|;
      strm.sent == old(strm.sent) + Emitted(answers, n, chunkedResponse)
    ensures |offsets| == if old(strm.budget) < |answers| then old(strm.budget) + 1 else |answers|
    ensures forall k :: 0 <= k < |offsets| ==> offsets[k] == |Flatten(answers[..k])|
  {
    hide Hex, Emitted, Flatten;
    var offset := 0;
    var call := 0;
    offsets := [];
    var dataAvailable := true;
    ghost var start, budget := strm.sent, strm.budget;
    EmittedStep(answers, 0, chunkedResponse);
    NoneFlat(answers);
    while dataAvailable
      invariant call <= |answers| && (dataAvailable <==> call < |answers|)
      invariant strm.budget + call == budget
      invariant strm.sent == start + Emitted(answers, call, chunkedResponse)
      invariant offset == |Flatten(answers[..call])|
      invariant |offsets| == call && forall k :: 0 <= k < call ==> offsets[k] == |Flatten(answers[..k])|
      decreases |answers| - call
    {
      EmittedStep(answers, call, chunkedResponse);
      var chunk := answers[call];
      offsets := offsets + [offset];
      offset := offset + |chunk|;
      dataAvailable := chunk != [];
      if chunkedResponse {
        var hex := FromIToHex(|chunk|);
        chunk := hex + CRLF + chunk + CRLF;
      }
      var n := strm.Write(chunk);
      if n < 0 {
        return;
      }
      call := call + 1;
    }
  }

  lemma NoneFlat(answers: seq<Bytes>)
    ensures Flatten(answers[..0]) == []
  {
  }

  /** The digits of a number denote it. */
  lemma {:induction false} HexDenotes(n: nat)
    ensures forall i :: 0 <= i < |Hex(n)| ==> HexValue(Hex(n)[i]).Some?
    ensures ValueOf(Hex(n)) == n
  {
    hide HexValue;
    if n >= 16 {
      HexDenotes(n / 16);
      DigitValue(n % 16);
      assert Hex(n)[..|Hex(n)| - 1] == Hex(n / 16);
    } else {
      DigitValue(n);
      assert Hex(n)[..0] == [];
    }
  }

  lemma DigitValue(d: nat)
    requires d < 16
    ensures HexValue(HEX_DIGITS[d]) == Some(d)
  {
  }

  lemma {:induction false} DigitRunOf(digits: Bytes, rest: Bytes)
    requires forall i :: 0 <= i < |digits| ==> HexValue(digits[i]).Some?
    requires rest != [] && HexValue(rest[0]).None?
    ensures DigitRun(digits + rest) == |digits|
  {
    if digits != [] {
      assert (digits + rest)[1..] == digits[1..] + rest;
      DigitRunOf(digits[1..], rest);
    } else {
      assert digits + rest == rest;
    }
  }

  /** A written size is read back if it fits an `int`. */
  lemma {:induction false} StoiOfHex(n: nat)
    ensures StoiHex(Hex(n) + CRLF) == if n <= INT_MAX then Some(n) else None
  {
    hide Hex, ValueOf;
    var h, s := Hex(n), Hex(n) + CRLF;
    HexDenotes(n);
    DigitRunOf(h, CRLF);
    assert HexValue(s[0]).Some?;
    assert SkipSpace(s) == s;
    assert |h| > 1 ==> HexValue(s[1]).Some?;
    assert |h| == 1 ==> s[1] == CR;
    assert s[..|h|] == h;
  }

  lemma {:induction false} SizeLine(n: nat, rest: Bytes, broken: bool)
    ensures NextSize(Hex(n) + CRLF + rest, broken) ==
      if n <= INT_MAX then SizeResult(None, n, rest) else SizeResult(Some(Threw), 0, rest)
  {
    hide Hex, StoiHex, NextLine;
    var line := Hex(n) + [CR];
    HexDenotes(n);
    assert LF !in line && NUL !in line by { HexPrintable(Hex(n)); }
    LineOf(line, rest);
    assert line + [LF] == Hex(n) + CRLF;
    assert Hex(n) + CRLF + rest == line + [LF] + rest;
    StoiOfHex(n);
    assert CString(line + [LF]) == line + [LF];
  }

  lemma HexPrintable(s: Bytes)
    requires forall i :: 0 <= i < |s| ==> HexValue(s[i]).Some?
    ensures LF !in s && NUL !in s
  {
  }

  ghost predicate FitInt(chunks: seq<Bytes>) {
    forall i :: 0 <= i < |chunks| ==> |chunks[i]| <= INT_MAX
  }

  ghost predicate NonEmpty(chunks: seq<Bytes>) {
    forall i :: 0 <= i < |chunks| ==> chunks[i] != []
  }

  lemma {:induction false} CRLFLine(rest: Bytes, broken: bool)
    ensures NextLine(CRLF + rest, broken) == LineResult(true, CRLF, rest) && CString(CRLF) == CRLF
  {
    LineOf([CR], rest);
    assert [CR] + [LF] == CRLF;
  }

  lemma {:induction false} OneChunk(chunk: Bytes, n: nat, rest: Bytes, broken: bool)
    requires chunk != []
    ensures DecodeChunks(|chunk|, chunk + CRLF + (Hex(n) + CRLF + rest), broken) ==
      if n <= INT_MAX then var r := DecodeChunks(n, rest, broken); r.(body := chunk + r.body)
      else ChunkResult(Threw, chunk, rest)
  {
    hide Hex, NextSize, NextLine, CString;
    var next := Hex(n) + CRLF + rest;
    var data := chunk + CRLF + next;
    assert data[..|chunk|] == chunk && data[|chunk|..] == CRLF + next;
    CRLFLine(next, broken);
    SizeLine(n, rest, broken);
  }

  /** The chunks written, their terminator, and whatever follows on the connection. */
  ghost function Wire(chunks: seq<Bytes>, tail: Bytes): Bytes {
    Frames(chunks) + Frame([]) + tail
  }

  lemma {:induction false} WireSplit(chunks: seq<Bytes>, tail: Bytes)
    ensures chunks == [] ==> Wire(chunks, tail) == Hex(0) + CRLF + (CRLF + tail)
    ensures chunks != [] ==>
      Wire(chunks, tail) == Hex(|chunks[0]|) + CRLF + (chunks[0] + CRLF + Wire(chunks[1..], tail))
  {
    hide Hex;
    if chunks == [] {
      calc {
        Wire(chunks, tail);
        Frame([]) + tail;
        (Hex(0) + CRLF + [] + CRLF) + tail;
        Hex(0) + CRLF + (CRLF + tail);
      }
    }
  }

  lemma {:induction false} LastChunk(tail: Bytes, broken: bool)
    ensures DecodeChunks(0, CRLF + tail, broken) == ChunkResult(Finished(true), [], tail)
  {
    CRLFLine(tail, broken);
  }

  lemma {:induction false} ChunksRoundTrip(chunks: seq<Bytes>, tail: Bytes, broken: bool)
    requires NonEmpty(chunks)
    ensures FitInt(chunks) ==> Decode(Wire(chunks, tail), broken) == ChunkResult(Finished(true), Flatten(chunks), tail)
    ensures !FitInt(chunks) ==> Decode(Wire(chunks, tail), broken).outcome == Threw
    decreases |chunks|
  {
    hide Hex, NextSize, NextLine, Frame, DecodeChunks, Wire;
    WireSplit(chunks, tail);
    LastChunk(tail, broken);
    if chunks == [] {
      SizeLine(0, CRLF + tail, broken);
    } else {
      var c, cs := chunks[0], chunks[1..];
      ChunksRoundTrip(cs, tail, broken);
      SizeLine(|c|, c + CRLF + Wire(cs, tail), broken);
      WireSplit(cs, tail);
      if cs == [] {
        OneChunk(c, 0, CRLF + tail, broken);
        SizeLine(0, CRLF + tail, broken);
      } else {
        OneChunk(c, |cs[0]|, cs[0] + CRLF + Wire(cs[1..], tail), broken);
        SizeLine(|cs[0]|, cs[0] + CRLF + Wire(cs[1..], tail), broken);
      }
      assert FitInt(chunks) <==> |c| <= INT_MAX && FitInt(cs);
    }
  }

  /**
   * Round trip over the connection: what the server's loop writes for the callback's answers, the
   * client reads back as their concatenation, leaving what follows; it does so exactly when every
   * chunk's size fits the `int` the client parses it into, and throws otherwise.
   */
  lemma {:induction false} WrittenIsRead(answers: seq<Bytes>, tail: Bytes, broken: bool)
    requires Answers(answers)
    ensures FitInt(answers) <==>
      Decode(Frames(answers) + tail, broken) == ChunkResult(Finished(true), Flatten(answers), tail)
    ensures !FitInt(answers) ==> Decode(Frames(answers) + tail, broken).outcome == Threw
  {
    hide Decode, Frame, Hex;
    var chunks := answers[..|answers| - 1];
    assert answers == chunks + [[]];
    FramesAppend(chunks, []);
    FlattenAppend(chunks, []);
    ChunksRoundTrip(chunks, tail, broken);
    assert FitInt(chunks) <==> FitInt(answers) by {
      assert forall i :: 0 <= i < |chunks| ==> chunks[i] == answers[i];
    }
  }
}
