/** Reading lines byte by byte into a small fixed buffer that spills into a growing one. */
module LineReader {
  import opened Bytes

  /** What one read-until-newline leaves behind. */
  datatype LineResult = LineResult(ok: bool, line: Bytes, rest: Bytes)

  function LineLength(data: Bytes): (n: nat)
    ensures n <= |data| && (data != [] ==> 0 < n)
  {
    if data == [] then 0 else if data[0] == LF then 1 else 1 + LineLength(data[1..])
  }

  /** Reading one line without any buffer: up to and including the newline, or what is left at the end. */
  function NextLine(data: Bytes, broken: bool): (r: LineResult)
    ensures r.line + r.rest == data
  {
    var n := LineLength(data);
    var line := data[..n];
    LineResult(line != [] && (LF in line || !broken), line, data[n..])
  }

  /** The line ends at its first newline; only the last one may lack it. */
  lemma {:induction false} LineShape(data: Bytes)
    ensures var n := LineLength(data);
      && (forall i :: 0 <= i < n - 1 ==> data[i] != LF)
      && (n > 0 && data[n - 1] != LF ==> n == |data|)
  {
    if data != [] && data[0] != LF {
      LineShape(data[1..]);
    }
  }

  /** A line is delivered if there is a newline ahead, or if bytes are left on a stream that is not broken. */
  lemma {:induction false} DeliveredIff(data: Bytes, broken: bool)
    ensures NextLine(data, broken).ok <==> LF in data || (data != [] && !broken)
  {
    LineShape(data);
    var n := LineLength(data);
    if LF in data {
      var i :| 0 <= i < |data| && data[i] == LF;
      assert n > 0 && (data[n - 1] == LF || n == |data|);
      assert i < n ==> data[..n][i] == LF;
      assert n - 1 < i ==> data[..n][n - 1] == LF;
    }
  }

  lemma LineDone(data: Bytes, line: Bytes, rest: Bytes, broken: bool)
    requires line + rest == data && LineLength(data) == |line|
    ensures NextLine(data, broken) == LineResult(line != [] && (LF in line || !broken), line, rest)
  {
    assert data[..|line|] == line && data[|line|..] == rest;
  }

  /** A line followed by anything is read as that line. */
  lemma {:induction false} LineOf(body: Bytes, rest: Bytes)
    requires LF !in body
    ensures forall broken :: NextLine(body + [LF] + rest, broken) == LineResult(true, body + [LF], rest)
  {
    var data := body + [LF] + rest;
    LineLengthOf(body, rest);
    assert data[..|body| + 1] == body + [LF];
    assert LF in body + [LF];
  }

  lemma {:induction false} LineLengthOf(body: Bytes, rest: Bytes)
    requires LF !in body
    ensures LineLength(body + [LF] + rest) == |body| + 1
  {
    if body != [] {
      assert (body + [LF] + rest)[1..] == body[1..] + [LF] + rest;
      LineLengthOf(body[1..], rest);
    }
  }

  /** All lines up to the first failing read. */
  ghost function Lines(data: Bytes, broken: bool): seq<Bytes>
    decreases |data|
  {
    var l := NextLine(data, broken);
    if l.ok then [l.line] + Lines(l.rest, broken) else []
  }

  /**
   * Reading line after line loses and duplicates nothing; only an unfinished line on a broken stream is not
   * delivered.
   */
  lemma {:induction false} LinesRejoin(data: Bytes, broken: bool)
    ensures Flatten(Lines(data, broken)) <= data
    ensures !broken || (data != [] && data[|data| - 1] == LF) ==> Flatten(Lines(data, broken)) == data
    decreases |data|
  {
    hide LineLength;
    var l := NextLine(data, broken);
    if l.ok {
      var tail := Lines(l.rest, broken);
      LinesRejoin(l.rest, broken);
      assert ([l.line] + tail)[1..] == tail;
      assert Flatten([l.line] + tail) == l.line + Flatten(tail);
    } else {
      LineShape(data);
    }
  }

  class StreamLineReader {
    const strm: Stream
    const fixedBuffer: array<Byte>
    var fixedUsed: nat
    var growable: Bytes
    ghost var line: Bytes    // the bytes of the current line read so far

    ghost predicate Valid()
      reads this
    {
      2 <= fixedBuffer.Length
    }

    /** A nonempty line is in the fixed buffer, NUL-terminated, or entirely in the growing one. */
    ghost predicate Holding()
      reads this, fixedBuffer
    {
      && Valid()
      && if growable == [] then
           && |line| == fixedUsed < fixedBuffer.Length
           && fixedBuffer[..fixedUsed] == line
           && (line != [] ==> fixedBuffer[fixedUsed] == NUL)
         else growable == line && fixedUsed == fixedBuffer.Length - 1
    }

    constructor (strm: Stream, fixedBuffer: array<Byte>)
      requires 2 <= fixedBuffer.Length
      ensures Valid() && this.strm == strm && this.fixedBuffer == fixedBuffer
    {
      this.strm, this.fixedBuffer := strm, fixedBuffer;
      fixedUsed, growable, line := 0, [], [];
    }

    /** The C string at the start of the current buffer is the line, cut at its first NUL if it has one. */
    method Ptr() returns (s: Bytes)
      requires Holding() && line != []
      ensures s == CString(line)
      ensures NUL !in line ==> s == line
    {
      if growable == [] {
        s := CString(fixedBuffer[..]);
        assert fixedBuffer[..] == line + [NUL] + fixedBuffer[fixedUsed + 1..];
        CStringStopsAtNul(line, fixedBuffer[fixedUsed + 1..]);
      } else {
        s := CString(growable);
      }
    }

    /** One byte into the fixed buffer while it has room for it and the terminator, else into the other. */
    method Append(c: Byte)
      requires Holding()
      modifies this`fixedUsed, this`growable, this`line, fixedBuffer
      ensures Holding() && line == old(line) + [c]
    {
      if fixedUsed < fixedBuffer.Length - 1 {
        fixedBuffer[fixedUsed] := c;
        fixedUsed := fixedUsed + 1;
        fixedBuffer[fixedUsed] := NUL;
      } else {
        if growable == [] {
          growable := fixedBuffer[..fixedUsed];
        }
        growable := growable + [c];
      }
      line := line + [c];
    }

    /** Reads one line; the outcome does not depend on the size of the fixed buffer. */
    method GetLine() returns (ok: bool)
      requires Valid()
      modifies this`fixedUsed, this`growable, this`line, fixedBuffer, strm
      ensures LineResult(ok, line, strm.data) == NextLine(old(strm.data), strm.broken)
      ensures ok ==> Holding() && line != []
    {
      fixedUsed, growable, line := 0, [], [];
      var i := 0;
      while true
        invariant Holding() && LF !in line && i == |line|
        invariant line + strm.data == old(strm.data)
        invariant LineLength(old(strm.data)) == |line| + LineLength(strm.data)
        decreases |strm.data|
      {
        ghost var data := strm.data;
        var n, bytes := strm.Read(1);
        if n <= 0 {
          LineDone(old(strm.data), line, strm.data, strm.broken);
        }
        if n < 0 {
          return false;
        } else if n == 0 {
          return i != 0;
        }
        Append(bytes[0]);
        if bytes[0] == LF {
          LineDone(old(strm.data), line, strm.data, strm.broken);
          return true;
        }
        assert data[1..] == strm.data;
        i := i + 1;
      }
    }
  }
}
