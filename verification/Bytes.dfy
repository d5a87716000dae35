/** Byte strings and byte streams. */
module Bytes {

  /** A byte, written as the character with that code. */
  type Byte = c: char | c as int < 256 witness 'a'

  type Bytes = seq<Byte>

  const NUL: Byte := 0 as char
  const CR: Byte := 13 as char
  const LF: Byte := 10 as char
  const CRLF: Bytes := [CR, LF]

  /** What a C function sees of a buffer: everything up to the first NUL. */
  function CString(s: Bytes): (t: Bytes)
    ensures NUL !in t && t <= s
    ensures NUL !in s ==> t == s
  {
    if s == [] || s[0] == NUL then [] else [s[0]] + CString(s[1..])
  }

  /** The first NUL decides, whatever comes after it. */
  lemma {:induction false} CStringStopsAtNul(s: Bytes, rest: Bytes)
    ensures CString(s + [NUL] + rest) == CString(s)
  {
    var t := s + [NUL] + rest;
    if s != [] {
      assert t[1..] == s[1..] + [NUL] + rest;
      CStringStopsAtNul(s[1..], rest);
    }
  }

  function Flatten(parts: seq<Bytes>): Bytes {
    if parts == [] then [] else parts[0] + Flatten(parts[1..])
  }

  lemma {:induction false} FlattenAppend(parts: seq<Bytes>, last: Bytes)
    ensures Flatten(parts + [last]) == Flatten(parts) + last
  {
    if parts != [] {
      FlattenAppend(parts[1..], last);
      assert (parts + [last])[1..] == parts[1..] + [last];
    } else {
      assert parts + [last] == [last];
    }
  }

  /** A connection to read from. It delivers what is left in pieces of any size, then ends or breaks. */
  class Stream {
    var data: Bytes
    const broken: bool

    constructor (data: Bytes, broken: bool)
      ensures this.data == data && this.broken == broken
    {
      this.data, this.broken := data, broken;
    }

    /** At least one byte while there are any, never more than asked for; 0 at the end, -1 if broken. */
    method Read(size: nat) returns (n: int, bytes: Bytes)
      requires 0 < size
      modifies this
      ensures old(data) == [] ==> n == (if broken then -1 else 0) && data == []
      ensures old(data) != [] ==> 1 <= n <= size && n <= |old(data)|
      ensures 0 <= n ==> bytes == old(data)[..n] && data == old(data)[n..]
    {
      bytes := [];
      if data == [] {
        n := if broken then -1 else 0;
      } else {
        n :| 1 <= n <= size && n <= |data|;
        bytes := data[..n];
        data := data[n..];
      }
    }
  }

  /** A connection to write to, which breaks after some number of writes. */
  class Sink {
    var sent: Bytes
    var budget: nat

    constructor (budget: nat)
      ensures sent == [] && this.budget == budget
    {
      sent, this.budget := [], budget;
    }

    method Write(bytes: Bytes) returns (n: int)
      modifies this
      ensures old(budget) == 0 ==> n == -1 && sent == old(sent) && budget == 0
      ensures old(budget) > 0 ==> n == |bytes| && sent == old(sent) + bytes && budget == old(budget) - 1
    {
      if budget == 0 {
        return -1;
      }
      sent := sent + bytes;
      budget := budget - 1;
      n := |bytes|;
    }
  }
}
