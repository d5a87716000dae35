/** Bytes at addresses, and 64-bit words kept in eight of them, least significant byte first. */
module Memory {

  const WORD: nat := 8
  const WORD_LIMIT: nat := 0x1_0000_0000_0000_0000

  type Memory = map<nat, nat>

  function Peek(m: Memory, a: nat): nat {
    if a in m then m[a] else 0
  }

  function Poke(m: Memory, a: nat, bytes: seq<nat>): (m': Memory)
    ensures forall x :: a <= x < a + |bytes| ==> Peek(m', x) == bytes[x - a]
    ensures forall x: nat :: x < a || a + |bytes| <= x ==> Peek(m', x) == Peek(m, x)
    decreases |bytes|
  {
    if bytes == [] then m
    else
      var last := |bytes| - 1;
      var rest := Poke(m, a, bytes[..last]);
      var all := rest[a + last := bytes[last]];
      assert forall x: nat :: x != a + last ==> Peek(all, x) == Peek(rest, x);
      all
  }

  function Encode(v: nat, n: nat): (bytes: seq<nat>)
    ensures |bytes| == n
  {
    if n == 0 then [] else [v % 256] + Encode(v / 256, n - 1)
  }

  function Decode(bytes: seq<nat>): nat {
    if bytes == [] then 0 else bytes[0] + 256 * Decode(bytes[1..])
  }

  function Power256(n: nat): (p: nat)
    ensures 0 < p
  {
    if n == 0 then 1 else 256 * Power256(n - 1)
  }

  lemma {:induction false} DecodeEncode(v: nat, n: nat)
    requires v < Power256(n)
    ensures Decode(Encode(v, n)) == v
  {
    if n != 0 {
      DecodeEncode(v / 256, n - 1);
    }
  }

  function BytesAt(m: Memory, a: nat, n: nat): seq<nat> {
    seq<nat>(n, i requires 0 <= i < n => Peek(m, a + i))
  }

  function ReadWord(m: Memory, a: nat): nat { Decode(BytesAt(m, a, WORD)) }

  function WriteWord(m: Memory, a: nat, v: nat): Memory { Poke(m, a, Encode(v, WORD)) }

  /** A word written is the word read. */
  lemma {:induction false} ReadWritten(m: Memory, a: nat, v: nat)
    requires v < WORD_LIMIT
    ensures ReadWord(WriteWord(m, a, v), a) == v
  {
    assert BytesAt(WriteWord(m, a, v), a, WORD) == Encode(v, WORD);
    EightBytes();
    DecodeEncode(v, WORD);
  }

  lemma {:induction false} EightBytes()
    ensures Power256(WORD) == WORD_LIMIT
  {
    assert Power256(4) == 0x1_0000_0000;
    assert Power256(8) == 256 * 256 * 256 * 256 * Power256(4);
  }

  /** Bytes written elsewhere do not change a word. */
  lemma {:induction false} ReadElsewhere(m: Memory, a: nat, bytes: seq<nat>, b: nat)
    requires b + WORD <= a || a + |bytes| <= b
    ensures ReadWord(Poke(m, a, bytes), b) == ReadWord(m, b)
  {
    assert BytesAt(Poke(m, a, bytes), b, WORD) == BytesAt(m, b, WORD);
  }
}
