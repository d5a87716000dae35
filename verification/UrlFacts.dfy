/** What percent-encoding makes of single bytes, in terms that do not mention how it is computed. */
module UrlFacts {
  import opened Wrappers
  import opened Bytes
  import Chunked
  import opened Url

  /** The bytes that are escaped: space, plus, apostrophe, comma, colon, semicolon, and all beyond ASCII. */
  predicate Unsafe(c: Byte) {
    || c == ' ' || c == '+' || c == '\'' || c == ',' || c == ':' || c == ';'
    || c as int >= 0x80
  }

  lemma EscapeIsSafe(c: Byte)
    ensures forall d :: d in Escape(c) ==> !Unsafe(d) && d != NUL
  {
  }

  /** No unsafe byte and no NUL is left in an encoded string. */
  lemma {:induction false} EncodedIsSafe(s: Bytes)
    ensures forall d :: d in Encode(s) ==> !Unsafe(d) && d != NUL
  {
    hide Escape, Unsafe;
    if s != [] && s[0] != NUL {
      EncodedIsSafe(s[1..]);
      EscapeIsSafe(s[0]);
      UnsafeIff(s[0]);
    }
  }

  lemma UnsafeIff(c: Byte)
    ensures Unsafe(c) <==> IsEscaped(c)
  {
  }

  /** Encoding leaves a string alone exactly if it has no unsafe byte and no NUL. */
  lemma {:induction false} EncodeFixesIff(s: Bytes)
    ensures Encode(s) == s <==> NUL !in s && forall i :: 0 <= i < |s| ==> !Unsafe(s[i])
  {
    hide Escape, Unsafe;
    if s != [] {
      var t := s[1..];
      EncodeFixesIff(t);
      UnsafeIff(s[0]);
      assert s == [s[0]] + t;
      if s[0] != NUL && !IsEscaped(s[0]) {
        assert Encode(s) == [s[0]] + Encode(t);
        assert Encode(s)[1..] == Encode(t);
      } else if Encode(s) == s {
        EncodedIsSafe(s);
      }
    }
  }

  /** Without percent signs, decoding turns plus signs into spaces and does nothing else. */
  lemma {:induction false} PlusBecomesSpace(s: Bytes)
    requires '%' !in s
    ensures |Decode(s)| == |s|
    ensures forall i :: 0 <= i < |s| ==> Decode(s)[i] == if s[i] == '+' then ' ' else s[i]
  {
    if s != [] {
      PlusBecomesSpace(s[1..]);
      assert Decode(s) == [if s[0] == '+' then ' ' else s[0]] + Decode(s[1..]);
    }
  }

  /** A percent sign and two digits stand for the byte they denote. */
  lemma {:induction false} ByteEscape(h: Bytes, rest: Bytes)
    requires |h| == 2 && Chunked.HexValue(h[0]).Some? && Chunked.HexValue(h[1]).Some?
    ensures var v := 16 * Chunked.HexValue(h[0]).value + Chunked.HexValue(h[1]).value;
      v < 256 && Decode(['%'] + h + rest) == [v as char] + Decode(rest)
  {
    hide Chunked.HexValue;
    var s := ['%'] + h + rest;
    NotLetterU(h[0]);
    assert s[1] == h[0] && s[2] == h[1] && s[1..3] == h && s[3..] == rest;
    ValueOfTwo(h);
    assert FromHex(s, 1, 2) == Some(Chunked.ValueOf(h));
  }

  lemma NotLetterU(c: Byte)
    requires Chunked.HexValue(c).Some?
    ensures c != 'u'
  {
  }

  lemma ValueOfTwo(h: Bytes)
    requires |h| == 2 && Chunked.HexValue(h[0]).Some? && Chunked.HexValue(h[1]).Some?
    ensures Chunked.ValueOf(h) == 16 * Chunked.HexValue(h[0]).value + Chunked.HexValue(h[1]).value
  {
    ValueStep(h, 2);
    ValueStep(h, 1);
  }

  /** A percent sign, a `u` and four digits stand for the UTF-8 of the code point they denote. */
  lemma {:induction false} WideEscape(h: Bytes, rest: Bytes)
    requires |h| == 4 && forall i :: 0 <= i < 4 ==> Chunked.HexValue(h[i]).Some?
    ensures Chunked.ValueOf(h) < 0x1_0000 && Decode(['%', 'u'] + h + rest) == ToUtf8(Chunked.ValueOf(h)) + Decode(rest)
  {
    hide Chunked.HexValue, ToUtf8, Chunked.ValueOf;
    var s := ['%', 'u'] + h + rest;
    assert s[2] == h[0] && s[3] == h[1] && s[4] == h[2] && s[5] == h[3];
    assert s[2..6] == h && s[6..] == rest;
    HexBound(h);
    assert FromHex(s, 2, 4) == Some(Chunked.ValueOf(h));
  }

  /** Any other percent sign stands for itself. */
  lemma {:induction false} LonePercent(rest: Bytes)
    requires !(|rest| >= 2 && Chunked.HexValue(rest[0]).Some? && Chunked.HexValue(rest[1]).Some?)
    requires !(|rest| >= 5 && rest[0] == 'u' && forall i :: 1 <= i < 5 ==> Chunked.HexValue(rest[i]).Some?)
    ensures Decode(['%'] + rest) == ['%'] + Decode(rest)
  {
    hide Chunked.HexValue;
    var s := ['%'] + rest;
    assert s[1..] == rest;
    assert forall i :: 0 <= i < |rest| ==> s[i + 1] == rest[i];
    assert |rest| >= 2 ==> s[1] == rest[0] && s[2] == rest[1];
    assert |rest| >= 5 ==> forall i :: 1 <= i < 5 ==> rest[i] == s[i + 1];
  }

  /** A trailing byte of UTF-8 carries six bits. */
  predicate Trailing(c: Byte) { 0x80 <= c as int < 0xC0 }

  /**
   * UTF-8 read back, section 3 of RFC 3629: one to three bytes, the shortest form only, and no
   * surrogates.
   */
  function FromUtf8(u: Bytes): Option<nat> {
    if |u| == 1 && u[0] as int < 0x80 then Some(u[0] as int)
    else if |u| == 2 && 0xC2 <= u[0] as int < 0xE0 && Trailing(u[1]) then
      Some((u[0] as int - 0xC0) * 64 + (u[1] as int - 0x80))
    else if |u| == 3 && 0xE0 <= u[0] as int < 0xF0 && Trailing(u[1]) && Trailing(u[2]) then
      var code := (u[0] as int - 0xE0) * 4096 + (u[1] as int - 0x80) * 64 + (u[2] as int - 0x80);
      if code < 0x800 || 0xD800 <= code < 0xE000 then None else Some(code)
    else None
  }

  /** A code point is read back from its UTF-8, which is empty exactly for surrogates. */
  lemma {:induction false} Utf8RoundTrip(code: nat)
    requires code < 0x1_0000
    ensures 0xD800 <= code < 0xE000 <==> ToUtf8(code) == []
    ensures ToUtf8(code) != [] ==> FromUtf8(ToUtf8(code)) == Some(code)
  {
    assert code / 64 / 64 == code / 4096;
  }

  /** Encoding goes byte by byte, and stops at the first NUL. */
  lemma {:induction false} EncodeConcat(a: Bytes, b: Bytes)
    requires NUL !in a
    ensures Encode(a + b) == Encode(a) + Encode(b)
    ensures Encode(a + [NUL] + b) == Encode(a)
  {
    if a == [] {
      assert a + b == b;
      assert (a + [NUL] + b)[0] == NUL;
    } else {
      assert (a + b)[1..] == a[1..] + b;
      assert (a + [NUL] + b)[1..] == a[1..] + [NUL] + b;
      EncodeConcat(a[1..], b);
    }
  }

  /** The smallest string that does not survive: an escape it was not. */
  lemma {:induction false} PercentIsNotEscaped()
    ensures Encode("%41") == "%41" && Decode("%41") == "A" && !Faithful("%41")
  {
    hide Encode, Decode, Faithful, Chunked.HexValue;
    EncodeFixesIff("%41");
    FourOne();
    ByteEscape("41", []);
    assert ['%'] + "41" + [] == "%41";
    assert Decode([]) == [] by { DecodeNothing([]); }
    UrlRoundTrip("%41");
  }

  lemma FourOne()
    ensures Chunked.HexValue('4') == Some(4) && Chunked.HexValue('1') == Some(1)
  {
  }
}
