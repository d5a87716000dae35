/** Percent-encoding, section 2.1 of RFC 3986, as the HTTP library does it. */
module Url {
  import opened Wrappers
  import opened Bytes
  import opened Chunked

  const UPPER_HEX: Bytes := "0123456789ABCDEF"

  function Escape(c: Byte): (s: Bytes)
    ensures |s| == 3
  {
    ['%', UPPER_HEX[c as int / 16], UPPER_HEX[c as int % 16]]
  }

  /** Space, the six punctuation marks of the switch, and everything beyond ASCII is escaped. `%` is not. */
  predicate IsEscaped(c: Byte) {
    c in " +',:;" || c as int >= 0x80
  }

  function EncodeByte(c: Byte): Bytes {
    if IsEscaped(c) then Escape(c) else [c]
  }

  /** Encoding stops at a NUL. */
  function Encode(s: Bytes): Bytes {
    if s == [] || s[0] == NUL then [] else EncodeByte(s[0]) + Encode(s[1..])
  }

  lemma {:induction false} EncodeStep(s: Bytes, i: nat)
    requires i < |s| && s[i] != NUL
    ensures Encode(s[i..]) == EncodeByte(s[i]) + Encode(s[i + 1..])
  {
    assert s[i..][1..] == s[i + 1..];
  }

  /** The switch on one byte. */
  method EncodeOne(b: Byte) returns (piece: Bytes)
    ensures piece == EncodeByte(b)
  {
    match b
    case ' ' => piece := "%20";
    case '+' => piece := "%2B";
    case '\'' => piece := "%27";
    case ',' => piece := "%2C";
    case ':' => piece := "%3A";
    case ';' => piece := "%3B";
    case _ =>
      var c := b as int;
      if c >= 0x80 {
        piece := ['%'] + [UPPER_HEX[c / 16], UPPER_HEX[c % 16]];
      } else {
        piece := [b];
      }
  }

  method EncodeUrl(s: Bytes) returns (result: Bytes)
    ensures result == Encode(s)
  {
    hide EncodeByte, Encode;
    result := [];
    var i := 0;
    EncodeEnd(s, i);
    while i < |s| && s[i] != NUL
      invariant i <= |s| && Encode(s) == result + Encode(s[i..])
      decreases |s| - i
    {
      var piece := EncodeOne(s[i]);
      EncodeStep(s, i);
      result := result + piece;
      i := i + 1;
    }
    EncodeEnd(s, i);
  }

  lemma EncodeEnd(s: Bytes, i: nat)
    requires i <= |s|
    ensures i == |s| || s[i] == NUL ==> Encode(s[i..]) == []
    ensures s[0..] == s
  {
  }

  /** `cnt` hex digits at position `i`. */
  function FromHex(s: Bytes, i: nat, cnt: nat): Option<nat> {
    if i + cnt <= |s| && forall j :: i <= j < i + cnt ==> HexValue(s[j]).Some?
    then Some(ValueOf(s[i..i + cnt]))
    else None
  }

  method FromHexToI(s: Bytes, i: nat, cnt: nat) returns (ok: bool, val: nat)
    requires 0 < cnt
    ensures FromHex(s, i, cnt) == if ok then Some(val) else None
  {
    if i >= |s| {
      return false, 0;
    }
    val := 0;
    var at := i;
    while at < i + cnt
      invariant i <= at <= i + cnt && at <= |s|
      invariant forall j :: i <= j < at ==> HexValue(s[j]).Some?
      invariant val == ValueOf(s[i..at])
    {
      // the terminating NUL of the string is not a digit
      if at == |s| || HexValue(s[at]).None? {
        return false, 0;
      }
      val := val * 16 + HexValue(s[at]).value;
      assert s[i..at + 1][..at - i] == s[i..at];
      at := at + 1;
    }
    ok := true;
  }

  /** UTF-8 of a code point; nothing for surrogates. */
  function ToUtf8(code: nat): (u: Bytes)
    requires code < 0x1_0000
    ensures |u| <= 3
  {
    if code < 0x80 then [code as char]
    else if code < 0x800 then [(0xC0 + code / 64) as char, (0x80 + code % 64) as char]
    else if 0xD800 <= code < 0xE000 then []
    else [(0xE0 + code / 4096) as char, (0x80 + code / 64 % 64) as char, (0x80 + code % 64) as char]
  }

  lemma {:induction false} HexBound(s: Bytes)
    requires forall i :: 0 <= i < |s| ==> HexValue(s[i]).Some?
    ensures |s| == 2 ==> ValueOf(s) < 0x100
    ensures |s| == 4 ==> ValueOf(s) < 0x1_0000
  {
    if |s| > 0 { ValueStep(s, |s|); }
    if |s| > 1 { ValueStep(s, |s| - 1); }
    if |s| > 2 { ValueStep(s, |s| - 2); }
    if |s| > 3 { ValueStep(s, |s| - 3); }
  }

  lemma ValueStep(s: Bytes, n: nat)
    requires 0 < n <= |s| && forall i :: 0 <= i < |s| ==> HexValue(s[i]).Some?
    ensures ValueOf(s[..n]) == ValueOf(s[..n - 1]) * 16 + HexValue(s[n - 1]).value
    ensures s[..|s|] == s && ValueOf(s[..0]) == 0
  {
    assert s[..n][..n - 1] == s[..n - 1];
  }

  /** What the first byte of a string decodes to, together with the digits it claims. */
  function DecodeHead(s: Bytes): (r: (Bytes, nat))
    requires s != []
    ensures 0 < r.1 <= |s| && |r.0| <= r.1
  {
    if s[0] == '%' && |s| > 1 then
      if s[1] == 'u' then
        match FromHex(s, 2, 4)
        case Some(code) => HexBound(s[2..6]); (ToUtf8(code), 6)
        case None => (['%'], 1)
      else
        match FromHex(s, 1, 2)
        case Some(code) => HexBound(s[1..3]); ([code as char], 3)
        case None => (['%'], 1)
    else if s[0] == '+' then ([' '], 1)
    else ([s[0]], 1)
  }

  function Decode(s: Bytes): (r: Bytes)
    ensures |r| <= |s|
  {
    if s == [] then [] else
      var (out, used) := DecodeHead(s);
      out + Decode(s[used..])
  }

  /** Reading at an offset is reading the rest of the string. */
  lemma {:induction false} HeadAt(s: Bytes, i: nat, cnt: nat, at: nat)
    requires i <= |s|
    ensures FromHex(s[i..], at, cnt) == FromHex(s, i + at, cnt)
  {
    if i + at + cnt <= |s| {
      assert s[i..][at..at + cnt] == s[i + at..i + at + cnt];
      assert forall j :: at <= j < at + cnt ==> s[i..][j] == s[i + j];
      assert forall j :: i + at <= j < i + at + cnt ==> s[j] == s[i..][j - i];
    }
  }

  lemma {:induction false} DecodeStep(s: Bytes, i: nat)
    requires i < |s|
    ensures var (out, used) := DecodeHead(s[i..]);
      i + used <= |s| && Decode(s[i..]) == out + Decode(s[i + used..])
  {
    var (out, used) := DecodeHead(s[i..]);
    assert s[i..][used..] == s[i + used..];
  }

  /** What is decoded at position `i`, and how many bytes it takes. */
  method DecodeOne(s: Bytes, i: nat) returns (out: Bytes, used: nat)
    requires i < |s|
    ensures (out, used) == DecodeHead(s[i..])
  {
    hide ToUtf8, ValueOf, FromHex;
    HeadAt(s, i, 4, 2);
    HeadAt(s, i, 2, 1);
    out, used := [s[i]], 1;
    if s[i] == '%' && i + 1 < |s| {
      if s[i + 1] == 'u' {
        var ok, val := FromHexToI(s, i + 2, 4);
        if ok {
          CodeBound(s, i + 2, 4);
          out, used := ToUtf8(val), 6;
        }
      } else {
        var ok, val := FromHexToI(s, i + 1, 2);
        if ok {
          CodeBound(s, i + 1, 2);
          out, used := [val as char], 3;
        }
      }
    } else if s[i] == '+' {
      out := [' '];
    }
  }

  method DecodeUrl(s: Bytes) returns (result: Bytes)
    ensures result == Decode(s)
  {
    hide Decode, DecodeHead;
    result := [];
    var i := 0;
    assert s[0..] == s;
    while i < |s|
      invariant i <= |s| && Decode(s) == result + Decode(s[i..])
      decreases |s| - i
    {
      DecodeStep(s, i);
      var out, used := DecodeOne(s, i);
      result := result + out;
      i := i + used;
    }
    DecodeNothing(s);
  }

  lemma CodeBound(s: Bytes, i: nat, cnt: nat)
    requires FromHex(s, i, cnt).Some?
    ensures cnt == 2 ==> FromHex(s, i, cnt).value < 0x100
    ensures cnt == 4 ==> FromHex(s, i, cnt).value < 0x1_0000
  {
    HexBound(s[i..i + cnt]);
  }

  lemma DecodeNothing(s: Bytes)
    ensures Decode(s[|s|..]) == []
  {
  }

  /** An escape that decoding would act on. */
  predicate EscapeAt(s: Bytes, i: nat)
    requires i < |s|
  {
    s[i] == '%' && (FromHex(s, i + 1, 2).Some? || (i + 1 < |s| && s[i + 1] == 'u' && FromHex(s, i + 2, 4).Some?))
  }

  /** Strings without NUL in which no `%` happens to start an escape. */
  ghost predicate Faithful(s: Bytes) {
    NUL !in s && forall i :: 0 <= i < |s| ==> !EscapeAt(s, i)
  }

  lemma {:induction false} FaithfulStep(s: Bytes)
    requires s != []
    ensures Faithful(s) <==> s[0] != NUL && !EscapeAt(s, 0) && Faithful(s[1..])
  {
    var t := s[1..];
    EscapesAhead(s);
    assert NUL in s <==> s[0] == NUL || NUL in t by { assert s == [s[0]] + t; }
  }

  predicate HexRun(s: Bytes, k: nat) {
    k == 0 || (s != [] && HexValue(s[0]).Some? && HexRun(s[1..], k - 1))
  }

  lemma {:induction false} HexRunAt(s: Bytes, i: nat, k: nat)
    requires i <= |s|
    ensures FromHex(s, i, k).Some? <==> HexRun(s[i..], k)
    decreases k
  {
    hide ValueOf;
    if 0 < k && i < |s| {
      HexRunAt(s, i + 1, k - 1);
      assert s[i..][1..] == s[i + 1..];
      assert FromHex(s, i, k).Some? <==> HexValue(s[i]).Some? && FromHex(s, i + 1, k - 1).Some?;
    }
  }

  lemma FirstKept(c: Byte)
    ensures EncodeByte(c) != []
    ensures HexValue(c).Some? ==> EncodeByte(c) == [c]
    ensures HexValue(c).None? ==> HexValue(EncodeByte(c)[0]).None?
  {
  }

  /** Hex digits pass through the encoder, and nothing else becomes one. */
  lemma {:induction false} DigitsKept(t: Bytes, k: nat)
    ensures HexRun(Encode(t), k) <==> HexRun(t, k)
    ensures HexRun(t, k) ==> k <= |t| && Encode(t) == t[..k] + Encode(t[k..])
  {
    hide Encode, EncodeByte, HexValue;
    EncodeCons(t);
    if k == 0 {
      assert t[0..] == t;
    } else if t != [] && t[0] != NUL {
      FirstKept(t[0]);
      DigitsKept(t[1..], k - 1);
      if HexValue(t[0]).Some? {
        assert Encode(t)[1..] == Encode(t[1..]);
        if HexRun(t[1..], k - 1) {
          assert t[..k] == [t[0]] + t[1..][..k - 1];
          assert t[k..] == t[1..][k - 1..];
        }
      }
    }
  }

  lemma EncodeCons(t: Bytes)
    ensures Encode(t) == if t == [] || t[0] == NUL then [] else EncodeByte(t[0]) + Encode(t[1..])
    ensures t != [] && t[0] == NUL ==> HexValue(t[0]).None?
  {
  }

  /** Whether an escape starts here, in terms of what follows the percent sign. */
  lemma {:induction false} EscapeAfterPercent(s: Bytes)
    requires s != [] && s[0] == '%'
    ensures EscapeAt(s, 0) <==> HexRun(s[1..], 2) || (|s| > 1 && s[1] == 'u' && HexRun(s[2..], 4))
    ensures DecodeHead(s).1 ==
      if |s| > 1 && s[1] == 'u' && HexRun(s[2..], 4) then 6 else if HexRun(s[1..], 2) then 3 else 1
    ensures DecodeHead(s).1 == 1 ==> DecodeHead(s).0 == ['%']
    ensures DecodeHead(s).1 > 1 ==> |DecodeHead(s).0| < DecodeHead(s).1
  {
    hide FromHex, ToUtf8;
    HexRunAt(s, 1, 2);
    if |s| > 1 {
      HexRunAt(s, 2, 4);
      assert s[1] == s[1..][0];
    }
  }

  /** The encoder changes nothing about what follows a percent sign. */
  lemma {:induction false} SameAfterPercent(t: Bytes)
    ensures HexRun(Encode(t), 2) == HexRun(t, 2)
    ensures Encode(t) != [] && Encode(t)[0] == 'u' <==> t != [] && t[0] == 'u'
    ensures t != [] && t[0] == 'u' ==>
      Encode(t)[1..] == Encode(t[1..]) && HexRun(Encode(t)[1..], 4) == HexRun(t[1..], 4)
  {
    hide HexRun;
    DigitsKept(t, 2);
    if t != [] {
      DigitsKept(t[1..], 4);
      if t[0] == 'u' {
        assert Encode(t)[1..] == Encode(t[1..]);
      }
    }
  }

  /** Decoding the encoding of one byte gives it back, unless it starts an escape. */
  lemma {:induction false} ByteRoundTrip(s: Bytes)
    requires s != [] && s[0] != NUL && !EscapeAt(s, 0)
    ensures Decode(Encode(s)) == [s[0]] + Decode(Encode(s[1..]))
  {
    hide HexRun, FromHex, ToUtf8, EscapeAt;
    var c, t, e := s[0], s[1..], Encode(s);
    if IsEscaped(c) {
      EscapeDecodes(c, Encode(t));
    } else if c == '%' {
      assert e == ['%'] + Encode(t);
      assert e[1..] == Encode(t);
      EscapeAfterPercent(s);
      EscapeAfterPercent(e);
      SameAfterPercent(t);
      if |t| > 0 && t[0] == 'u' { assert s[2..] == t[1..] && e[2..] == Encode(t)[1..]; }
    } else {
      assert e[1..] == Encode(t);
    }
  }

  lemma {:induction false} EscapeDecodes(c: Byte, rest: Bytes)
    ensures Decode(Escape(c) + rest) == [c] + Decode(rest)
  {
    var e := Escape(c) + rest;
    var d := e[1..3];
    assert d == [UPPER_HEX[c as int / 16], UPPER_HEX[c as int % 16]];
    UpperDigit(c as int / 16);
    UpperDigit(c as int % 16);
    assert ValueOf(d) == c as int by {
      ValueStep(d, 1);
      ValueStep(d, 2);
    }
    assert FromHex(e, 1, 2) == Some(c as int);
    assert e[3..] == rest;
  }

  lemma UpperDigit(n: nat)
    requires n < 16
    ensures HexValue(UPPER_HEX[n]) == Some(n) && UPPER_HEX[n] != 'u'
  {
  }

  /** An escape written by hand is decoded away: at least one byte is lost. */
  lemma {:induction false} EscapeShrinks(s: Bytes)
    requires s != [] && EscapeAt(s, 0)
    ensures exists k :: 0 < k <= |s| && |Decode(Encode(s))| < k + |Decode(Encode(s[k..]))|
  {
    hide HexRun, FromHex, ToUtf8, DecodeHead;
    var t, e := s[1..], Encode(s);
    assert e == ['%'] + Encode(t);
    assert e[1..] == Encode(t);
    EscapeAfterPercent(s);
    EscapeAfterPercent(e);
    SameAfterPercent(t);
    if |t| > 0 && t[0] == 'u' { assert s[2..] == t[1..] && e[2..] == Encode(t)[1..]; }
    var used := DecodeHead(e).1;
    if used == 3 {
      DigitsKept(t, 2);
      assert e[3..] == Encode(t)[2..] == Encode(t[2..]);
      assert t[2..] == s[3..];
    } else {
      DigitsKept(t[1..], 4);
      assert e[6..] == Encode(t)[1..][4..] == Encode(t[1..][4..]);
      assert t[1..][4..] == s[6..];
    }
    assert e[used..] == Encode(s[used..]);
  }

  lemma {:induction false} RoundTripLength(s: Bytes)
    ensures Faithful(s) ==> Decode(Encode(s)) == s
    ensures !Faithful(s) ==> |Decode(Encode(s))| < |s|
    decreases |s|
  {
    hide EscapeAt, Faithful, Decode, Encode, FromHex;
    if s == [] || s[0] == NUL {
      EmptyRoundTrip(s);
    } else {
      FaithfulStep(s);
      if EscapeAt(s, 0) {
        EscapeShrinks(s);
        var k :| 0 < k <= |s| && |Decode(Encode(s))| < k + |Decode(Encode(s[k..]))|;
        RoundTripLength(s[k..]);
      } else {
        ByteRoundTrip(s);
        RoundTripLength(s[1..]);
      }
    }
  }

  lemma EmptyRoundTrip(s: Bytes)
    requires s == [] || s[0] == NUL
    ensures Decode(Encode(s)) == [] && (Faithful(s) <==> s == [])
  {
  }

  /** The round trip gives back exactly the strings without NUL and without anything that reads as an escape. */
  lemma {:induction false} UrlRoundTrip(s: Bytes)
    ensures Decode(Encode(s)) == s <==> Faithful(s)
  {
    RoundTripLength(s);
  }

  /** Decoding leaves exactly those strings alone that contain neither an escape nor a plus sign. */
  lemma {:induction false} DecodeFixesIff(s: Bytes)
    ensures Decode(s) == s <==> '+' !in s && forall i :: 0 <= i < |s| ==> !EscapeAt(s, i)
    decreases |s|
  {
    if s != [] {
      hide FromHex, ToUtf8, HexRun;
      var t := s[1..];
      DecodeFixesIff(t);
      EscapesAhead(s);
      assert s == [s[0]] + t;
      if s[0] == '%' {
        EscapeAfterPercent(s);
      }
    }
  }

  lemma {:induction false} EscapesAhead(s: Bytes)
    requires s != []
    ensures (forall i :: 0 <= i < |s| ==> !EscapeAt(s, i)) <==>
      !EscapeAt(s, 0) && forall i :: 0 <= i < |s[1..]| ==> !EscapeAt(s[1..], i)
  {
    var t := s[1..];
    forall i | 0 <= i < |t| ensures EscapeAt(t, i) == EscapeAt(s, i + 1) {
      HeadAt(s, 1, 2, i + 1);
      HeadAt(s, 1, 4, i + 2);
    }
    assert forall i :: 0 <= i < |s| ==> i == 0 || EscapeAt(s, i) == EscapeAt(t, i - 1);
    assert forall i :: 0 <= i < |t| ==> EscapeAt(t, i) == EscapeAt(s, i + 1);
  }
}
