/** Form parameters as query text: the client's builder and the server's parser. */
module Query {
  import opened Bytes
  import opened Url

  /** The pieces between delimiters, empty ones included. */
  function SplitAll(s: Bytes, d: Byte): (pieces: seq<Bytes>)
    ensures pieces != []
  {
    if s == [] then [[]]
    else
      var rest := SplitAll(s[1..], d);
      if s[0] == d then [[]] + rest else [[s[0]] + rest[0]] + rest[1..]
  }

  /** An empty text has no pieces at all. */
  function Pieces(s: Bytes, d: Byte): seq<Bytes> {
    if s == [] then [] else SplitAll(s, d)
  }

  lemma {:induction false} SplitFirst(body: Bytes, d: Byte, rest: Bytes)
    requires d !in body
    ensures SplitAll(body + [d] + rest, d) == [body] + SplitAll(rest, d)
    ensures SplitAll(body, d) == [body]
  {
    var s := body + [d] + rest;
    if body != [] {
      assert s[1..] == body[1..] + [d] + rest;
      SplitFirst(body[1..], d, rest);
      assert [body[0]] + body[1..] == body;
    } else {
      assert s[1..] == rest;
    }
  }

  ghost function Count(s: Bytes, d: Byte): nat {
    multiset(s)[d]
  }

  /** One piece more than delimiters, none containing a delimiter, none longer than the text. */
  lemma {:induction false} SplitShape(s: Bytes, d: Byte)
    ensures |SplitAll(s, d)| == 1 + Count(s, d)
    ensures forall i :: 0 <= i < |SplitAll(s, d)| ==>
      d !in SplitAll(s, d)[i] && |SplitAll(s, d)[i]| + Count(s, d) <= |s|
  {
    if s != [] {
      var rest := SplitAll(s[1..], d);
      SplitShape(s[1..], d);
      assert s == [s[0]] + s[1..];
      assert multiset(s) == multiset{s[0]} + multiset(s[1..]);
      forall i | 0 <= i < |SplitAll(s, d)|
        ensures d !in SplitAll(s, d)[i] && |SplitAll(s, d)[i]| + Count(s, d) <= |s|
      {
        if s[0] == d {
          assert i == 0 || SplitAll(s, d)[i] == rest[i - 1];
          assert |rest[0]| + Count(s[1..], d) <= |s[1..]|;
        } else {
          assert SplitAll(s, d)[i] == if i == 0 then [s[0]] + rest[0] else rest[i];
        }
      }
    }
  }

  /** Calls back with every piece; here the pieces are collected. */
  method Split(s: Bytes, d: Byte) returns (pieces: seq<Bytes>)
    ensures pieces == Pieces(s, d)
  {
    hide SplitAll;
    pieces := [];
    var i, beg := 0, 0;
    assert s[0..] == s;
    while i < |s|
      invariant beg <= i <= |s| && d !in s[beg..i]
      invariant SplitAll(s, d) == pieces + SplitAll(s[beg..], d)
    {
      if s[i] == d {
        assert s[beg..] == s[beg..i] + [d] + s[i + 1..];
        SplitFirst(s[beg..i], d, s[i + 1..]);
        pieces := pieces + [s[beg..i]];
        beg := i + 1;
      } else {
        assert s[beg..i + 1] == s[beg..i] + [s[i]];
      }
      i := i + 1;
    }
    if i != 0 {
      assert s[beg..] == s[beg..i];
      SplitFirst(s[beg..i], d, []);
      pieces := pieces + [s[beg..i]];
    }
  }

  type Param = (Bytes, Bytes)

  /** The inner callback: pieces fill the key until it is nonempty, then overwrite the value. */
  function Assign(parts: seq<Bytes>, key: Bytes, val: Bytes): Param {
    if parts == [] then (key, val)
    else if key == [] then Assign(parts[1..], parts[0], val)
    else Assign(parts[1..], key, parts[0])
  }

  function ParseEntry(piece: Bytes): Param {
    var (key, val) := Assign(Pieces(piece, '='), [], []);
    (key, Decode(val))
  }

  method ReadEntry(piece: Bytes) returns (key: Bytes, val: Bytes)
    ensures (key, Decode(val)) == ParseEntry(piece)
  {
    var parts := Split(piece, '=');
    key, val := [], [];
    assert parts[0..] == parts;
    for i := 0 to |parts|
      invariant Assign(parts, [], []) == Assign(parts[i..], key, val)
    {
      assert parts[i..][1..] == parts[i + 1..];
      if key == [] {
        key := parts[i];
      } else {
        val := parts[i];
      }
    }
  }

  /** Byte-wise lexicographic order. */
  predicate Less(a: Bytes, b: Bytes) {
    b != [] && (a == [] || a[0] < b[0] || (a[0] == b[0] && Less(a[1..], b[1..])))
  }

  /** A multimap keeps its entries in key order, equal keys in order of insertion. */
  function Emplace(m: seq<Param>, e: Param): seq<Param> {
    if m == [] then [e]
    else if Less(e.0, m[0].0) then [e] + m
    else [m[0]] + Emplace(m[1..], e)
  }

  function EmplaceAll(m: seq<Param>, es: seq<Param>): seq<Param>
    decreases es
  {
    if es == [] then m else EmplaceAll(Emplace(m, es[0]), es[1..])
  }

  ghost predicate InKeyOrder(m: seq<Param>) {
    forall i, j :: 0 <= i < j < |m| ==> !Less(m[j].0, m[i].0)
  }

  function EntriesOf(pieces: seq<Bytes>): (es: seq<Param>)
    ensures |es| == |pieces| && forall i :: 0 <= i < |es| ==> es[i] == ParseEntry(pieces[i])
  {
    seq(|pieces|, i requires 0 <= i < |pieces| => ParseEntry(pieces[i]))
  }

  function ParseList(s: Bytes): seq<Param> { EntriesOf(Pieces(s, '&')) }

  method ParseQueryText(s: Bytes) returns (params: seq<Param>)
    ensures params == EmplaceAll([], ParseList(s))
  {
    hide Emplace, ParseEntry;
    var pieces := Split(s, '&');
    params := [];
    ghost var es := EntriesOf(pieces);
    assert es[0..] == es;
    for i := 0 to |pieces|
      invariant EmplaceAll([], es) == EmplaceAll(params, es[i..])
    {
      assert es[i..][1..] == es[i + 1..];
      var key, val := ReadEntry(pieces[i]);
      var decoded := DecodeUrl(val);
      params := Emplace(params, (key, decoded));
    }
  }

  function EntryText(e: Param): Bytes { e.0 + ['='] + e.1 }

  function Build(params: seq<Param>): Bytes {
    if params == [] then []
    else if |params| == 1 then EntryText(params[0])
    else EntryText(params[0]) + ['&'] + Build(params[1..])
  }

  lemma {:induction false} BuildAppend(params: seq<Param>, e: Param)
    ensures Build(params + [e]) == if params == [] then EntryText(e) else Build(params) + ['&'] + EntryText(e)
  {
    if params == [] {
      assert params + [e] == [e];
    } else {
      assert (params + [e])[1..] == params[1..] + [e];
      BuildAppend(params[1..], e);
    }
  }

  method BuildQuery(params: seq<Param>) returns (query: Bytes)
    ensures query == Build(params)
  {
    hide Build;
    query := [];
    BuildNothing(params);
    for i := 0 to |params|
      invariant query == Build(params[..i])
    {
      assert params[..i + 1] == params[..i] + [params[i]];
      BuildAppend(params[..i], params[i]);
      if i != 0 {
        query := query + ['&'];
      }
      query := query + params[i].0;
      query := query + ['='];
      query := query + params[i].1;
    }
    assert params[..|params|] == params;
  }

  lemma BuildNothing(params: seq<Param>)
    ensures Build(params[..0]) == []
  {
  }

  /** Entries that survive: no `=` inside, no value without a key, nothing the value's decoding would change. */
  predicate EntryOk(e: Param) {
    '=' !in e.0 && '=' !in e.1 && (e.0 != [] || e.1 == []) && Decode(e.1) == e.1
  }

  /** With a key in place the value ends up as the last piece. */
  lemma {:induction false} AssignLast(parts: seq<Bytes>, key: Bytes, val: Bytes)
    requires key != []
    ensures Assign(parts, key, val) == (key, if parts == [] then val else parts[|parts| - 1])
  {
    if parts != [] {
      AssignLast(parts[1..], key, parts[0]);
    }
  }

  /** The key is one of the pieces, and without a key there is no value. */
  lemma {:induction false} AssignKey(parts: seq<Bytes>)
    ensures var (key, val) := Assign(parts, [], []);
      (key == [] && val == []) || (key != [] && key in parts)
  {
    if parts != [] {
      if parts[0] == [] {
        AssignKey(parts[1..]);
      } else {
        AssignLast(parts[1..], parts[0], []);
      }
    }
  }

  /** One entry written and read back is the same exactly if it is one of those that survive. */
  lemma {:induction false} EntryRoundTrip(e: Param)
    ensures ParseEntry(EntryText(e)) == e <==> EntryOk(e)
  {
    hide SplitAll, Decode;
    var (k, v) := e;
    var parts := SplitAll(EntryText(e), '=');
    SplitShape(EntryText(e), '=');
    AssignKey(parts);
    if '=' !in k {
      SplitFirst(k, '=', v);
      var rest := SplitAll(v, '=');
      SplitShape(v, '=');
      assert parts[1..] == rest && parts[0] == k;
      if k != [] {
        AssignLast(rest, k, []);
        assert ParseEntry(EntryText(e)) == (k, Decode(rest[|rest| - 1]));
        if '=' in v {
          assert |rest[|rest| - 1]| < |v|;
        } else {
          SplitFirst(v, '=', []);
        }
      } else if v == [] {
        SplitFirst(v, '=', []);
        assert Assign(parts, [], []) == ([], []);
        DecodeEmpty();
      } else {
        DecodeEmpty();
      }
    }
  }

  lemma DecodeEmpty()
    ensures Decode([]) == []
  {
  }

  ghost predicate NoAmpersand(m: seq<Param>) {
    forall i :: 0 <= i < |m| ==> '&' !in EntryText(m[i])
  }

  function Texts(m: seq<Param>): (t: seq<Bytes>)
    ensures |t| == |m| && forall i :: 0 <= i < |m| ==> t[i] == EntryText(m[i])
  {
    seq(|m|, i requires 0 <= i < |m| => EntryText(m[i]))
  }

  /** Without ampersands inside the entries, the pieces of the text are the entries' texts. */
  lemma {:induction false} BuildPieces(m: seq<Param>)
    requires m != [] && NoAmpersand(m)
    ensures SplitAll(Build(m), '&') == Texts(m)
  {
    hide EntryText, SplitAll;
    if |m| == 1 {
      SplitFirst(EntryText(m[0]), '&', []);
    } else {
      BuildPieces(m[1..]);
      SplitFirst(EntryText(m[0]), '&', Build(m[1..]));
      assert Texts(m) == [EntryText(m[0])] + Texts(m[1..]);
    }
  }

  /** An ampersand inside an entry makes one piece too many. */
  lemma {:induction false} BuildCount(m: seq<Param>)
    requires m != []
    ensures Count(Build(m), '&') >= |m| - 1
    ensures Count(Build(m), '&') == |m| - 1 <==> NoAmpersand(m)
  {
    hide EntryText;
    var first, amp: Byte := EntryText(m[0]), '&';
    assert '&' in first <==> Count(first, '&') > 0;
    if |m| == 1 {
    } else {
      BuildCount(m[1..]);
      assert multiset(Build(m)) == multiset(first) + multiset{amp} + multiset(Build(m[1..]));
      assert NoAmpersand(m) <==> '&' !in first && NoAmpersand(m[1..]) by {
        assert forall i :: 0 <= i < |m| ==> i == 0 || m[i] == m[1..][i - 1];
        assert forall i :: 0 <= i < |m[1..]| ==> m[1..][i] == m[i + 1];
      }
    }
  }

  /**
   * A list of entries is read back as it was written exactly if every entry survives and none contains an
   * ampersand.
   */
  lemma {:induction false} ListRoundTrip(m: seq<Param>)
    ensures ParseList(Build(m)) == m <==> NoAmpersand(m) && forall i :: 0 <= i < |m| ==> EntryOk(m[i])
  {
    hide SplitAll, EntryText, ParseEntry, EntryOk;
    if m != [] {
      BuildNonEmpty(m);
      SplitShape(Build(m), '&');
      BuildCount(m);
      if NoAmpersand(m) {
        BuildPieces(m);
        forall i | 0 <= i < |m| ensures ParseList(Build(m))[i] == m[i] <==> EntryOk(m[i]) {
          EntryRoundTrip(m[i]);
        }
      }
    }
  }

  lemma BuildNonEmpty(m: seq<Param>)
    requires m != []
    ensures Build(m) != []
  {
  }

  /** Entries arriving in key order are kept in that order. */
  lemma {:induction false} EmplaceInOrder(m: seq<Param>, es: seq<Param>)
    requires InKeyOrder(m + es)
    ensures EmplaceAll(m, es) == m + es
    decreases |es|
  {
    hide Less;
    if es == [] {
    } else {
      forall i | 0 <= i < |m| ensures !Less(es[0].0, m[i].0) {
        assert (m + es)[i] == m[i] && (m + es)[|m|] == es[0];
      }
      EmplaceLast(m, es[0]);
      assert m + es == (m + [es[0]]) + es[1..];
      EmplaceInOrder(m + [es[0]], es[1..]);
    }
  }

  lemma {:induction false} EmplaceLast(m: seq<Param>, e: Param)
    requires forall i :: 0 <= i < |m| ==> !Less(e.0, m[i].0)
    ensures Emplace(m, e) == m + [e]
  {
    if m != [] {
      EmplaceLast(m[1..], e);
    }
  }

  /** A measure of texts that decoding can only lower: two for every byte, and one more for a plus sign. */
  ghost function Heft(s: Bytes): nat { 2 * |s| + Count(s, '+') }

  lemma HeftConcat(s: Bytes, t: Bytes)
    ensures Heft(s + t) == Heft(s) + Heft(t)
  {
    assert multiset(s + t) == multiset(s) + multiset(t);
  }

  lemma {:induction false} CountBound(s: Bytes, d: Byte)
    ensures Count(s, d) <= |s|
  {
    assert |multiset(s)| == |s|;
    assert multiset(s)[d] <= |multiset(s)|;
  }

  lemma {:induction false} HeadHeft(s: Bytes)
    requires s != []
    ensures var (out, used) := DecodeHead(s);
      Heft(out) < Heft(s[..used]) || (used == 1 && out == [s[0]])
  {
    var (out, used) := DecodeHead(s);
    CountBound(out, '+');
    if used == 1 {
      assert s[..1] == [s[0]];
    }
  }

  lemma {:induction false} DecodeHeft(s: Bytes)
    ensures Heft(Decode(s)) < Heft(s) || Decode(s) == s
    decreases |s|
  {
    hide Heft, DecodeHead;
    if s != [] {
      var (out, used) := DecodeHead(s);
      HeadHeft(s);
      DecodeHeft(s[used..]);
      assert s == s[..used] + s[used..];
      HeftConcat(s[..used], s[used..]);
      HeftConcat(out, Decode(s[used..]));
      assert s[..1] == [s[0]];
    }
  }

  ghost function TotalHeft(parts: seq<Bytes>): nat {
    if parts == [] then 0 else Heft(parts[0]) + TotalHeft(parts[1..])
  }

  /** Splitting loses the delimiters. */
  lemma {:induction false} SplitHeft(s: Bytes, d: Byte)
    requires d != '+'
    ensures TotalHeft(SplitAll(s, d)) + 2 * Count(s, d) == Heft(s)
  {
    if s != [] {
      var rest := SplitAll(s[1..], d);
      SplitHeft(s[1..], d);
      assert s == [s[0]] + s[1..];
      HeftConcat([s[0]], s[1..]);
      HeftConcat([s[0]], rest[0]);
      assert multiset(s)[d] == (if s[0] == d then 1 else 0) + multiset(s[1..])[d];
      if s[0] == d {
        assert ([[]] + rest)[1..] == rest;
      } else {
        assert ([[s[0]] + rest[0]] + rest[1..])[1..] == rest[1..];
      }
    }
  }

  lemma {:induction false} PartHeft(parts: seq<Bytes>, i: nat)
    requires i < |parts|
    ensures Heft(parts[i]) <= TotalHeft(parts)
  {
    hide Heft;
    if i != 0 {
      PartHeft(parts[1..], i - 1);
    }
  }

  lemma {:induction false} SplitConcat(s: Bytes, d: Byte, t: Bytes)
    ensures SplitAll(s + [d] + t, d) == SplitAll(s, d) + SplitAll(t, d)
  {
    var u := s + [d] + t;
    if s == [] {
      assert u[1..] == t;
    } else {
      assert u[1..] == s[1..] + [d] + t;
      SplitConcat(s[1..], d, t);
    }
  }

  lemma {:induction false} AssignConcat(a: seq<Bytes>, b: seq<Bytes>, key: Bytes, val: Bytes)
    ensures var (k, v) := Assign(a, key, val); Assign(a + b, key, val) == Assign(b, k, v)
  {
    if a == [] {
      assert a + b == b;
    } else {
      assert (a + b)[1..] == a[1..] + b;
      if key == [] {
        AssignConcat(a[1..], b, a[0], val);
      } else {
        AssignConcat(a[1..], b, key, a[0]);
      }
    }
  }

  /** Key and value are different pieces. */
  lemma {:induction false} AssignHeft(parts: seq<Bytes>)
    ensures var (key, val) := Assign(parts, [], []); Heft(key) + Heft(val) <= TotalHeft(parts)
  {
    hide Heft;
    if parts != [] {
      if parts[0] == [] {
        AssignHeft(parts[1..]);
      } else {
        AssignLast(parts[1..], parts[0], []);
        if |parts| > 1 {
          PartHeft(parts[1..], |parts| - 2);
        }
      }
    }
    NoHeft();
  }

  lemma NoHeft()
    ensures Heft([]) == 0
  {
  }

  ghost function Weight(e: Param): nat { |e.0| + Heft(e.1) }

  /** Written and read back, an entry gets lighter unless it survives. */
  lemma {:induction false} EntryGetsLighter(e: Param)
    ensures Weight(ParseEntry(EntryText(e))) < Weight(e) || ParseEntry(EntryText(e)) == e
  {
    hide SplitAll, Decode;
    var (k, v) := e;
    var a, b := SplitAll(k, '='), SplitAll(v, '=');
    SplitConcat(k, '=', v);
    AssignConcat(a, b, [], []);
    AssignKey(a);
    var (k1, v1) := Assign(a, [], []);
    var (key, val) := Assign(b, k1, v1);
    assert ParseEntry(EntryText(e)) == (key, Decode(val));
    DecodeHeft(val);
    SplitHeft(v, '=');
    if k1 == [] {
      KeyFromValue(k, v, key, val);
    } else {
      AssignLast(b, k1, v1);
      PartHeft(b, |b| - 1);
      SplitShape(k, '=');
      WholeOrLess(k, k1);
      WholeOrLess(v, val);
    }
  }

  /** A piece between equals signs is shorter than the text, or all of it. */
  lemma {:induction false} WholeOrLess(s: Bytes, piece: Bytes)
    requires piece in SplitAll(s, '=')
    ensures piece == s || (|piece| < |s| && 0 < Count(s, '='))
  {
    SplitShape(s, '=');
    if '=' !in s {
      SplitFirst(s, '=', []);
    }
  }

  /** With nothing but equals signs before it, a value is taken for a key. */
  lemma {:induction false} KeyFromValue(k: Bytes, v: Bytes, key: Bytes, val: Bytes)
    requires (key, val) == Assign(SplitAll(v, '='), [], [])
    requires Assign(SplitAll(k, '='), [], []) == ([], [])
    ensures Weight((key, Decode(val))) < Weight((k, v)) || (key, Decode(val)) == (k, v)
  {
    hide SplitAll, Decode;
    AssignHeft(SplitAll(v, '='));
    AssignKey(SplitAll(v, '='));
    SplitHeft(v, '=');
    DecodeHeft(val);
    if key == [] {
      DecodeEmpty();
      NoHeft();
    }
  }

  ghost function TotalWeight(m: seq<Param>): nat {
    if m == [] then 0 else Weight(m[0]) + TotalWeight(m[1..])
  }

  /** Emplacing keeps number and weight. */
  lemma {:induction false} EmplaceWeighs(m: seq<Param>, e: Param)
    ensures |Emplace(m, e)| == |m| + 1 && TotalWeight(Emplace(m, e)) == TotalWeight(m) + Weight(e)
  {
    hide Less, Weight;
    if m != [] {
      EmplaceWeighs(m[1..], e);
      assert ([e] + m)[1..] == m;
    }
  }

  lemma {:induction false} EmplaceAllWeighs(m: seq<Param>, es: seq<Param>)
    ensures |EmplaceAll(m, es)| == |m| + |es| && TotalWeight(EmplaceAll(m, es)) == TotalWeight(m) + TotalWeight(es)
    decreases |es|
  {
    hide Emplace, Weight;
    if es != [] {
      EmplaceWeighs(m, es[0]);
      EmplaceAllWeighs(Emplace(m, es[0]), es[1..]);
    }
  }

  /** If no entry of a list has got heavier and the list weighs the same, no entry has got lighter. */
  lemma {:induction false} AllAsHeavy(s: seq<Param>, t: seq<Param>)
    requires |s| == |t| && forall i :: 0 <= i < |s| ==> Weight(s[i]) < Weight(t[i]) || s[i] == t[i]
    ensures TotalWeight(s) < TotalWeight(t) || s == t
  {
    hide Weight;
    if s != [] {
      AllAsHeavy(s[1..], t[1..]);
      assert s == [s[0]] + s[1..] && t == [t[0]] + t[1..];
    }
  }

  /** If the multimap comes out the same, so does the list of entries it is made from. */
  lemma {:induction false} SameMapSameList(m: seq<Param>)
    requires EmplaceAll([], ParseList(Build(m))) == m
    ensures ParseList(Build(m)) == m
  {
    hide SplitAll, EntryText, ParseEntry, Emplace, Weight;
    var es := ParseList(Build(m));
    EmplaceAllWeighs([], es);
    if m != [] {
      BuildNonEmpty(m);
      SplitShape(Build(m), '&');
      BuildCount(m);
      BuildPieces(m);
      forall i | 0 <= i < |m| ensures Weight(es[i]) < Weight(m[i]) || es[i] == m[i] {
        EntryGetsLighter(m[i]);
      }
      AllAsHeavy(es, m);
    }
  }

  /**
   * The server's multimap equals the client's, including the order of equal keys, exactly if every entry
   * survives and none contains an ampersand.
   */
  lemma {:induction false} QueryRoundTrip(m: seq<Param>)
    requires InKeyOrder(m)
    ensures EmplaceAll([], ParseList(Build(m))) == m <==> NoAmpersand(m) && forall i :: 0 <= i < |m| ==> EntryOk(m[i])
  {
    hide ParseList, EntryOk, Build, Emplace;
    ListRoundTrip(m);
    if ParseList(Build(m)) == m {
      assert [] + m == m;
      EmplaceInOrder([], m);
    } else if EmplaceAll([], ParseList(Build(m))) == m {
      SameMapSameList(m);
    }
  }

  /** Keys are compared byte by byte, the first difference decides, and a prefix comes first. */
  lemma {:induction false} LessIsLexicographic(a: Bytes, b: Bytes)
    ensures Less(a, b) <==>
      exists k :: 0 <= k <= |a| && k < |b| && a[..k] == b[..k] && (k == |a| || a[k] < b[k])
  {
    if a != [] && b != [] {
      var s, t := a[1..], b[1..];
      LessIsLexicographic(s, t);
      if a[0] == b[0] {
        if k :| 0 <= k <= |s| && k < |t| && s[..k] == t[..k] && (k == |s| || s[k] < t[k]) {
          assert a[..k + 1] == [a[0]] + s[..k] && b[..k + 1] == [b[0]] + t[..k];
        }
        if k :| 0 <= k <= |a| && k < |b| && a[..k] == b[..k] && (k == |a| || a[k] < b[k]) {
          assert s[..k - 1] == a[..k][1..] && t[..k - 1] == b[..k][1..];
        }
      } else {
        forall k | 0 < k <= |a| && k < |b| ensures a[..k] != b[..k] {
          assert a[..k][0] == a[0] && b[..k][0] == b[0];
        }
        assert a[..0] == b[..0];
      }
    } else {
      assert a[..0] == b[..0];
    }
  }

  lemma {:induction false} LessIsOrder(a: Bytes, b: Bytes, c: Bytes)
    ensures Less(a, b) && Less(b, c) ==> Less(a, c)
    ensures !Less(a, a)
  {
    if a != [] {
      if b != [] && c != [] {
        LessIsOrder(a[1..], b[1..], c[1..]);
      } else {
        LessIsOrder(a[1..], [], []);
      }
    }
  }

  /** The values under a key, in order. */
  function ValuesOf(m: seq<Param>, key: Bytes): seq<Bytes> {
    if m == [] then [] else (if m[0].0 == key then [m[0].1] else []) + ValuesOf(m[1..], key)
  }

  lemma {:induction false} EmplaceSorted(m: seq<Param>, e: Param)
    requires InKeyOrder(m)
    ensures InKeyOrder(Emplace(m, e))
    ensures forall x :: x in Emplace(m, e) ==> x == e || x in m
  {
    hide Less;
    if m == [] {
    } else if Less(e.0, m[0].0) {
      forall j | 0 <= j < |m| ensures !Less(m[j].0, e.0) {
        LessIsOrder(m[j].0, e.0, m[0].0);
        LessIsOrder(m[0].0, [], []);
        assert j == 0 || !Less(m[j].0, m[0].0);
      }
    } else {
      var rest := m[1..];
      EmplaceSorted(rest, e);
      var t := Emplace(rest, e);
      forall j | 0 <= j < |t| ensures !Less(t[j].0, m[0].0) {
        assert t[j] in t;
        if t[j] in rest {
          var i :| 0 <= i < |rest| && rest[i] == t[j];
          assert m[i + 1] == t[j];
        }
      }
      InFront(m[0], t);
    }
  }

  lemma InFront(e: Param, t: seq<Param>)
    requires InKeyOrder(t) && forall j :: 0 <= j < |t| ==> !Less(t[j].0, e.0)
    ensures InKeyOrder([e] + t)
  {
  }

  lemma {:induction false} ValuesCons(e: Param, m: seq<Param>, key: Bytes)
    ensures ValuesOf([e] + m, key) == (if e.0 == key then [e.1] else []) + ValuesOf(m, key)
    ensures ValuesOf([], key) == []
  {
    assert ([e] + m)[1..] == m;
  }

  lemma {:induction false} EmplaceValues(m: seq<Param>, e: Param, key: Bytes)
    requires InKeyOrder(m)
    ensures ValuesOf(Emplace(m, e), key) == ValuesOf(m, key) + if e.0 == key then [e.1] else []
  {
    hide Less, InKeyOrder, ValuesOf;
    var own := if e.0 == key then [e.1] else [];
    if m == [] {
      ValuesCons(e, [], key);
      assert [e] == [e] + [];
    } else if Less(e.0, m[0].0) {
      ValuesCons(e, m, key);
      if e.0 == key {
        AllBehind(m, e);
        NoValues(m, key);
      }
    } else {
      var first, rest := m[0], m[1..];
      OthersInOrder(m);
      EmplaceValues(rest, e, key);
      ValuesCons(first, rest, key);
      ValuesCons(first, Emplace(rest, e), key);
      assert m == [first] + rest;
      var head := if first.0 == key then [first.1] else [];
      assert head + (ValuesOf(rest, key) + own) == (head + ValuesOf(rest, key)) + own;
    }
  }

  lemma OthersInOrder(m: seq<Param>)
    requires m != [] && InKeyOrder(m)
    ensures InKeyOrder(m[1..])
  {
  }

  /** An entry that comes before the first comes before all. */
  lemma {:induction false} AllBehind(m: seq<Param>, e: Param)
    requires m != [] && InKeyOrder(m) && Less(e.0, m[0].0)
    ensures forall j :: 0 <= j < |m| ==> m[j].0 != e.0
  {
    hide Less;
    forall j | 0 <= j < |m| ensures m[j].0 != e.0 {
      LessIsOrder(e.0, [], []);
      assert j == 0 || !Less(m[j].0, m[0].0);
    }
  }

  lemma {:induction false} NoValues(m: seq<Param>, key: Bytes)
    requires forall j :: 0 <= j < |m| ==> m[j].0 != key
    ensures ValuesOf(m, key) == []
  {
    if m != [] {
      NoValues(m[1..], key);
    }
  }

  lemma {:induction false} EmplacedInto(m: seq<Param>, es: seq<Param>, key: Bytes)
    requires InKeyOrder(m)
    ensures InKeyOrder(EmplaceAll(m, es))
    ensures ValuesOf(EmplaceAll(m, es), key) == ValuesOf(m, key) + ValuesOf(es, key)
    decreases |es|
  {
    hide Less, Emplace, InKeyOrder;
    if es != [] {
      EmplaceSorted(m, es[0]);
      EmplaceValues(m, es[0], key);
      EmplacedInto(Emplace(m, es[0]), es[1..], key);
      var own := if es[0].0 == key then [es[0].1] else [];
      assert ValuesOf(es, key) == own + ValuesOf(es[1..], key);
    }
  }

  /** A multimap has its keys in order, and under each key the values in their order of arrival. */
  lemma {:induction false} MultimapIsSorted(es: seq<Param>, key: Bytes)
    ensures var m := EmplaceAll([], es);
      InKeyOrder(m) && |m| == |es| && ValuesOf(m, key) == ValuesOf(es, key)
  {
    hide Less, Emplace, Weight;
    EmplacedInto([], es, key);
    EmplaceAllWeighs([], es);
  }

  /** In a piece cut at its equals signs, the first nonempty part is the key and the last part after it the value. */
  lemma {:induction false} KeyAndValue(piece: Bytes, f: nat)
    requires var parts := Pieces(piece, '=');
      f < |parts| && parts[f] != [] && forall i :: 0 <= i < f ==> parts[i] == []
    ensures var parts := Pieces(piece, '=');
      ParseEntry(piece) == (parts[f], if f + 1 < |parts| then Decode(parts[|parts| - 1]) else [])
  {
    hide Pieces, Decode;
    FirstPart(Pieces(piece, '='), f);
    DecodeEmpty();
  }

  lemma {:induction false} FirstPart(parts: seq<Bytes>, f: nat)
    requires f < |parts| && parts[f] != [] && forall i :: 0 <= i < f ==> parts[i] == []
    ensures Assign(parts, [], []) == (parts[f], if f + 1 < |parts| then parts[|parts| - 1] else [])
    decreases f
  {
    if f == 0 {
      AssignLast(parts[1..], parts[0], []);
    } else {
      FirstPart(parts[1..], f - 1);
    }
  }
}
