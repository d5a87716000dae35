/** The check of a request's path before a file is served: it must not climb above the base directory. */
module Path {
  import opened Wrappers
  import opened Bytes
  import opened Query

  const DOT: Bytes := ['.']
  const DOTDOT: Bytes := ['.', '.']

  function NonEmpty(pieces: seq<Bytes>): seq<Bytes> {
    if pieces == [] then []
    else (if pieces[0] == [] then [] else [pieces[0]]) + NonEmpty(pieces[1..])
  }

  /** What stands between slashes. */
  function Components(s: Bytes): seq<Bytes> { NonEmpty(SplitAll(s, '/')) }

  lemma {:induction false} SkipSlash(s: Bytes)
    requires s != [] && s[0] == '/'
    ensures Components(s) == Components(s[1..])
  {
    assert ([[]] + SplitAll(s[1..], '/'))[1..] == SplitAll(s[1..], '/');
  }

  lemma {:induction false} FirstComponent(body: Bytes, rest: Bytes)
    requires body != [] && '/' !in body && (rest == [] || rest[0] == '/')
    ensures Components(body + rest) == [body] + Components(rest)
  {
    hide SplitAll;
    if rest == [] {
      assert body + rest == body;
      SplitFirst(body, '/', []);
      NoComponents();
      assert NonEmpty([body]) == [body] + NonEmpty([]);
    } else {
      var s, tail := body + rest, rest[1..];
      assert s == body + ['/'] + tail;
      SplitFirst(body, '/', tail);
      assert ([body] + SplitAll(tail, '/'))[1..] == SplitAll(tail, '/');
      SkipSlash(rest);
    }
  }

  lemma {:induction false} NoComponents()
    ensures Components([]) == []
  {
    assert NonEmpty([[]]) == NonEmpty([]);
  }

  /** Walking from directory to directory; there is no way above the first one. */
  function Walk(dir: seq<Bytes>, parts: seq<Bytes>): Option<seq<Bytes>>
    decreases |parts|
  {
    if parts == [] then Some(dir)
    else if parts[0] == DOT then Walk(dir, parts[1..])
    else if parts[0] == DOTDOT then if dir == [] then None else Walk(dir[..|dir| - 1], parts[1..])
    else Walk(dir + [parts[0]], parts[1..])
  }

  /** The check counts levels; it accepts exactly the paths that can be walked from the base directory. */
  method IsValidPath(path: Bytes) returns (valid: bool)
    ensures valid <==> Walk([], Components(path)).Some?
  {
    hide Components;
    var level, i := 0, 0;
    ghost var dir: seq<Bytes> := [];
    assert path[0..] == path;
    while i < |path| && path[i] == '/'
      invariant i <= |path| && Components(path) == Components(path[i..])
    {
      SkipSlash(path[i..]);
      assert path[i..][1..] == path[i + 1..];
      i := i + 1;
    }
    while i < |path|
      invariant i <= |path| && (i < |path| ==> path[i] != '/')
      invariant level == |dir| && Walk([], Components(path)) == Walk(dir, Components(path[i..]))
    {
      var beg := i;
      while i < |path| && path[i] != '/'
        invariant beg <= i <= |path| && '/' !in path[beg..i] && (i == beg ==> path[i] != '/')
      {
        assert path[beg..i + 1] == path[beg..i] + [path[i]];
        i := i + 1;
      }
      var part := path[beg..i];
      ghost var rest := Components(path[i..]);
      assert path[beg..] == part + path[i..];
      FirstComponent(part, path[i..]);
      assert ([part] + rest)[1..] == rest;
      if part == DOT {
      } else if part == DOTDOT {
        if level == 0 {
          return false;
        }
        dir := dir[..|dir| - 1];
        level := level - 1;
      } else {
        dir := dir + [part];
        level := level + 1;
      }
      while i < |path| && path[i] == '/'
        invariant beg < i <= |path| && Components(path[i..]) == rest
      {
        SkipSlash(path[i..]);
        assert path[i..][1..] == path[i + 1..];
        i := i + 1;
      }
    }
    assert path[i..] == [];
    NoComponents();
    valid := true;
  }

  function Ups(parts: seq<Bytes>): nat {
    if parts == [] then 0 else Ups(parts[..|parts| - 1]) + if parts[|parts| - 1] == DOTDOT then 1 else 0
  }

  function Names(parts: seq<Bytes>): nat {
    if parts == [] then 0
    else
      var last := parts[|parts| - 1];
      Names(parts[..|parts| - 1]) + if last == DOT || last == DOTDOT then 0 else 1
  }

  /** A walk in two parts. */
  lemma {:induction false} WalkOn(dir: seq<Bytes>, parts: seq<Bytes>, last: Bytes)
    ensures Walk(dir, parts + [last]) ==
      match Walk(dir, parts) case None => None case Some(d) => Walk(d, [last])
    decreases |parts|
  {
    if parts == [] {
      assert parts + [last] == [last];
    } else {
      assert (parts + [last])[1..] == parts[1..] + [last];
      if parts[0] == DOT {
        WalkOn(dir, parts[1..], last);
      } else if parts[0] != DOTDOT {
        WalkOn(dir + [parts[0]], parts[1..], last);
      } else if dir != [] {
        WalkOn(dir[..|dir| - 1], parts[1..], last);
      }
    }
  }

  /** A path can be walked exactly if no part of it, read from the front, has more steps up than names. */
  lemma {:induction false} WalkableIff(parts: seq<Bytes>)
    ensures Walk([], parts).Some? <==> forall k :: 0 <= k <= |parts| ==> Ups(parts[..k]) <= Names(parts[..k])
    ensures Walk([], parts).Some? ==> |Walk([], parts).value| == Names(parts) - Ups(parts)
  {
    hide Walk, Ups, Names;
    CountSteps(parts);
    if parts == [] {
      StayHere([]);
    } else {
      var n := |parts| - 1;
      var before, last := parts[..n], parts[n];
      WalkableIff(before);
      assert parts == before + [last];
      WalkOn([], before, last);
      if Walk([], before).Some? {
        OneStep(Walk([], before).value, last);
      }
      assert forall k :: 0 <= k <= n ==> before[..k] == parts[..k];
    }
  }

  lemma CountSteps(parts: seq<Bytes>)
    ensures parts[..|parts|] == parts && parts[..0] == [] && Ups([]) == 0 && Names([]) == 0
    ensures parts != [] ==>
      var before, last := parts[..|parts| - 1], parts[|parts| - 1];
      && Ups(parts) == Ups(before) + (if last == DOTDOT then 1 else 0)
      && Names(parts) == Names(before) + (if last == DOT || last == DOTDOT then 0 else 1)
  {
  }

  lemma StayHere(dir: seq<Bytes>)
    ensures Walk(dir, []) == Some(dir)
  {
  }

  lemma OneStep(dir: seq<Bytes>, last: Bytes)
    ensures Walk(dir, [last]) ==
      if last == DOT then Some(dir)
      else if last == DOTDOT then if dir == [] then None else Some(dir[..|dir| - 1])
      else Some(dir + [last])
  {
    assert [last][1..] == [];
  }
}
