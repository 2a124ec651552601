/** Whether a request path stays below its root: the components, resolved on a stack. */
module PathCheck {
  import opened Text
  import opened Wrappers

  /** The parts between slashes that are not empty. */
  function Components(path: string): seq<string>
    decreases |path|
  {
    if path == "" then []
    else
      var i := IndexOf(path, '/');
      (if i == 0 then [] else [path[..i]]) + if i < |path| then Components(path[i + 1..]) else []
  }

  /** The directory reached, or none when a `..` leaves the root. */
  function Resolve(cs: seq<string>, stack: seq<string>): Option<seq<string>>
    decreases |cs|
  {
    if cs == [] then Some(stack)
    else if cs[0] == "." then Resolve(cs[1..], stack)
    else if cs[0] == ".." then (if stack == [] then None else Resolve(cs[1..], stack[..|stack| - 1]))
    else Resolve(cs[1..], stack + [cs[0]])
  }

  /** Names less `..`s. */
  function Balance(cs: seq<string>): int
  {
    if cs == [] then 0
    else
      var c := cs[|cs| - 1];
      Balance(cs[..|cs| - 1]) + if c == "." then 0 else if c == ".." then -1 else 1
  }

  lemma {:induction false} BalanceCons(c: string, cs: seq<string>)
    ensures Balance([c] + cs) == Balance(cs) + if c == "." then 0 else if c == ".." then -1 else 1
    decreases |cs|
  {
    if cs == [] {
      assert [c] + cs == [c] && [c][..0] == [];
    } else {
      assert ([c] + cs)[..|cs|] == [c] + cs[..|cs| - 1];
      BalanceCons(c, cs[..|cs| - 1]);
    }
  }

  /** The stack never pops below the root exactly when no prefix has more `..`s than names; its depth is the balance. */
  lemma {:induction false} ResolveByBalance(cs: seq<string>, stack: seq<string>)
    ensures Resolve(cs, stack).Some? <==> forall k :: 0 <= k <= |cs| ==> |stack| + Balance(cs[..k]) >= 0
    ensures Resolve(cs, stack).Some? ==> |Resolve(cs, stack).value| == |stack| + Balance(cs)
    decreases |cs|
  {
    if cs == [] {
    } else {
      var (c, rest) := (cs[0], cs[1..]);
      var d := if c == "." then 0 else if c == ".." then -1 else 1;
      assert cs == [c] + rest;
      BalanceCons(c, rest);
      forall k | 1 <= k <= |cs| ensures Balance(cs[..k]) == Balance(rest[..k - 1]) + d {
        assert cs[..k] == [c] + rest[..k - 1];
        BalanceCons(c, rest[..k - 1]);
      }
      assert cs[..0] == [] && rest[..0] == [];
      if c == ".." && stack == [] {
        assert |stack| + Balance(cs[..1]) < 0;
      } else {
        var next := if c == "." then stack else if c == ".." then stack[..|stack| - 1] else stack + [c];
        ResolveByBalance(rest, next);
        assert |next| == |stack| + d;
        if Resolve(cs, stack).Some? {
          forall k | 0 <= k <= |cs| ensures |stack| + Balance(cs[..k]) >= 0 {
            if k > 0 { assert |next| + Balance(rest[..k - 1]) >= 0; }
          }
        } else {
          var k :| 0 <= k <= |rest| && |next| + Balance(rest[..k]) < 0;
          assert |stack| + Balance(cs[..k + 1]) < 0;
        }
      }
    }
  }

  lemma SkipSlash(s: string)
    requires s != "" && s[0] == '/'
    ensures Components(s) == Components(s[1..])
  {
    IndexOfIs(s, '/', 0);
  }

  lemma TakeComponent(s: string, n: nat)
    requires 0 < n <= |s| && (forall k :: 0 <= k < n ==> s[k] != '/') && (n < |s| ==> s[n] == '/')
    ensures Components(s) == [s[..n]] + Components(s[n..])
  {
    IndexOfIs(s, '/', n);
    if n < |s| {
      assert s[n..][1..] == s[n + 1..];
      SkipSlash(s[n..]);
    }
  }

  method SkipSlashes(path: string, start: nat) returns (i: nat)
    requires start <= |path|
    ensures start <= i <= |path| && (i < |path| ==> path[i] != '/')
    ensures Components(path[start..]) == Components(path[i..])
  {
    i := start;
    while i < |path| && path[i] == '/'
      invariant start <= i <= |path|
      invariant Components(path[start..]) == Components(path[i..])
    {
      SkipSlash(path[i..]);
      assert path[i..][1..] == path[i + 1..];
      i := i + 1;
    }
  }

  /** The level is the depth of the stack after each component. */
  method IsValidPath(path: string) returns (valid: bool)
    ensures valid <==> Resolve(Components(path), []).Some?
    ensures valid <==> forall k :: 0 <= k <= |Components(path)| ==> Balance(Components(path)[..k]) >= 0
  {
    hide Components, Balance;
    ResolveByBalance(Components(path), []);
    var level := 0;
    ghost var stack: seq<string> := [];
    assert path[0..] == path;
    var i := SkipSlashes(path, 0);
    while i < |path|
      invariant 0 <= i <= |path| && (i < |path| ==> path[i] != '/')
      invariant level == |stack|
      invariant Resolve(Components(path), []) == Resolve(Components(path[i..]), stack)
      decreases |path| - i
    {
      var beg := i;
      while i < |path| && path[i] != '/'
        invariant beg <= i <= |path| && (i == beg ==> path[i] != '/')
        invariant forall k :: beg <= k < i ==> path[k] != '/'
      {
        i := i + 1;
      }
      var component := path[beg..i];
      TakeComponent(path[beg..], i - beg);
      assert path[beg..][..i - beg] == component && path[beg..][i - beg..] == path[i..];
      assert ([component] + Components(path[i..]))[1..] == Components(path[i..]);
      if component == "." {
      } else if component == ".." {
        if level == 0 { return false; }
        level := level - 1;
        stack := stack[..|stack| - 1];
      } else {
        level := level + 1;
        stack := stack + [component];
      }
      i := SkipSlashes(path, i);
    }
    EmptyPath();
    assert path[i..] == "";
    return true;
  }

  lemma EmptyPath()
    ensures Components("") == []
  {
  }
}
