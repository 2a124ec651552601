/** Certificate names against host names, RFC 2818 section 3.1: a `*` stands for part of one label. */
module HostMatch {
  import opened Text

  /** The match, taken apart at the front of the pattern. */
  function Match(p: string, h: string): bool
    decreases |p|, 0, 0
  {
    if p == "" || h == "" then p == h
    else if p[0] == '*' then MatchRun(p[1..], h)
    else Lower(p[0]) == Lower(h[0]) && Match(p[1..], h[1..])
  }

  /** Some number of characters before the next dot is left to the `*`. */
  function MatchRun(p: string, h: string): bool
    decreases |p|, 1, |h|
  {
    Match(p, h) || (h != "" && h[0] != '.' && MatchRun(p, h[1..]))
  }

  /** `parts` gives every character of the pattern its share of the host: a `*` any characters but dots, and it must
      not come when the host is used up; every other character one that is equal but for case. */
  predicate Assigns(p: string, h: string, parts: seq<string>)
  {
    && |parts| == |p| && Concat(parts) == h
    && (forall i :: 0 <= i < |p| && p[i] == '*' ==> '.' !in parts[i] && Concat(parts[i..]) != "")
    && (forall i :: 0 <= i < |p| && p[i] != '*' ==> |parts[i]| == 1 && Lower(parts[i][0]) == Lower(p[i]))
  }

  /** The share of the first `*`. */
  lemma {:induction false} RunGives(p: string, h: string) returns (k: nat)
    requires MatchRun(p, h)
    ensures k <= |h| && '.' !in h[..k] && Match(p, h[k..])
    decreases |h|
  {
    if Match(p, h) {
      k := 0;
      assert h[0..] == h;
    } else {
      k := RunGives(p, h[1..]);
      assert h[..k + 1] == [h[0]] + h[1..][..k] && h[1..][k..] == h[k + 1..];
      k := k + 1;
    }
  }

  lemma {:induction false} RunTakes(p: string, h: string, k: nat)
    requires k <= |h| && '.' !in h[..k] && Match(p, h[k..])
    ensures MatchRun(p, h)
    decreases k
  {
    if k == 0 {
      assert h[0..] == h;
    } else {
      assert h[0] == h[..k][0];
      assert h[..k] == [h[0]] + h[1..][..k - 1] && h[1..][k - 1..] == h[k..];
      RunTakes(p, h[1..], k - 1);
    }
  }

  lemma {:induction false} MatchGives(p: string, h: string) returns (parts: seq<string>)
    requires Match(p, h)
    ensures Assigns(p, h, parts)
    decreases |p|
  {
    if p == "" {
      parts := [];
    } else {
      var k := 1;
      if p[0] == '*' { k := RunGives(p[1..], h); }
      var rest := MatchGives(p[1..], h[k..]);
      parts := [h[..k]] + rest;
      AssignsCons(p, h, k, rest);
    }
  }

  lemma AssignsCons(p: string, h: string, k: nat, rest: seq<string>)
    requires p != "" && h != "" && k <= |h| && Assigns(p[1..], h[k..], rest)
    requires if p[0] == '*' then '.' !in h[..k] else k == 1 && Lower(h[0]) == Lower(p[0])
    ensures Assigns(p, h, [h[..k]] + rest)
  {
    var parts := [h[..k]] + rest;
    assert parts[1..] == rest && h == h[..k] + h[k..];
    assert Concat(parts) == h;
    hide Concat, Lower;
    assert parts[0..] == parts && parts[0] == h[..k];
    forall i | 0 <= i < |p| && p[i] == '*' ensures '.' !in parts[i] && Concat(parts[i..]) != "" {
      if i > 0 { assert p[i] == p[1..][i - 1] && parts[i] == rest[i - 1] && parts[i..] == rest[i - 1..]; }
    }
    forall i | 0 <= i < |p| && p[i] != '*' ensures |parts[i]| == 1 && Lower(parts[i][0]) == Lower(p[i]) {
      if i > 0 { assert p[i] == p[1..][i - 1] && parts[i] == rest[i - 1]; }
    }
  }

  lemma {:induction false} AssignedMatches(p: string, h: string, parts: seq<string>)
    requires Assigns(p, h, parts)
    ensures Match(p, h)
    decreases |p|
  {
    if p != "" {
      var (k, rest) := (|parts[0]|, parts[1..]);
      assert parts[0..] == parts;
      assert h == parts[0] + Concat(rest);
      assert h[..k] == parts[0] && h[k..] == Concat(rest);
      assert forall i :: 1 <= i < |p| ==> p[i] == p[1..][i - 1] && parts[i] == rest[i - 1];
      assert forall i :: 1 <= i < |p| ==> parts[i..] == rest[i - 1..];
      AssignedMatches(p[1..], h[k..], rest);
      if p[0] == '*' { RunTakes(p[1..], h, k); }
    }
  }

  /** The match is exactly the existence of an assignment. */
  lemma MatchIsAssignment(p: string, h: string)
    ensures Match(p, h) <==> exists parts: seq<string> :: Assigns(p, h, parts)
  {
    if Match(p, h) { var parts := MatchGives(p, h); }
    if parts: seq<string> :| Assigns(p, h, parts) { AssignedMatches(p, h, parts); }
  }

  function Dots(s: string): nat
  {
    if s == "" then 0 else Dots(s[1..]) + if s[0] == '.' then 1 else 0
  }

  lemma {:induction false} NoDots(s: string, k: nat)
    requires k <= |s| && '.' !in s[..k]
    ensures Dots(s[k..]) == Dots(s)
    decreases k
  {
    if k == 0 {
      assert s[0..] == s;
    } else {
      assert s[0] == s[..k][0];
      assert s[..k] == [s[0]] + s[1..][..k - 1] && s[1..][k - 1..] == s[k..];
      NoDots(s[1..], k - 1);
    }
  }

  /** A name matches only hosts with as many labels. */
  lemma {:induction false} SameLabels(p: string, h: string)
    requires Match(p, h)
    ensures Dots(p) == Dots(h)
    decreases |p|
  {
    if p != "" {
      if p[0] == '*' {
        var k := RunGives(p[1..], h);
        NoDots(h, k);
        SameLabels(p[1..], h[k..]);
      } else {
        SameLabels(p[1..], h[1..]);
      }
    }
  }

  /** The two pointers are offsets into the pattern and the host. */
  method MatchPattern(pattern: string, host: string) returns (found: bool)
    ensures found <==> exists parts: seq<string> :: Assigns(pattern, host, parts)
    ensures found == Match(pattern, host)
    decreases |pattern|
  {
    MatchIsAssignment(pattern, host);
    var (p, h) := (0, 0);
    while p < |pattern| && h < |host|
      invariant 0 <= p <= |pattern| && 0 <= h <= |host|
      invariant Match(pattern, host) == Match(pattern[p..], host[h..])
      decreases |pattern| - p
    {
      if pattern[p] == '*' {
        p := p + 1;
        while h < |host| && host[h] != '.'
          invariant 0 < p <= |pattern| && 0 <= h <= |host|
          invariant Match(pattern, host) == MatchRun(pattern[p..], host[h..])
        {
          var rest := MatchPattern(pattern[p..], host[h..]);
          if rest { return true; }
          assert host[h..][1..] == host[h + 1..];
          h := h + 1;
        }
      } else if Lower(pattern[p]) == Lower(host[h]) {
        assert pattern[p..][1..] == pattern[p + 1..] && host[h..][1..] == host[h + 1..];
        p, h := p + 1, h + 1;
      } else {
        return false;
      }
    }
    return p == |pattern| && h == |host|;
  }
}
