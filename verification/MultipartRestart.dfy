/** A first slice that does not hold the first boundary line is thrown away, and the body is not read back. */
module MultipartRestart {
  import opened Text
  import opened Wrappers
  import opened MultipartSpec
  import opened MultipartSlices
  import opened MultipartRoundTrip
  import opened MultipartExact

  predicate Suffix(z: string, s: string)
  {
    |z| <= |s| && z == s[|s| - |z|..]
  }

  lemma SuffixDrop(x: string, z: string, s: string)
    requires Suffix(x + z, s)
    ensures Suffix(z, s)
  {
    assert (x + z)[|x|..] == z;
  }

  lemma SuffixOfSuffix(z: string, a: string, s: string)
    requires Suffix(z, s) && Suffix(a, s) && |z| <= |a|
    ensures Suffix(z, a)
  {
  }

  /** What is printed from item `m` on, behind the boundary line. */
  function From(items: seq<Part>, boundary: string, m: nat): string
    requires m < |items|
  {
    AfterFirstBoundary(items[m..], boundary)
  }

  /** The number of bytes from the content of item `m` on. */
  function Left(items: seq<Part>, boundary: string, m: nat): (n: nat)
    requires m < |items|
    ensures n == |From(items, boundary, m)| - |HeaderBlock(items[m].info)|
    ensures n == |items[m].content| + |boundary| + 4 +
                 if m == |items| - 1 then 4 else 2 + |From(items, boundary, m + 1)|
  {
    FromIs(items, boundary, m);
    |From(items, boundary, m)| - |HeaderBlock(items[m].info)|
  }

  lemma FromIs(items: seq<Part>, boundary: string, m: nat)
    requires m < |items|
    ensures From(items, boundary, m)
         == HeaderBlock(items[m].info) + items[m].content + CrlfDashBoundary(boundary) +
            if m == |items| - 1 then DASH_CRLF else CRLF + From(items, boundary, m + 1)
  {
    hide HeaderBlock, CrlfDashBoundary;
    assert items[m..][0] == items[m];
    if m < |items| - 1 { assert items[m..][1..] == items[m + 1..]; }
  }

  lemma {:induction false} FromIsSuffix(items: seq<Part>, boundary: string, m: nat)
    requires m < |items|
    ensures Suffix(From(items, boundary, m), AfterFirstBoundary(items, boundary))
    decreases m
  {
    hide AfterFirstBoundary, HeaderBlock, CrlfDashBoundary;
    if m == 0 {
      assert items[0..] == items;
    } else {
      FromIsSuffix(items, boundary, m - 1);
      FromIs(items, boundary, m - 1);
      var x := HeaderBlock(items[m - 1].info) + items[m - 1].content + CrlfDashBoundary(boundary) + CRLF;
      assert From(items, boundary, m - 1) == x + From(items, boundary, m);
      SuffixDrop(x, From(items, boundary, m), AfterFirstBoundary(items, boundary));
    }
  }

  lemma DelimiterAt(x: string, d: string, o: nat)
    requires |d| >= 3 && d[0] == CR && d[1] == LF && d[2] == '-' && OccursAt(x, d, o)
    ensures o + 3 <= |x| && x[o] == CR && x[o + 2] == '-' && OccursAt(x, CRLF, o)
  {
    assert x[o..o + |d|][..2] == x[o..o + 2];
    assert x[o] == d[0] && x[o + 2] == d[2];
  }

  /** A delimiter behind the start of a single line lies behind its end, when the next line has no dash. */
  lemma DelimiterAfterLine(line: string, rest: string, d: string, o: nat)
    requires !Contains(line, CRLF) && rest != "" && rest[0] != '-'
    requires |d| >= 3 && d[0] == CR && d[1] == LF && d[2] == '-'
    requires OccursAt(line + CRLF + rest, d, o)
    ensures o >= |line| + 2 && OccursAt(rest, d, o - |line| - 2)
  {
    hide OccursAt;
    var x := line + CRLF + rest;
    DelimiterAt(x, d, o);
    FindAfter(line, CRLF, rest);
    assert o >= |line|;
    assert x[|line| + 1] == LF && x[|line| + 2] == rest[0];
    assert x[|line| + 2..] == rest;
    OccursDrop(x, d, |line| + 2, o - |line| - 2);
  }

  /** The bytes of a boundary line in place. */
  lemma BoundaryLineAt(x: string, mark: string, q: nat)
    requires |mark| >= 2 && mark[0] == '-' && CR !in mark && OccursAt(x, mark + CRLF, q)
    ensures q + |mark| + 2 <= |x| && OccursAt(x, CRLF, q + |mark|) && x[q] == '-'
    ensures forall j :: q <= j < q + |mark| ==> x[j] != CR
  {
    var w := mark + CRLF;
    assert x[q..q + |w|] == w;
    assert x[q + |mark|..q + |mark| + 2] == w[|mark|..] == CRLF;
    assert x[q] == w[0];
    forall j | q <= j < q + |mark| ensures x[j] != CR {
      assert x[j] == w[j - q] == mark[j - q];
      assert mark[j - q] in mark;
    }
  }

  /** A boundary line in printed lines is the end of the first of them or lies behind it. */
  lemma BoundaryLineAfterLine(line: string, rest: string, mark: string, q: nat)
    requires !Contains(line, CRLF) && |mark| >= 2 && mark[0] == '-' && CR !in mark
    requires OccursAt(line + CRLF + rest, mark + CRLF, q)
    ensures q + |mark| + 2 <= |line + CRLF + rest|
    ensures q + |mark| == |line| || (q >= |line| + 2 && OccursAt(rest, mark + CRLF, q - |line| - 2))
  {
    hide OccursAt;
    var x := line + CRLF + rest;
    BoundaryLineAt(x, mark, q);
    FindAfter(line, CRLF, rest);
    assert q + |mark| >= |line|;
    assert x[|line|] == CR && x[|line| + 1] == LF;
    if q + |mark| > |line| {
      assert x[|line| + 2..] == rest;
      OccursDrop(x, mark + CRLF, |line| + 2, q - |line| - 2);
    }
  }

  /** A delimiter in a printed item begins at the last line end of its header lines or later. */
  lemma DelimiterAfterHeader(info: Info, body: string, d: string, o: nat)
    requires SingleLines(info) && |d| >= 3 && d[0] == CR && d[1] == LF && d[2] == '-'
    requires OccursAt(HeaderBlock(info) + body, d, o)
    ensures o + 2 >= |HeaderBlock(info)|
  {
    hide Disposition.DispositionLine, OccursAt, Contains;
    var f := Disposition.Fields(info.name, info.filename);
    var line := Disposition.DispositionLine(f);
    Disposition.DispositionLineIsOneLine(f);
    NoFirstCharNoMatch(line, CRLF);
    var rest := TypeLine(info.contentType) + (CRLF + body);
    assert HeaderBlock(info) + body == line + CRLF + rest;
    DelimiterAfterLine(line, rest, d, o);
    if info.contentType != "" {
      ContentTypeIsOneLine(info.contentType);
      assert rest == ("Content-Type: " + info.contentType) + CRLF + (CRLF + body);
      DelimiterAfterLine("Content-Type: " + info.contentType, CRLF + body, d, o - |line| - 2);
    }
  }

  /** Only the last delimiter stands at the end of the last item, and one before it needs room in the content. */
  lemma DelimiterInLast(p: string, d: string, o: nat)
    requires |d| >= 4 && d[0] == CR && (forall k :: 0 < k < |d| ==> d[k] != CR)
    requires OccursAt(p + d + DASH_CRLF, d, o)
    ensures o == |p| || o + |d| <= |p|
  {
    var x := p + d + DASH_CRLF;
    assert x[o..o + |d|] == d;
    assert x[o] == CR;
    if o + |d| > |p| {
      forall k | o < k < o + |d| ensures x[k] != CR { assert x[k] == d[k - o]; }
      assert x[|p|] == CR;
      assert o <= |p|;
    }
  }

  /** Where a second boundary line can stand in what follows the first one: at the end of one of the two printed
      header lines of the first item, or behind its header lines. */
  lemma BoundaryLineInItem(info: Info, body: string, mark: string, q: nat)
    requires SingleLines(info) && |mark| >= 2 && mark[0] == mark[1] == '-' && CR !in mark
    requires OccursAt(HeaderBlock(info) + body, mark + CRLF, q)
    ensures var z := (HeaderBlock(info) + body)[q + |mark| + 2..];
            || (OccursAt(DispositionOf(info), mark, q) && z == TypeLine(info.contentType) + (CRLF + body))
            || (info.contentType != "" && z == CRLF + body)
            || (q >= |HeaderBlock(info)| && OccursAt(body, mark + CRLF, q - |HeaderBlock(info)|))
  {
    hide Disposition.DispositionLine, Contains, Find, OccursAt, DispositionOf, TypeLine;
    var f := Disposition.Fields(info.name, info.filename);
    var line := DispositionOf(info);
    var rest := TypeLine(info.contentType) + (CRLF + body);
    BlockIs(info, body);
    Disposition.DispositionLineIsOneLine(f);
    NoFirstCharNoMatch(line, CRLF);
    BoundaryLineAfterLine(line, rest, mark, q);
    if q + |mark| == |line| {
      LineEndsWith(line, rest, mark, q);
    } else {
      var n := |line| + 2;
      assert (line + CRLF + rest)[n..] == rest;
      BoundaryLineInType(info.contentType, body, mark, q - n);
      assert rest[q - n + |mark| + 2..] == (line + CRLF + rest)[q + |mark| + 2..];
    }
  }

  lemma BlockIs(info: Info, body: string)
    ensures HeaderBlock(info) + body == DispositionOf(info) + CRLF + (TypeLine(info.contentType) + (CRLF + body))
    ensures |HeaderBlock(info)| == |DispositionOf(info)| + |TypeLine(info.contentType)| + 4
    ensures DispositionOf(info) == Disposition.DispositionLine(Disposition.Fields(info.name, info.filename))
  {
    hide Disposition.DispositionLine;
  }

  lemma BoundaryLineInType(contentType: string, body: string, mark: string, q: nat)
    requires !Contains(contentType, CRLF) && |mark| >= 2 && mark[0] == '-' && CR !in mark
    requires OccursAt(TypeLine(contentType) + (CRLF + body), mark + CRLF, q)
    ensures var n := |TypeLine(contentType)| + 2;
            || (contentType != "" && (TypeLine(contentType) + (CRLF + body))[q + |mark| + 2..] == CRLF + body)
            || (q >= n && OccursAt(body, mark + CRLF, q - n))
  {
    hide Contains, Find, OccursAt;
    if contentType != "" {
      var second := "Content-Type: " + contentType;
      ContentTypeIsOneLine(contentType);
      assert TypeLine(contentType) + (CRLF + body) == second + CRLF + (CRLF + body);
      BoundaryLineAfterLine(second, CRLF + body, mark, q);
      if q + |mark| == |second| {
        LineEndsWith(second, CRLF + body, mark, q);
      } else {
        AfterBlankLine(body, mark, q - |second| - 2);
      }
    } else {
      assert TypeLine(contentType) + (CRLF + body) == CRLF + body;
      AfterBlankLine(body, mark, q);
    }
  }

  lemma LineEndsWith(line: string, rest: string, mark: string, q: nat)
    requires q + |mark| == |line| && OccursAt(line + CRLF + rest, mark + CRLF, q)
    ensures OccursAt(line, mark, q) && (line + CRLF + rest)[q + |mark| + 2..] == rest
  {
    var x := line + CRLF + rest;
    assert x[q..q + |mark| + 2][..|mark|] == line[q..q + |mark|];
  }

  lemma AfterBlankLine(body: string, mark: string, q: nat)
    requires |mark| >= 2 && mark[0] == '-' && CR !in mark
    requires OccursAt(CRLF + body, mark + CRLF, q)
    ensures q >= 2 && OccursAt(body, mark + CRLF, q - 2)
  {
    NoFirstCharNoMatch("", CRLF);
    assert "" + CRLF + body == CRLF + body;
    BoundaryLineAfterLine("", body, mark, q);
  }

  /** The line printed for no name has no two dashes in a row. */
  lemma NamelessHasNoMark(info: Info, mark: string, q: nat)
    requires |mark| >= 2 && mark[0] == mark[1] == '-' && info.name == "" && info.filename == ""
    ensures !OccursAt(DispositionOf(info), mark, q)
  {
    var line := DispositionOf(info);
    assert line == "Content-Disposition: form-data; name=\"\"";
    if q + |mark| <= |line| {
      Mismatch(line, mark, q, if line[q] == '-' then 1 else 0);
    }
  }

  /** The receiver has collected something that the printed items do not have, and that no later callback changes. */
  ghost predicate Different(s: State, items: seq<Part>)
  {
    var q := Replay(s.trace);
    exists k :: 0 <= k < |q| &&
      (k >= |items| || q[k].info != items[k].info || (k < Closed(s) && q[k] != items[k]))
  }

  lemma DifferentStays(s: State, t: State, items: seq<Part>)
    requires Different(s, items) && Keeps(s, t)
    ensures Different(t, items)
  {
    var q, r := Replay(s.trace), Replay(t.trace);
    var k :| 0 <= k < |q| && (k >= |items| || q[k].info != items[k].info || (k < Closed(s) && q[k] != items[k]));
    if k < Closed(s) { assert r[k] == r[..Closed(s)][k] == q[..Closed(s)][k]; }
    assert 0 <= k < |r| && (k >= |items| || r[k].info != items[k].info || (k < Closed(t) && r[k] != items[k]));
  }

  /** The input ends before all items. */
  ghost predicate Ending(s: State, z: string, items: seq<Part>)
  {
    |Replay(s.trace)| < |items| && (z == "" || (s.phase == Boundary && z == DASH_CRLF))
  }

  /** The header lines of the first part, already incomplete, lie ahead. */
  ghost predicate Headless(s: State, z: string, items: seq<Part>, accept: Receiver)
  {
    && items != [] && s.trace == Start && s.phase in {NewEntry, Headers}
    && var t := HeaderLines(AtHeaders(s, z), accept);
    t.Next? && Different(t.s, items)
  }

  function AtHeaders(s: State, z: string): State
  {
    s.(phase := Headers, file := if s.phase == NewEntry then NO_INFO else s.file, buf := z)
  }

  /** The last item leaves room for a delimiter across its start. */
  predicate Roomy(items: seq<Part>, boundary: string, m: nat)
    requires m < |items|
  {
    m == |items| - 1 ==> |items[m].content| >= |boundary| + 2
  }

  /** All parts so far are the printed items, but the bytes still to come, `z` of them, are too few for the rest. */
  ghost predicate Behind(s: State, z: nat, items: seq<Part>, boundary: string)
  {
    var q := Replay(s.trace);
    var d := |boundary| + 4;
    match s.phase
    case Preamble => false
    case Body =>
      && 0 < |q| <= |items|
      && var m := |q| - 1;
      && q[..m] == items[..m] && q[m].info == items[m].info
      && |q[m].content| + z + 2 + d <= Left(items, boundary, m) && Roomy(items, boundary, m)
      && (q[m].content != "" ==> z >= d)
    case Boundary => BehindAt(q, z - 2, items, boundary)
    case _ => BehindAt(q, z, items, boundary)
  }

  ghost predicate BehindAt(q: seq<Part>, z: int, items: seq<Part>, boundary: string)
  {
    && |q| < |items| && q == items[..|q|]
    && z + |boundary| + 4 <= Left(items, boundary, |q|) && Roomy(items, boundary, |q|)
  }

  /** Parsing has gone astray: with `z` still to come the items cannot come out any more. */
  ghost predicate Astray(s: State, z: string, items: seq<Part>, boundary: string, accept: Receiver)
  {
    && items != [] && Suffix(z, AfterFirstBoundary(items, boundary))
    && (Different(s, items) || Ending(s, z, items) || Headless(s, z, items, accept) || Behind(s, |z|, items, boundary))
  }

  /** The same parts, the same phase but for the one turn that only clears the header fields. */
  predicate SameSoFar(s: State, t: State)
  {
    && t.trace == s.trace && t.valid == s.valid
    && ((t.phase == s.phase && t.file == s.file) || (s.phase == NewEntry && t.phase == Headers && t.file == NO_INFO))
  }

  lemma SameDifferent(s: State, t: State, items: seq<Part>)
    requires SameSoFar(s, t) && Different(s, items)
    ensures Different(t, items)
  {
    DifferentStays(s, t, items);
  }

  lemma SameAstray(s: State, t: State, z: string, items: seq<Part>, boundary: string, accept: Receiver)
    requires SameSoFar(s, t) && Astray(s, z, items, boundary, accept)
    ensures Astray(t, z, items, boundary, accept)
  {
    hide AfterFirstBoundary, Suffix, Different, Headless, Behind, Replay;
    if Different(s, items) {
      SameDifferent(s, t, items);
    } else if Headless(s, z, items, accept) {
      SameHeadless(s, t, z, items, accept);
    } else if Behind(s, |z|, items, boundary) {
      SameBehind(s, t, |z|, items, boundary);
    }
  }

  lemma SameBehind(s: State, t: State, z: nat, items: seq<Part>, boundary: string)
    requires SameSoFar(s, t) && Behind(s, z, items, boundary)
    ensures Behind(t, z, items, boundary)
  {
    hide Left, Replay, Roomy;
  }

  lemma SameHeadless(s: State, t: State, z: string, items: seq<Part>, accept: Receiver)
    requires SameSoFar(s, t) && Headless(s, z, items, accept)
    ensures Headless(t, z, items, accept)
  {
    hide HeaderLines, Different;
    assert AtHeaders(s, z) == AtHeaders(t, z);
  }

  lemma AstrayIsDifferent(s: State, z: string, items: seq<Part>, boundary: string, accept: Receiver)
    requires Astray(s, z, items, boundary, accept)
    ensures Replay(s.trace) != items
  {
    hide AfterFirstBoundary, HeaderLines, Left;
    var q := Replay(s.trace);
    if Different(s, items) {
      var k :| 0 <= k < |q| && (k >= |items| || q[k].info != items[k].info || (k < Closed(s) && q[k] != items[k]));
    } else if Behind(s, |z|, items, boundary) && s.phase == Body {
      BehindBodyIsDifferent(s, |z|, items, boundary);
    }
  }

  lemma BehindBodyIsDifferent(s: State, z: nat, items: seq<Part>, boundary: string)
    requires s.phase == Body && Behind(s, z, items, boundary)
    ensures Replay(s.trace) != items
  {
    hide AfterFirstBoundary;
    var m := |Replay(s.trace)| - 1;
    var n := Left(items, boundary, m);
  }

  /** The header loop drops bytes from the front of the buffer and calls the receiver at its end. */
  lemma {:induction false} HeaderLinesDrop(s: State, accept: Receiver)
    requires AcceptsAll(accept)
    ensures var t := HeaderLines(s, accept);
            && Suffix(t.s.buf, s.buf)
            && (t.Next? ==> |t.s.buf| + 2 <= |s.buf| && t.s.trace == Then(s.trace, Header(t.s.file)))
            && (t.Stop? ==> t.s.trace == s.trace && t.s.phase == s.phase && t.outcome in {More, Malformed})
    decreases |s.buf|
  {
    hide Find, OccursAt, ReadHeader, HeaderLines;
    HeaderLinesEnd(s, accept);
    var pos := Find(s.buf, CRLF);
    if 0 < pos < |s.buf| {
      match ReadHeader(s.file, s.buf[..pos])
      case None =>
      case Some(file) =>
        HeaderLinesGoOn(s, accept);
        HeaderLinesDrop(AfterLine(s, pos, file), accept);
    }
  }

  lemma SuffixMore(a: string, b: string, f: string, s: string)
    requires Suffix(a, b) && Suffix(b + f, s)
    ensures Suffix(a + f, s)
  {
    var x := b[..|b| - |a|];
    assert b + f == x + (a + f);
    SuffixDrop(x, a + f, s);
  }

  lemma HeadersAstray(s: State, f: string, items: seq<Part>, boundary: string, accept: Receiver)
    requires AcceptsAll(accept) && s.phase == Headers && Astray(s, s.buf + f, items, boundary, accept) && s.buf != ""
    ensures var t := HeaderLines(s, accept);
            t.Next? || t.outcome == More ==> Astray(t.s, t.s.buf + f, items, boundary, accept)
  {
    hide AfterFirstBoundary, HeaderLines, Find, OccursAt, Left, Suffix, LinesShort;
    HeaderLinesDrop(s, accept);
    HeaderLinesKeep(s, accept);
    var t := HeaderLines(s, accept);
    SuffixMore(t.s.buf, s.buf, f, AfterFirstBoundary(items, boundary));
    if Different(s, items) {
      DifferentStays(s, t.s, items);
    } else if Headless(s, s.buf + f, items, accept) {
      HeaderLinesAppend(s, f, accept);
      assert Append(s, f) == AtHeaders(s, s.buf + f);
      if t.Next? { SameDifferent(Append(t.s, f), t.s, items); }
    } else {
      BehindHeaders(s, t, f, items, boundary);
    }
  }

  lemma BehindHeaders(s: State, t: Turn, f: string, items: seq<Part>, boundary: string)
    requires s.phase == Headers && Behind(s, |s.buf + f|, items, boundary) && Suffix(t.s.buf, s.buf)
    requires t.Next? ==> |t.s.buf| + 2 <= |s.buf| && t.s.trace == Then(s.trace, Header(t.s.file)) && t.s.phase == Body
    requires t.Stop? ==> t.s.trace == s.trace && t.s.phase == s.phase
    ensures Different(t.s, items) || Behind(t.s, |t.s.buf + f|, items, boundary)
  {
    hide AfterFirstBoundary, Left, Replay, Different, Roomy;
    if t.Next? {
      var m := |Replay(s.trace)|;
      HeaderOpens(s.trace, t.s.file);
      if t.s.file != items[m].info { InfoDifferent(t.s, items, m); }
    }
  }

  /** A new part, still without content. */
  lemma HeaderOpens(trace: Trace, info: Info)
    ensures var (q, r) := (Replay(trace), Replay(Then(trace, Header(info))));
            |r| == |q| + 1 && r[..|q|] == q && r[|q|] == Part(info, "")
  {
  }

  lemma InfoDifferent(s: State, items: seq<Part>, k: nat)
    requires k < |Replay(s.trace)| && k < |items| && Replay(s.trace)[k].info != items[k].info
    ensures Different(s, items)
  {
    hide Replay;
  }

  lemma DelimiterShape(boundary: string)
    requires CR !in boundary
    ensures var d := CrlfDashBoundary(boundary);
            && |d| == |boundary| + 4 && d[0] == CR && d[1] == LF && d[2] == '-'
            && forall k :: 0 < k < |d| ==> d[k] != CR
  {
    var d := CrlfDashBoundary(boundary);
    forall k | 4 <= k < |d| ensures d[k] != CR {
      assert d[k] == boundary[k - 4] && boundary[k - 4] in boundary;
    }
  }

  lemma SuffixOccurs(d: string, z: string, x: string)
    requires Suffix(d + z, x)
    ensures OccursAt(x, d, |x| - |z| - |d|)
  {
    var o := |x| - |z| - |d|;
    assert x[o..][..|d|] == (d + z)[..|d|] == d;
  }

  /** Reading on behind a delimiter, too far ahead in item `m` already, is too far ahead in the next one. */
  lemma NextIsBehind(items: seq<Part>, boundary: string, m: nat, z: string)
    requires CR !in boundary && AllSingle(items) && m < |items|
    requires var d := CrlfDashBoundary(boundary);
             && Suffix(d + z, AfterFirstBoundary(items, boundary))
             && |items[m].content| + |d| + |z| + 2 + |d| <= Left(items, boundary, m)
    ensures m + 1 < |items|
    ensures |z| + |boundary| + 2 <= Left(items, boundary, m + 1)
    ensures z == DASH_CRLF || Roomy(items, boundary, m + 1)
  {
    hide AfterFirstBoundary, HeaderBlock, From, AllSingle, CrlfDashBoundary, OccursAt;
    DelimiterShape(boundary);
    var d := CrlfDashBoundary(boundary);
    var left := Left(items, boundary, m);
    assert m + 1 < |items|;
    var a := From(items, boundary, m + 1);
    FromIsSuffix(items, boundary, m + 1);
    SuffixOfSuffix(d + z, a, AfterFirstBoundary(items, boundary));
    SuffixOccurs(d, z, a);
    DelimiterPlace(items, boundary, m + 1, |a| - |z| - |d|);
    if |z| == 4 && m + 2 == |items| {
      FromIs(items, boundary, m + 1);
      assert a[|a| - 4..] == DASH_CRLF;
    }
  }

  lemma DelimiterPlace(items: seq<Part>, boundary: string, m: nat, o: nat)
    requires CR !in boundary && AllSingle(items) && m < |items|
    requires OccursAt(From(items, boundary, m), CrlfDashBoundary(boundary), o)
    ensures o + 2 >= |HeaderBlock(items[m].info)|
    ensures m == |items| - 1 ==> |From(items, boundary, m)| == o + |boundary| + 8 || |items[m].content| >= |boundary| + 2
  {
    hide AfterFirstBoundary, HeaderBlock, From, SingleLines, CrlfDashBoundary, OccursAt;
    DelimiterShape(boundary);
    var d := CrlfDashBoundary(boundary);
    var (h, c) := (HeaderBlock(items[m].info), items[m].content);
    FromIs(items, boundary, m);
    var r := if m == |items| - 1 then DASH_CRLF else CRLF + From(items, boundary, m + 1);
    assert h + c + d + r == h + (c + d + r);
    DelimiterAfterHeader(items[m].info, c + d + r, d, o);
    if m == |items| - 1 { DelimiterInLast(h + c, d, o); }
  }

  lemma BodyAstray(s: State, f: string, items: seq<Part>, boundary: string, accept: Receiver)
    requires AcceptsAll(accept) && CR !in boundary && AllSingle(items)
    requires s.phase == Body && s.buf != "" && Astray(s, s.buf + f, items, boundary, accept)
    ensures var t := Step(boundary, s, accept);
            (t.Next? || t.outcome == More) && Astray(t.s, t.s.buf + f, items, boundary, accept)
  {
    hide AfterFirstBoundary, HeaderLines, Find, OccursAt, Left, Suffix, BodyTurn, Step, CrlfDashBoundary;
    var d := CrlfDashBoundary(boundary);
    var t := Step(boundary, s, accept);
    BodyStep(boundary, s, accept);
    BodyTurnCases(d, s, accept);
    DelimiterShape(boundary);
    StepKeeps(boundary, s, accept);
    BodyTurnDrops(d, s, f, AfterFirstBoundary(items, boundary), accept);
    if Different(s, items) {
      DifferentStays(s, t.s, items);
    } else if t.Stop? {
      BehindWaits(d, s, f, items, boundary, accept);
    } else {
      BehindCloses(d, s, f, items, boundary, accept);
    }
  }

  lemma BodyTurnDrops(d: string, s: State, f: string, x: string, accept: Receiver)
    requires d != "" && AcceptsAll(accept) && Suffix(s.buf + f, x)
    ensures var t := BodyTurn(d, s, accept);
            && Suffix(t.s.buf + f, x) && (t.Next? ==> Suffix(d + (t.s.buf + f), x))
  {
    hide Find, OccursAt, BodyTurn, Suffix;
    BodyTurnCases(d, s, accept);
    var t := BodyTurn(d, s, accept).s;
    assert s.buf == s.buf[..|s.buf| - |t.buf|] + t.buf;
    assert s.buf + f == s.buf[..|s.buf| - |t.buf|] + (t.buf + f);
    SuffixDrop(s.buf[..|s.buf| - |t.buf|], t.buf + f, x);
    if BodyTurn(d, s, accept).Next? {
      var pos := Find(s.buf, d);
      FindHit(s.buf, d);
      DropBeforeHit(s.buf, d, pos, f);
      SuffixDrop(s.buf[..pos], d + (t.buf + f), x);
    }
  }

  lemma DropBeforeHit(s: string, d: string, pos: nat, f: string)
    requires OccursAt(s, d, pos)
    ensures s + f == s[..pos] + (d + (s[pos + |d|..] + f))
  {
    assert s == s[..pos] + s[pos..pos + |d|] + s[pos + |d|..];
  }

  /** More content for the open part. */
  lemma ContentGrows(trace: Trace, data: string)
    requires Replay(trace) != []
    ensures var (q, r) := (Replay(trace), Replay(Then(trace, Content(data))));
            var m := |q| - 1;
            |r| == m + 1 && r[..m] == q[..m] && r[m] == Part(q[m].info, q[m].content + data)
  {
  }

  lemma BehindWaits(d: string, s: State, f: string, items: seq<Part>, boundary: string, accept: Receiver)
    requires d != "" && |d| == |boundary| + 4 && AcceptsAll(accept) && s.phase == Body
    requires Behind(s, |s.buf + f|, items, boundary) && BodyTurn(d, s, accept).Stop?
    ensures var t := BodyTurn(d, s, accept).s; Behind(t, |t.buf + f|, items, boundary)
  {
    hide Find, OccursAt, BodyTurn, Behind;
    BodyTurnCases(d, s, accept);
    var t := BodyTurn(d, s, accept).s;
    if t != s {
      BehindGrows(s, t, s.buf[..|s.buf| - |d|], f, items, boundary);
    }
  }

  lemma BehindGrows(s: State, t: State, data: string, f: string, items: seq<Part>, boundary: string)
    requires s.phase == t.phase == Body && t.trace == Then(s.trace, Content(data))
    requires |s.buf| == |data| + |t.buf| && |t.buf| == |boundary| + 4
    requires Behind(s, |s.buf + f|, items, boundary)
    ensures Behind(t, |t.buf + f|, items, boundary)
  {
    hide Left, Replay, Roomy;
    ContentGrows(s.trace, data);
  }

  lemma BehindCloses(d: string, s: State, f: string, items: seq<Part>, boundary: string, accept: Receiver)
    requires d == CrlfDashBoundary(boundary) && AcceptsAll(accept) && s.phase == Body
    requires CR !in boundary && AllSingle(items)
    requires Behind(s, |s.buf + f|, items, boundary) && BodyTurn(d, s, accept).Next?
    requires Suffix(d + (BodyTurn(d, s, accept).s.buf + f), AfterFirstBoundary(items, boundary))
    ensures var t := BodyTurn(d, s, accept).s;
            || Different(t, items) || Ending(t, t.buf + f, items)
            || Behind(t, |t.buf + f|, items, boundary)
  {
    hide Find, OccursAt, BodyTurn, Left, AfterFirstBoundary, Suffix, AllSingle, Replay, Roomy, Different;
    BodyTurnCases(d, s, accept);
    var t := BodyTurn(d, s, accept).s;
    var q, r := Replay(s.trace), Replay(t.trace);
    var m := |q| - 1;
    ContentGrows(s.trace, s.buf[..Find(s.buf, d)]);
    assert r[..m] == items[..m];
    ClosedIsBehind(t, f, items, boundary, m);
  }

  lemma ClosedIsBehind(t: State, f: string, items: seq<Part>, boundary: string, m: nat)
    requires CR !in boundary && AllSingle(items) && t.phase == Boundary && m < |items|
    requires var (d, z, r) := (CrlfDashBoundary(boundary), t.buf + f, Replay(t.trace));
             && |r| == m + 1 && r[..m] == items[..m]
             && Suffix(d + z, AfterFirstBoundary(items, boundary))
             && |r[m].content| + |d| + |z| + 2 + |d| <= Left(items, boundary, m)
    ensures Different(t, items) || Ending(t, t.buf + f, items) || Behind(t, |t.buf + f|, items, boundary)
  {
    hide Left, AfterFirstBoundary, Suffix, AllSingle, Replay, Roomy, Different;
    var r := Replay(t.trace);
    if r[m] == items[m] {
      NextIsBehind(items, boundary, m, t.buf + f);
      SnocSame(r, items, m);
    } else {
      ClosedDifferent(t, items, m);
    }
  }

  lemma SnocSame(q: seq<Part>, items: seq<Part>, m: nat)
    requires m < |items| && |q| == m + 1 && q[..m] == items[..m] && q[m] == items[m]
    ensures q == items[..m + 1]
  {
    assert q == q[..m] + [q[m]];
  }

  lemma ClosedDifferent(s: State, items: seq<Part>, k: nat)
    requires k < Closed(s) && k < |items| && Replay(s.trace)[k] != items[k]
    ensures Different(s, items)
  {
    hide Replay;
  }

  lemma BoundaryAstray(s: State, f: string, items: seq<Part>, boundary: string, accept: Receiver)
    requires AcceptsAll(accept) && s.phase == Boundary && s.buf != "" && Astray(s, s.buf + f, items, boundary, accept)
    ensures var t := Step(boundary, s, accept);
            (t.Next? || t.outcome == More) && Astray(t.s, t.s.buf + f, items, boundary, accept)
  {
    hide AfterFirstBoundary, HeaderLines, Left, Suffix;
    var t := Step(boundary, s, accept);
    assert s.buf + f == s.buf[..|s.buf| - |t.s.buf|] + (t.s.buf + f);
    SuffixDrop(s.buf[..|s.buf| - |t.s.buf|], t.s.buf + f, AfterFirstBoundary(items, boundary));
    if Different(s, items) {
      StepKeeps(boundary, s, accept);
      DifferentStays(s, t.s, items);
    } else if Ending(s, s.buf + f, items) {
      EndingStays(s, f, items);
    }
  }

  lemma EndingStays(s: State, f: string, items: seq<Part>)
    requires s.phase == Boundary && s.buf != "" && Ending(s, s.buf + f, items)
    ensures Ending(BoundaryTurn(s).s, BoundaryTurn(s).s.buf + f, items)
  {
    assert s.buf[0] == (s.buf + f)[0] == '-';
    Mismatch(s.buf, CRLF, 0, 0);
    if |s.buf| == 4 { assert s.buf + f == s.buf; }
  }

  /** No turn finds the way back. */
  lemma StepAstray(s: State, f: string, items: seq<Part>, boundary: string, accept: Receiver)
    requires AcceptsAll(accept) && CR !in boundary && AllSingle(items) && s.phase != Preamble
    requires s.buf != "" && Astray(s, s.buf + f, items, boundary, accept)
    ensures var t := Step(boundary, s, accept);
            if t.Next? || t.outcome == More then
              t.s.phase != Preamble && Astray(t.s, t.s.buf + f, items, boundary, accept)
            else
              t.s.trace == s.trace
  {
    hide HeaderLines, Astray, BodyTurn, Find;
    match s.phase
    case NewEntry => SameAstray(s, s.(phase := Headers, file := NO_INFO), s.buf + f, items, boundary, accept);
    case Headers =>
      HeadersAstray(s, f, items, boundary, accept);
      HeaderLinesDrop(s, accept);
    case Body =>
      BodyAstray(s, f, items, boundary, accept);
      BodyTurnCases(CrlfDashBoundary(boundary), s, accept);
    case Boundary => BoundaryAstray(s, f, items, boundary, accept);
  }

  lemma {:induction false} RunAstray(s: State, f: string, items: seq<Part>, boundary: string, accept: Receiver)
    requires AcceptsAll(accept) && CR !in boundary && AllSingle(items) && s.phase != Preamble
    requires Astray(s, s.buf + f, items, boundary, accept)
    ensures var p := Run(boundary, s, accept);
            && Replay(p.s.trace) != items
            && (p.outcome == More ==> p.s.phase != Preamble && Astray(p.s, p.s.buf + f, items, boundary, accept))
    decreases |s.buf|, if s.phase == NewEntry then 1 else 0
  {
    hide Step, Astray, Replay;
    AstrayIsDifferent(s, s.buf + f, items, boundary, accept);
    if s.buf != "" {
      StepAstray(s, f, items, boundary, accept);
      var t := Step(boundary, s, accept);
      if t.Next? {
        RunAstray(t.s, f, items, boundary, accept);
      } else if t.outcome == More {
        AstrayIsDifferent(t.s, t.s.buf + f, items, boundary, accept);
      }
    }
  }

  lemma {:induction false} SlicesAstray(s: State, slices: seq<string>, items: seq<Part>, boundary: string, accept: Receiver)
    requires AcceptsAll(accept) && CR !in boundary && AllSingle(items) && s.phase != Preamble
    requires Astray(s, s.buf + Concat(slices), items, boundary, accept)
    ensures Replay(ParseSlices(boundary, s, slices, accept).s.trace) != items
    decreases |slices|
  {
    hide Run, Astray, Replay;
    if slices == [] {
      AstrayIsDifferent(s, s.buf + "", items, boundary, accept);
    } else {
      var f := Concat(slices[1..]);
      var t := Append(s, slices[0]);
      assert s.buf + Concat(slices) == t.buf + f;
      SameAstray(s, t, t.buf + f, items, boundary, accept);
      RunAstray(t, f, items, boundary, accept);
      var p := Run(boundary, t, accept);
      if p.outcome == More { SlicesAstray(p.s, slices[1..], items, boundary, accept); }
    }
  }

  /** A boundary line in the last item needs room in its content or is the end of the body. */
  lemma BoundaryLineInLast(content: string, mark: string, o: nat)
    requires |mark| >= 2 && mark[0] == '-' && CR !in mark
    requires OccursAt(content + (CRLF + mark) + DASH_CRLF, mark + CRLF, o)
    ensures |content| >= |mark| || o + |mark| + 2 == |content + (CRLF + mark) + DASH_CRLF|
  {
    var x := content + (CRLF + mark) + DASH_CRLF;
    BoundaryLineAt(x, mark, o);
    assert x[|content|] == CR && x[|content| + 1] == LF;
    if |content| < o {
      var e := |content| + 2 + |mark|;
      assert x[e] == '-' && x[e + 1] == '-';
      assert x[o + |mark|..o + |mark| + 2][0] == CR;
    }
  }

  /** Reading from a second boundary line on is astray. */
  lemma RestartAstray(t: State, items: seq<Part>, boundary: string, q: nat, z: string, accept: Receiver)
    requires AcceptsAll(accept) && CR !in boundary && AllSingle(items) && items != []
    requires t.phase == NewEntry && t.trace == Start
    requires OccursAt(AfterFirstBoundary(items, boundary), DashBoundaryCrlf(boundary), q)
    requires z == AfterFirstBoundary(items, boundary)[q + |boundary| + 4..]
    ensures Astray(t, z, items, boundary, accept)
  {
    hide AfterFirstBoundary, HeaderBlock, HeaderLines, SingleLines, FirstBody, DispositionOf, TypeLine, Behind;
    hide Ending, Headless;
    var mark := "--" + boundary;
    var info := items[0].info;
    var body := FirstBody(items, boundary);
    BoundaryLineInItem(info, body, mark, q);
    if OccursAt(DispositionOf(info), mark, q) && z == TypeLine(info.contentType) + (CRLF + body) {
      HeadlessWithType(t, z, items, body, mark, q, accept);
    } else if info.contentType != "" && z == CRLF + body {
      HeadlessWithoutType(t, z, items, body, accept);
    } else {
      BehindFirst(t, items, boundary, q, z);
    }
  }

  /** What is printed from the content of the first item on. */
  function FirstBody(items: seq<Part>, boundary: string): (body: string)
    requires items != []
    ensures HeaderBlock(items[0].info) + body == AfterFirstBoundary(items, boundary)
    ensures |items| == 1 ==> body == items[0].content + (CRLF + ("--" + boundary)) + DASH_CRLF
  {
    var r := if |items| == 1 then DASH_CRLF else CRLF + AfterFirstBoundary(items[1..], boundary);
    Reassociate(HeaderBlock(items[0].info), items[0].content, CrlfDashBoundary(boundary), r);
    items[0].content + CrlfDashBoundary(boundary) + r
  }

  lemma Reassociate(h: string, c: string, d: string, r: string)
    ensures h + (c + d + r) == h + c + d + r
  {
  }

  lemma BehindFirst(t: State, items: seq<Part>, boundary: string, q: nat, z: string)
    requires CR !in boundary && items != [] && t.phase == NewEntry && t.trace == Start
    requires var (n, line) := (|HeaderBlock(items[0].info)|, "--" + boundary + CRLF);
             q >= n && OccursAt(FirstBody(items, boundary), line, q - n)
    requires q + |boundary| + 4 <= |AfterFirstBoundary(items, boundary)|
    requires z == AfterFirstBoundary(items, boundary)[q + |boundary| + 4..]
    ensures Ending(t, z, items) || Behind(t, |z|, items, boundary)
  {
    hide AfterFirstBoundary, OccursAt, HeaderBlock;
    var n := |HeaderBlock(items[0].info)|;
    assert items[0..] == items && items[..0] == [];
    assert |From(items, boundary, 0)| == n + |FirstBody(items, boundary)|;
    if |items| == 1 { BoundaryLineInLast(items[0].content, "--" + boundary, q - n); }
  }

  lemma HeadlessWithType(t: State, z: string, items: seq<Part>, body: string, mark: string, q: nat, accept: Receiver)
    requires AcceptsAll(accept) && items != [] && t.phase == NewEntry && t.trace == Start
    requires SingleLines(items[0].info) && z == TypeLine(items[0].info.contentType) + (CRLF + body)
    requires |mark| >= 2 && mark[0] == mark[1] == '-' && OccursAt(DispositionOf(items[0].info), mark, q)
    ensures Headless(t, z, items, accept)
  {
    hide HeaderLines, LinesShort, DispositionOf, OccursAt, Contains;
    var info := items[0].info;
    if info.name == "" && info.filename == "" { NamelessHasNoMark(info, mark, q); }
    ReadTypeLines(AtHeaders(t, z), info.contentType, body, accept);
    FirstInfoDifferent(HeaderLines(AtHeaders(t, z), accept).s, items);
  }

  lemma HeadlessWithoutType(t: State, z: string, items: seq<Part>, body: string, accept: Receiver)
    requires AcceptsAll(accept) && items != [] && t.phase == NewEntry && t.trace == Start
    requires items[0].info.contentType != "" && z == CRLF + body
    ensures Headless(t, z, items, accept)
  {
    hide HeaderLines, LinesShort;
    ReadBlankLine(AtHeaders(t, z), body, accept);
    FirstInfoDifferent(HeaderLines(AtHeaders(t, z), accept).s, items);
  }

  lemma FirstInfoDifferent(s: State, items: seq<Part>)
    requires items != [] && s.file != items[0].info && s.trace == Then(Start, Header(s.file))
    ensures Different(s, items)
  {
    assert Replay(s.trace) == [] + [Part(s.file, "")];
    assert Replay(s.trace)[0].info != items[0].info;
  }

  /** Before the first boundary line a slice that does not hold all of one is thrown away. */
  lemma DroppedSlice(boundary: string, slices: seq<string>, accept: Receiver)
    requires slices != [] && !Contains(slices[0], DashBoundaryCrlf(boundary))
    ensures ParseSlices(boundary, INITIAL, slices, accept) == ParseSlices(boundary, INITIAL, slices[1..], accept)
  {
    hide HeaderLines, BodyTurn, Find;
    var t := Append(INITIAL, slices[0]);
    assert t.buf == slices[0];
    assert t.buf[|t.buf|..] == "";
    assert INITIAL == t.(buf := "");
    assert Run(boundary, t, accept) == Parsed(INITIAL, More);
  }

  /** Once the beginning of the body is thrown away, the body is not read back. */
  lemma {:induction false} PreambleAstray(boundary: string, items: seq<Part>, dropped: string, slices: seq<string>,
                                          accept: Receiver)
    requires AcceptsAll(accept) && CR !in boundary && AllSingle(items) && items != []
    requires dropped != "" && dropped + Concat(slices) == FormData(items, boundary)
    ensures Replay(ParseSlices(boundary, INITIAL, slices, accept).s.trace) != items
    decreases |slices|
  {
    hide Run, AfterFirstBoundary, FormData, Find, AllSingle;
    if slices != [] {
      if !Contains(slices[0], DashBoundaryCrlf(boundary)) {
        DroppedSlice(boundary, slices, accept);
        assert dropped + slices[0] + Concat(slices[1..]) == dropped + Concat(slices);
        PreambleAstray(boundary, items, dropped + slices[0], slices[1..], accept);
      } else {
        RestartedSlice(boundary, items, dropped, slices, accept);
      }
    }
  }

  lemma RestartedSlice(boundary: string, items: seq<Part>, dropped: string, slices: seq<string>, accept: Receiver)
    requires AcceptsAll(accept) && CR !in boundary && AllSingle(items) && items != []
    requires dropped != "" && dropped + Concat(slices) == FormData(items, boundary)
    requires slices != [] && Contains(slices[0], DashBoundaryCrlf(boundary))
    ensures Replay(ParseSlices(boundary, INITIAL, slices, accept).s.trace) != items
  {
    hide Run, AfterFirstBoundary, FormData, Find, DashBoundaryCrlf, AllSingle, OccursAt, Replay, Astray;
    var line := DashBoundaryCrlf(boundary);
    var f := Concat(slices[1..]);
    var n := SecondLine(boundary, items, dropped, slices[0], f);
    var t := SkipToLine(boundary, slices[0], accept);
    RestartAstray(t, items, boundary, n, t.buf + f, accept);
    RunAstray(t, f, items, boundary, accept);
    var p := Run(boundary, t, accept);
    if p.outcome == More { SlicesAstray(p.s, slices[1..], items, boundary, accept); }
  }

  lemma SkipToLine(boundary: string, slice: string, accept: Receiver) returns (t: State)
    requires Contains(slice, DashBoundaryCrlf(boundary))
    ensures var n := Find(slice, DashBoundaryCrlf(boundary)) + |boundary| + 4;
            n <= |slice| && t == INITIAL.(phase := NewEntry, buf := slice[n..])
    ensures Parse(boundary, INITIAL, slice, accept) == Run(boundary, t, accept)
  {
    hide HeaderLines, BodyTurn, Find;
    var line := DashBoundaryCrlf(boundary);
    var s := Append(INITIAL, slice);
    assert s.buf == slice;
    var n := Find(slice, line);
    FindHit(slice, line);
    OccursDrop(slice, line, n, 0);
    assert slice[n..][|line|..] == slice[n + |line|..];
    t := INITIAL.(phase := NewEntry, buf := slice[n + |line|..]);
    assert Step(boundary, s, accept) == Next(t);
    RunAdvances(boundary, s, t, accept);
  }

  /** The first boundary line that comes after some bytes of the body were dropped is not its first one. */
  lemma SecondLine(boundary: string, items: seq<Part>, dropped: string, slice: string, f: string) returns (n: nat)
    requires CR !in boundary && items != [] && dropped != ""
    requires dropped + (slice + f) == FormData(items, boundary)
    requires Contains(slice, DashBoundaryCrlf(boundary))
    ensures var (a, line) := (AfterFirstBoundary(items, boundary), DashBoundaryCrlf(boundary));
            var pos := Find(slice, line);
            && OccursAt(a, line, n) && n + |boundary| + 4 <= |a| && pos + |boundary| + 4 <= |slice|
            && slice[pos + |boundary| + 4..] + f == a[n + |boundary| + 4..]
  {
    hide AfterFirstBoundary, FormData, Find;
    var mark := "--" + boundary;
    var line := mark + CRLF;
    var a := AfterFirstBoundary(items, boundary);
    assert DashBoundaryCrlf(boundary) == line;
    var pos := Find(slice, line);
    FindHit(slice, line);
    var x := dropped + (slice + f);
    OccursAppend(slice, f, line, pos);
    assert x[|dropped|..] == slice + f;
    OccursDrop(x, line, |dropped|, pos);
    FormDataSplit(items, boundary);
    assert x == mark + CRLF + a;
    NoFirstCharNoMatch(mark, CRLF);
    BoundaryLineAfterLine(mark, a, mark, |dropped| + pos);
    n := |dropped| + pos - |line|;
    assert slice[pos + |line|..] + f == x[|dropped| + pos + |line|..] == a[n + |line|..];
  }

  lemma PrintableIsSingle(items: seq<Part>, boundary: string)
    requires PrintableItems(items, boundary)
    ensures AllSingle(items)
  {
    forall k | 0 <= k < |items| ensures SingleLines(items[k].info) {
      assert items[k] in items;
      FaithfulIsSingle(items[k].info);
    }
  }

  /** A printed body is read back if and only if the first slice holds all of its first boundary line, whatever
      boundary lines come later. */
  lemma FirstSliceMustHoldBoundary(boundary: string, items: seq<Part>, slices: seq<string>, accept: Receiver)
    requires CR !in boundary && items != [] && PrintableItems(items, boundary) && AcceptsAll(accept)
    requires Concat(slices) == FormData(items, boundary)
    requires slices != [] && slices[0] != ""
    ensures Replay(ParseSlices(boundary, INITIAL, slices, accept).s.trace) == items
        <==> |slices[0]| >= |DashBoundaryCrlf(boundary)|
  {
    hide Run, FormData, ParseSlices, Faithful, SingleLines, Short;
    if |slices[0]| >= |DashBoundaryCrlf(boundary)| {
      RoundTrip(boundary, items, slices, accept);
    } else {
      PrintableIsSingle(items, boundary);
      DroppedSlice(boundary, slices, accept);
      PreambleAstray(boundary, items, slices[0], slices[1..], accept);
    }
  }
}
