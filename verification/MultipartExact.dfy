/** Exactly which printed bodies are read back. */
module MultipartExact {
  import opened Text
  import opened Wrappers
  import opened MultipartSpec
  import opened MultipartSlices
  import opened MultipartRoundTrip

  /** The parts whose content later callbacks cannot touch: all of them, or all but the open one. */
  function Closed(s: State): (n: nat)
    ensures n <= |Replay(s.trace)|
  {
    var n := |Replay(s.trace)|;
    if s.phase == Body && n > 0 then n - 1 else n
  }

  ghost predicate Keeps(s: State, t: State)
  {
    && Closed(s) <= Closed(t)
    && Replay(t.trace)[..Closed(s)] == Replay(s.trace)[..Closed(s)]
    && |Replay(s.trace)| <= |Replay(t.trace)|
    && forall k :: 0 <= k < |Replay(s.trace)| ==> Replay(t.trace)[k].info == Replay(s.trace)[k].info
  }

  lemma HeaderLinesKeep(s: State, accept: Receiver)
    requires AcceptsAll(accept) && s.phase == Headers
    ensures Keeps(s, HeaderLines(s, accept).s)
    decreases |s.buf|
  {
    hide Find, OccursAt, ReadHeader, HeaderLines;
    HeaderLinesEnd(s, accept);
    var pos := Find(s.buf, CRLF);
    if 0 < pos < |s.buf| {
      match ReadHeader(s.file, s.buf[..pos])
      case None =>
      case Some(file) =>
        HeaderLinesGoOn(s, accept);
        HeaderLinesKeep(AfterLine(s, pos, file), accept);
    }
  }

  lemma StepKeeps(boundary: string, s: State, accept: Receiver)
    requires AcceptsAll(accept) && s.buf != ""
    ensures Keeps(s, Step(boundary, s, accept).s)
  {
    hide Find, OccursAt, HeaderLines, BodyTurn;
    if s.phase == Headers { HeaderLinesKeep(s, accept); }
    BodyTurnCases(CrlfDashBoundary(boundary), s, accept);
  }

  lemma {:induction false} RunKeeps(boundary: string, s: State, accept: Receiver)
    requires AcceptsAll(accept)
    ensures Keeps(s, Run(boundary, s, accept).s)
    decreases |s.buf|, if s.phase == NewEntry then 1 else 0
  {
    hide Step, Replay;
    if s.buf != "" {
      StepKeeps(boundary, s, accept);
      var t := Step(boundary, s, accept);
      if t.Next? {
        RunKeeps(boundary, t.s, accept);
        var u := Run(boundary, t.s, accept).s;
        assert Replay(u.trace)[..Closed(s)] == Replay(u.trace)[..Closed(t.s)][..Closed(s)];
        assert Replay(t.s.trace)[..Closed(s)] == Replay(t.s.trace)[..Closed(t.s)][..Closed(s)];
      }
    }
  }

  /** A content that holds a delimiter is cut at the first one. */
  lemma ReadCutItem(boundary: string, s: State, item: Part, rest: string, accept: Receiver)
    requires AcceptsAll(accept) && Faithful(item.info) && |DispositionOf(item.info)| <= HEADER_MAX_LENGTH
    requires Contains(item.content, CrlfDashBoundary(boundary))
    requires s.phase == NewEntry && s.buf == HeaderBlock(item.info) + item.content + CrlfDashBoundary(boundary) + rest
    ensures var n := |Replay(s.trace)|;
            var parts := Replay(Run(boundary, s, accept).s.trace);
            n < |parts| && parts[n] != item
  {
    hide HeaderLines, HeaderBlock, ReadHeader, LinesShort, Find, OccursAt, CrlfDashBoundary, Faithful, DispositionOf;
    var d := CrlfDashBoundary(boundary);
    DelimiterNotEmpty(boundary);
    var body := item.content + (d + rest);
    assert s.buf == HeaderBlock(item.info) + body;
    FaithfulIsSingle(item.info);
    ReadInfoExact(item.info);
    var s2 := ReadToBody(boundary, s, item.info, body, accept);
    FindAppendHit(item.content, d + rest, d);
    BodyStep(boundary, s2, accept);
    BodyTurnCases(d, s2, accept);
    var s3 := Step(boundary, s2, accept).s;
    assert s3.trace == Then(s2.trace, Content(body[..Find(item.content, d)]));
    RunAdvances(boundary, s2, s3, accept);
    RunKeeps(boundary, s3, accept);
    var n := |Replay(s.trace)|;
    assert Replay(s2.trace) == Replay(s.trace) + [Part(item.info, "")];
    assert Replay(s3.trace)[n] == Part(item.info, "" + body[..Find(item.content, d)]);
    var parts := Replay(Run(boundary, s, accept).s.trace);
    assert parts[..Closed(s3)][n] == parts[n];
  }

  /** From the start of an entry through its printed header lines. */
  lemma ReadToBody(boundary: string, s: State, info: Info, body: string, accept: Receiver) returns (t: State)
    requires AcceptsAll(accept) && SingleLines(info) && |DispositionOf(info)| <= HEADER_MAX_LENGTH
    requires s.phase == NewEntry && s.buf == HeaderBlock(info) + body && s.buf != ""
    ensures t == s.(phase := Body, file := ReadInfo(info), buf := body, trace := Then(s.trace, Header(ReadInfo(info))))
    ensures Run(boundary, s, accept) == Run(boundary, t, accept)
  {
    hide HeaderLines, HeaderBlock, ReadHeader, ReadInfo, SingleLines, LinesShort, Find, OccursAt, DispositionOf;
    var s1 := s.(phase := Headers, file := NO_INFO);
    ReadHeaderBlock(s1, info, body, accept);
    ReadHeadersStep(boundary, s1, accept);
    t := s1.(phase := Body, file := ReadInfo(info), buf := body, trace := Then(s.trace, Header(ReadInfo(info))));
    RunAdvances(boundary, s, s1, accept);
    RunAdvances(boundary, s1, t, accept);
  }

  /** An item whose header lines are misread is delivered with other header fields. */
  lemma ReadMisreadItem(boundary: string, s: State, item: Part, rest: string, accept: Receiver)
    requires AcceptsAll(accept) && SingleLines(item.info) && !Faithful(item.info)
    requires |DispositionOf(item.info)| <= HEADER_MAX_LENGTH
    requires s.phase == NewEntry && s.buf == HeaderBlock(item.info) + item.content + CrlfDashBoundary(boundary) + rest
    ensures var n := |Replay(s.trace)|;
            var parts := Replay(Run(boundary, s, accept).s.trace);
            n < |parts| && parts[n] != item
  {
    hide HeaderLines, HeaderBlock, ReadHeader, ReadInfo, Faithful, SingleLines, LinesShort, Find, OccursAt;
    hide CrlfDashBoundary, DispositionOf;
    DelimiterNotEmpty(boundary);
    var body := item.content + (CrlfDashBoundary(boundary) + rest);
    assert s.buf == HeaderBlock(item.info) + body;
    var info := ReadInfo(item.info);
    ReadInfoExact(item.info);
    var s2 := ReadToBody(boundary, s, item.info, body, accept);
    RunKeeps(boundary, s2, accept);
    assert Replay(s2.trace) == Replay(s.trace) + [Part(info, "")];
    assert Replay(s2.trace)[|Replay(s.trace)|].info == info;
  }

  /** A first header line over the limit ends the parse. */
  lemma ReadTooLong(boundary: string, s: State, item: Part, rest: string, accept: Receiver)
    requires AcceptsAll(accept) && SingleLines(item.info) && |DispositionOf(item.info)| > HEADER_MAX_LENGTH
    requires s.phase == NewEntry && s.buf == HeaderBlock(item.info) + item.content + CrlfDashBoundary(boundary) + rest
    ensures Run(boundary, s, accept).s.trace == s.trace
  {
    hide HeaderLines, HeaderBlock, ReadHeader, ReadInfo, SingleLines, LinesShort, Find, OccursAt, CrlfDashBoundary;
    hide DispositionOf;
    DelimiterNotEmpty(boundary);
    var body := item.content + (CrlfDashBoundary(boundary) + rest);
    assert s.buf == HeaderBlock(item.info) + body;
    var s1 := s.(phase := Headers, file := NO_INFO);
    ReadHeaderBlock(s1, item.info, body, accept);
    RunAdvances(boundary, s, s1, accept);
    assert Step(boundary, s1, accept) == Stop(s1, TooLong);
  }

  lemma DelimiterNotEmpty(boundary: string)
    ensures CrlfDashBoundary(boundary) != ""
  {
  }

  /** The first item of a list does not come back. */
  lemma FirstItemLost(boundary: string, s: State, items: seq<Part>, accept: Receiver)
    requires CR !in boundary && items != [] && AcceptsAll(accept)
    requires SingleLines(items[0].info) && !Readable(items[0], boundary)
    requires s.phase == NewEntry && s.buf == AfterFirstBoundary(items, boundary)
    ensures Replay(Run(boundary, s, accept).s.trace) != Replay(s.trace) + items
  {
    hide HeaderBlock, Find, Run, Replay, Faithful, SingleLines, DispositionOf, CrlfDashBoundary;
    DelimiterNotEmpty(boundary);
    var rest := if |items| == 1 then DASH_CRLF else CRLF + AfterFirstBoundary(items[1..], boundary);
    var n := |Replay(s.trace)|;
    assert (Replay(s.trace) + items)[n] == items[0];
    if |DispositionOf(items[0].info)| > HEADER_MAX_LENGTH {
      ReadTooLong(boundary, s, items[0], rest, accept);
    } else if !Faithful(items[0].info) {
      ReadMisreadItem(boundary, s, items[0], rest, accept);
    } else {
      ReadCutItem(boundary, s, items[0], rest, accept);
    }
  }

  lemma FirstItemReplayed(trace: Trace, item: Part)
    ensures Replay(Then(Then(trace, Header(item.info)), Content(item.content))) == Replay(trace) + [item]
  {
    ReplayCallbacks(trace, [item]);
    assert Callbacks(trace, [item]) == Then(Then(trace, Header(item.info)), Content(item.content));
  }

  /** A list of single-line items reads back only if every item is readable. */
  lemma {:induction false} ReadItemsExact(boundary: string, s: State, items: seq<Part>, accept: Receiver)
    requires CR !in boundary && items != [] && AcceptsAll(accept)
    requires forall item :: item in items ==> SingleLines(item.info)
    requires !ReadableItems(items, boundary)
    requires s.phase == NewEntry && s.buf == AfterFirstBoundary(items, boundary)
    ensures Replay(Run(boundary, s, accept).s.trace) != Replay(s.trace) + items
    decreases |items|
  {
    hide Run, Replay, Readable, SingleLines, AfterFirstBoundary;
    assert items == [items[0]] + items[1..];
    if !Readable(items[0], boundary) {
      FirstItemLost(boundary, s, items, accept);
    } else {
      var u := ReadFirstItem(boundary, s, items, accept);
      FirstItemReplayed(s.trace, items[0]);
      ReadItemsExact(boundary, u, items[1..], accept);
      assert Replay(s.trace) + [items[0]] + items[1..] == Replay(s.trace) + items;
    }
  }

  /** The header fields read so far are free of line breaks. */
  predicate AllSingle(parts: seq<Part>)
  {
    forall k :: 0 <= k < |parts| ==> SingleLines(parts[k].info)
  }

  predicate Clean(s: State)
  {
    SingleLines(s.file) && AllSingle(Replay(s.trace))
  }

  lemma OccursInPart(s: string, a: nat, b: nat, pat: string, k: nat)
    requires a <= b <= |s|
    ensures OccursAt(s[a..b], pat, k) ==> OccursAt(s, pat, a + k)
  {
    if OccursAt(s[a..b], pat, k) {
      var part := s[a + k..a + k + |pat|];
      assert forall i :: 0 <= i < |pat| ==> s[a..b][k..k + |pat|][i] == part[i];
    }
  }

  lemma PartHolds(s: string, a: nat, b: nat, pat: string)
    requires a <= b <= |s| && pat != "" && !Contains(s, pat)
    ensures !Contains(s[a..b], pat)
  {
    var t := s[a..b];
    forall k | 0 <= k < |t| ensures !OccursAt(t, pat, k) {
      OccursInPart(s, a, b, pat, k);
    }
    FindUnique(t, pat, |t|);
  }

  lemma {:induction false} TrimIsPart(s: string) returns (a: nat, b: nat)
    ensures a <= b <= |s| && Trim(s) == s[a..b]
  {
    a := TrimLeftIsPart(s);
    var n := TrimRightIsPart(s[a..]);
    b := a + n;
    assert s[a..][..n] == s[a..b];
  }

  lemma {:induction false} TrimLeftIsPart(s: string) returns (a: nat)
    ensures a <= |s| && TrimLeft(s) == s[a..]
    decreases |s|
  {
    a := 0;
    if s != "" && IsBlank(s[0]) {
      a := TrimLeftIsPart(s[1..]);
      assert s[1..][a..] == s[a + 1..];
      a := a + 1;
    } else {
      assert s[0..] == s;
    }
  }

  lemma {:induction false} TrimRightIsPart(s: string) returns (n: nat)
    ensures n <= |s| && TrimRight(s) == s[..n]
    decreases |s|
  {
    n := |s|;
    if s != "" && IsBlank(s[|s| - 1]) {
      n := TrimRightIsPart(s[..|s| - 1]);
      assert s[..|s| - 1][..n] == s[..n];
    } else {
      assert s[..n] == s;
    }
  }

  /** A single line gives single-line header fields. */
  lemma ReadHeaderClean(file: Info, line: string)
    requires SingleLines(file) && !Contains(line, CRLF)
    ensures ReadHeader(file, line).Some? ==> SingleLines(ReadHeader(file, line).value)
  {
    hide Disposition.MatchDisposition, Find, OccursAt, Trim;
    if StartsWithIgnoringCase(line, "content-type:") {
      var a, b := TrimIsPart(line[13..]);
      PartHolds(line, 13, |line|, CRLF);
      assert line[13..] == line[13..|line|];
      PartHolds(line[13..], a, b, CRLF);
    } else {
      Disposition.MatchIsOneLine(line);
    }
  }

  lemma {:induction false} HeaderLinesClean(s: State, accept: Receiver)
    requires Clean(s) && AcceptsAll(accept)
    ensures Clean(HeaderLines(s, accept).s)
    decreases |s.buf|
  {
    hide Find, OccursAt, ReadHeader, HeaderLines, SingleLines;
    HeaderLinesEnd(s, accept);
    var pos := Find(s.buf, CRLF);
    if 0 < pos < |s.buf| {
      LineIsSingle(s.buf);
      ReadHeaderClean(s.file, s.buf[..pos]);
      match ReadHeader(s.file, s.buf[..pos])
      case None =>
      case Some(file) =>
        HeaderLinesGoOn(s, accept);
        HeaderLinesClean(AfterLine(s, pos, file), accept);
    }
  }

  lemma LineIsSingle(buf: string)
    ensures !Contains(buf[..Find(buf, CRLF)], CRLF)
  {
    var line := buf[..Find(buf, CRLF)];
    forall k | 0 <= k < |line| ensures !OccursAt(line, CRLF, k) {
      if k + 2 <= |line| { assert line[k..k + 2] == buf[k..k + 2]; }
      assert !OccursAt(buf, CRLF, k);
    }
    FindUnique(line, CRLF, |line|);
  }

  lemma StepClean(boundary: string, s: State, accept: Receiver)
    requires Clean(s) && AcceptsAll(accept) && s.buf != ""
    ensures Clean(Step(boundary, s, accept).s)
  {
    hide Find, OccursAt, HeaderLines, BodyTurn, SingleLines;
    if s.phase == Headers { HeaderLinesClean(s, accept); }
    BodyTurnCases(CrlfDashBoundary(boundary), s, accept);
    NoInfoIsSingle();
  }

  lemma NoInfoIsSingle()
    ensures SingleLines(NO_INFO)
  {
  }

  /** No delivered part has a line break in its header fields. */
  lemma {:induction false} RunClean(boundary: string, s: State, accept: Receiver)
    requires Clean(s) && AcceptsAll(accept)
    ensures Clean(Run(boundary, s, accept).s)
    decreases |s.buf|, if s.phase == NewEntry then 1 else 0
  {
    hide Step, Clean;
    if s.buf != "" {
      StepClean(boundary, s, accept);
      var t := Step(boundary, s, accept);
      if t.Next? { RunClean(boundary, t.s, accept); }
    }
  }

  /** A printed body that comes at once is read back if and only if, for every item, the quotes that the printer put
      around name and file name can be told from those in them, the disposition line is within the limit, the content
      type is trimmed and a single line, and the content is free of the delimiter. */
  lemma PrintedReadsBackExactly(boundary: string, items: seq<Part>, accept: Receiver)
    requires CR !in boundary && items != [] && AcceptsAll(accept)
    ensures Replay(Parse(boundary, INITIAL, FormData(items, boundary), accept).s.trace) == items
        <==> forall item :: item in items ==>
               && Disposition.Unambiguous(Disposition.Fields(item.info.name, item.info.filename))
               && |Disposition.DispositionLine(Disposition.Fields(item.info.name, item.info.filename))| <= HEADER_MAX_LENGTH
               && Trimmed(item.info.contentType) && !Contains(item.info.contentType, CRLF)
               && !Contains(item.content, CrlfDashBoundary(boundary))
  {
    hide Run, AfterFirstBoundary, FormData, Disposition.Unambiguous, Disposition.DispositionLine, Find, SingleLines;
    hide Trimmed, CrlfDashBoundary, Replay;
    DelimiterNotEmpty(boundary);
    assert ReadableItems(items, boundary) <==> forall item :: item in items ==>
             && Disposition.Unambiguous(Disposition.Fields(item.info.name, item.info.filename))
             && |Disposition.DispositionLine(Disposition.Fields(item.info.name, item.info.filename))| <= HEADER_MAX_LENGTH
             && Trimmed(item.info.contentType) && !Contains(item.info.contentType, CRLF)
             && !Contains(item.content, CrlfDashBoundary(boundary));
    if ReadableItems(items, boundary) {
      ParsePrinted(boundary, items, accept);
    } else {
      NotReadBack(boundary, items, accept);
    }
  }

  lemma NotReadBack(boundary: string, items: seq<Part>, accept: Receiver)
    requires CR !in boundary && items != [] && AcceptsAll(accept) && !ReadableItems(items, boundary)
    ensures Replay(Parse(boundary, INITIAL, FormData(items, boundary), accept).s.trace) != items
  {
    hide Run, AfterFirstBoundary, FormData, SingleLines, Readable;
    var t := State(NewEntry, false, NO_INFO, AfterFirstBoundary(items, boundary), Start);
    ReadFirstBoundary(boundary, items, accept);
    if forall item :: item in items ==> SingleLines(item.info) {
      ReadItemsExact(boundary, t, items, accept);
      assert [] + items == items;
    } else {
      var item :| item in items && !SingleLines(item.info);
      NoInfoIsSingle();
      RunClean(boundary, t, accept);
    }
  }

  lemma ReadFirstBoundary(boundary: string, items: seq<Part>, accept: Receiver)
    requires items != []
    ensures Parse(boundary, INITIAL, FormData(items, boundary), accept)
         == Run(boundary, State(NewEntry, false, NO_INFO, AfterFirstBoundary(items, boundary), Start), accept)
  {
    hide HeaderLines, BodyTurn, HeaderBlock, AfterFirstBoundary, FormData;
    var line := DashBoundaryCrlf(boundary);
    var data := FormData(items, boundary);
    FormDataSplit(items, boundary);
    var rest := AfterFirstBoundary(items, boundary);
    var s := Append(INITIAL, data);
    assert s.buf == data && data[0..|line|] == line && data[|line|..] == rest;
    FindUnique(data, line, 0);
    assert data[0..] == data;
    assert Step(boundary, s, accept) == Next(s.(phase := NewEntry, buf := rest));
    RunAdvances(boundary, s, s.(phase := NewEntry, buf := rest), accept);
  }
}
