/** The printers of multipart/form-data bodies, and what the parser makes of their output. */
module MultipartRoundTrip {
  import opened Text
  import opened Wrappers
  import opened MultipartSpec
  import opened MultipartSlices
  import Disposition

  function DispositionOf(info: Info): string
  {
    Disposition.DispositionLine(Disposition.Fields(info.name, info.filename))
  }

  /** The optional second header line. */
  function TypeLine(contentType: string): string
  {
    if contentType == "" then "" else "Content-Type: " + contentType + CRLF
  }

  /** The lines between the boundary line and the content of a part. */
  function HeaderBlock(info: Info): string
  {
    DispositionOf(info) + CRLF + TypeLine(info.contentType) + CRLF
  }

  function ItemBegin(info: Info, boundary: string): string
  {
    DashBoundaryCrlf(boundary) + HeaderBlock(info)
  }

  function Item(item: Part, boundary: string): string
  {
    ItemBegin(item.info, boundary) + item.content + CRLF
  }

  function Items(items: seq<Part>, boundary: string): string
  {
    if items == [] then "" else Item(items[0], boundary) + Items(items[1..], boundary)
  }

  function Finish(boundary: string): string
  {
    "--" + boundary + "--" + CRLF
  }

  /** The body printed for a list of items. */
  function FormData(items: seq<Part>, boundary: string): string
  {
    Items(items, boundary) + Finish(boundary)
  }

  lemma {:induction false} ItemsAppend(a: seq<Part>, b: seq<Part>, boundary: string)
    ensures Items(a + b, boundary) == Items(a, boundary) + Items(b, boundary)
    decreases |a|
  {
    if a == [] {
      assert a + b == b;
    } else {
      assert (a + b)[1..] == a[1..] + b;
      ItemsAppend(a[1..], b, boundary);
    }
  }

  lemma ItemsSnoc(items: seq<Part>, i: nat, boundary: string)
    requires i < |items|
    ensures Items(items[..i + 1], boundary) == Items(items[..i], boundary) + Item(items[i], boundary)
  {
    assert items[..i + 1] == items[..i] + [items[i]];
    ItemsAppend(items[..i], [items[i]], boundary);
    SingleItem(items[i], boundary);
  }

  lemma SingleItem(item: Part, boundary: string)
    ensures Items([item], boundary) == Item(item, boundary)
  {
    assert Items([item], boundary) == Item(item, boundary) + Items([], boundary);
  }

  /** serialize_multipart_formdata */
  method SerializeFormData(items: seq<Part>, boundary: string, finish: bool) returns (body: string)
    ensures body == Items(items, boundary) + if finish then Finish(boundary) else ""
  {
    hide ItemBegin;
    body := "";
    var i := 0;
    while i < |items|
      invariant 0 <= i <= |items|
      invariant body == Items(items[..i], boundary)
    {
      ItemsSnoc(items, i, boundary);
      body := body + ItemBegin(items[i].info, boundary);
      body := body + items[i].content + CRLF;
      i := i + 1;
    }
    assert items[..i] == items;
    if finish { body := body + Finish(boundary); }
  }

  /** The printed header lines are single lines. */
  predicate SingleLines(info: Info)
  {
    Disposition.OneLine(info.name) && Disposition.OneLine(info.filename) && !Contains(info.contentType, CRLF)
  }

  /** The header fields are those read from their lines; the printer escapes nothing. */
  predicate Faithful(info: Info)
  {
    && Disposition.Unambiguous(Disposition.Fields(info.name, info.filename))
    && Trimmed(info.contentType) && !Contains(info.contentType, CRLF)
  }

  predicate Short(info: Info)
  {
    |DispositionOf(info)| < HEADER_MAX_LENGTH && |"Content-Type: " + info.contentType| < HEADER_MAX_LENGTH
  }

  /** What the header lines of a part must satisfy to be read back from any slices. */
  predicate Printable(info: Info)
  {
    Faithful(info) && Short(info)
  }

  /** What is read from the printed header lines. */
  function ReadInfo(info: Info): Info
  {
    match Disposition.MatchDisposition(DispositionOf(info))
    case Some(f) => Info(f.name, f.filename, Trim(info.contentType))
    case None => NO_INFO
  }

  lemma ReadInfoExact(info: Info)
    requires SingleLines(info)
    ensures ReadInfo(info) == info <==> Faithful(info)
  {
    hide Disposition.MatchDisposition, Disposition.DispositionLine, Disposition.Unambiguous, Contains;
    var f := Disposition.Fields(info.name, info.filename);
    Disposition.SomethingIsRead(f);
    Disposition.ReadsBackExactly(f);
    TrimExact(info.contentType);
  }

  lemma TrimExact(s: string)
    ensures Trim(s) == s <==> Trimmed(s)
  {
    if Trimmed(s) { TrimOfTrimmed(s); }
  }

  /** What an item must satisfy to be read back from a body that comes at once. */
  predicate Readable(item: Part, boundary: string)
  {
    && Faithful(item.info) && |DispositionOf(item.info)| <= HEADER_MAX_LENGTH
    && !Contains(item.content, CrlfDashBoundary(boundary))
  }

  predicate PrintableItem(item: Part, boundary: string)
  {
    Printable(item.info) && !Contains(item.content, CrlfDashBoundary(boundary))
  }

  /** is_multipart_boundary_chars_valid */
  predicate BoundaryCharsValid(boundary: string)
  {
    forall c :: c in boundary ==> 'a' <= c <= 'z' || 'A' <= c <= 'Z' || '0' <= c <= '9' || c == '-' || c == '_'
  }

  lemma ReadDisposition(file: Info, f: Disposition.Fields)
    requires Disposition.OneLine(f.name) && Disposition.OneLine(f.filename)
    ensures var line := Disposition.DispositionLine(f);
            var g := Disposition.MatchDisposition(line);
            g.Some? && ReadHeader(file, line) == Some(file.(name := g.value.name, filename := g.value.filename))
  {
    hide Disposition.MatchDisposition;
    Disposition.SomethingIsRead(f);
    var line := Disposition.DispositionLine(f);
    assert line[8] == "Content-Disposition: form-data; name=\""[8] == 'D';
    assert "content-type:"[8] == 't';
    assert line[..13][8] == 'D';
  }

  lemma ReadContentType(file: Info, contentType: string)
    ensures ReadHeader(file, "Content-Type: " + contentType) == Some(file.(contentType := Trim(contentType)))
  {
    hide Disposition.MatchDisposition;
    var line := "Content-Type: " + contentType;
    assert line[..13] == "Content-Type:";
    assert line[13..] == " " + contentType;
    assert (" " + contentType)[1..] == contentType;
  }

  /** One printed header line goes through the header loop. */
  lemma ReadLine(s: State, line: string, rest: string, file: Info, accept: Receiver)
    requires line != "" && !Contains(line, CRLF)
    requires s.buf == line + CRLF + rest && ReadHeader(s.file, line) == Some(file)
    ensures var t := s.(file := file, buf := rest);
            && HeaderLines(s, accept) == HeaderLines(t, accept)
            && Find(s.buf, CRLF) == |line|
            && (|line| < HEADER_MAX_LENGTH && LinesShort(t) ==> LinesShort(s))
  {
    hide ReadHeader;
    FindAfter(line, CRLF, rest);
    assert s.buf[..|line|] == line && s.buf[|line| + 2..] == rest;
  }

  lemma ReadBlankLine(s: State, rest: string, accept: Receiver)
    requires s.buf == CRLF + rest && AcceptsAll(accept)
    ensures HeaderLines(s, accept) == Next(s.(phase := Body, buf := rest, trace := Then(s.trace, Header(s.file))))
    ensures LinesShort(s)
  {
    hide ReadHeader;
    assert "" + CRLF + rest == s.buf;
    FindAfter("", CRLF, rest);
  }

  lemma ReadHeaderBlock(s: State, info: Info, rest: string, accept: Receiver)
    requires SingleLines(info) && AcceptsAll(accept) && s.file == NO_INFO
    requires s.buf == HeaderBlock(info) + rest
    ensures HeaderLines(s, accept)
         == Next(s.(phase := Body, file := ReadInfo(info), buf := rest, trace := Then(s.trace, Header(ReadInfo(info)))))
    ensures Find(s.buf, CRLF) == |DispositionOf(info)|
    ensures Short(info) ==> LinesShort(s)
  {
    hide ReadHeader, HeaderLines, LinesShort, Find, OccursAt, Disposition.DispositionLine, Disposition.MatchDisposition;
    var f := Disposition.Fields(info.name, info.filename);
    var line := Disposition.DispositionLine(f);
    var rest1 := TypeLine(info.contentType) + (CRLF + rest);
    assert s.buf == line + CRLF + rest1;
    PrintedLineStarts(f);
    Disposition.DispositionLineIsOneLine(f);
    NoFirstCharNoMatch(line, CRLF);
    ReadDisposition(s.file, f);
    var file1 := ReadInfo(info).(contentType := "");
    ReadLine(s, line, rest1, file1, accept);
    ReadTypeLines(s.(file := file1, buf := rest1), info.contentType, rest, accept);
  }

  lemma PrintedLineStarts(f: Disposition.Fields)
    ensures Disposition.DispositionLine(f) != ""
  {
  }

  lemma ReadTypeLines(s: State, contentType: string, rest: string, accept: Receiver)
    requires !Contains(contentType, CRLF)
    requires AcceptsAll(accept) && s.file.contentType == ""
    requires s.buf == TypeLine(contentType) + (CRLF + rest)
    ensures var info := s.file.(contentType := Trim(contentType));
            HeaderLines(s, accept)
            == Next(s.(phase := Body, file := info, buf := rest, trace := Then(s.trace, Header(info))))
    ensures |"Content-Type: " + contentType| < HEADER_MAX_LENGTH ==> LinesShort(s)
  {
    hide ReadHeader, HeaderLines, LinesShort, Find, OccursAt;
    if contentType == "" {
      assert s.buf == CRLF + rest;
      ReadBlankLine(s, rest, accept);
    } else {
      var info := s.file.(contentType := Trim(contentType));
      ContentTypeIsOneLine(contentType);
      ReadContentType(s.file, contentType);
      ReadLine(s, "Content-Type: " + contentType, CRLF + rest, info, accept);
      ReadBlankLine(s.(file := info, buf := CRLF + rest), rest, accept);
    }
  }

  lemma ContentTypeIsOneLine(contentType: string)
    requires !Contains(contentType, CRLF)
    ensures !Contains("Content-Type: " + contentType, CRLF)
  {
    var p := "Content-Type: ";
    forall k | 0 <= k < |p + contentType| ensures !OccursAt(p + contentType, CRLF, k) {
      if k < |p| {
        Mismatch(p + contentType, CRLF, k, 0);
      } else {
        OccursDrop(p + contentType, CRLF, |p|, k - |p|);
        assert (p + contentType)[|p|..] == contentType;
      }
    }
    FindUnique(p + contentType, CRLF, |p + contentType|);
  }

  /** From the start of an entry the parser reads one printed item up to and including the delimiter after it. */
  lemma ReadItem(boundary: string, s: State, item: Part, rest: string, accept: Receiver)
    requires CR !in boundary && Readable(item, boundary) && AcceptsAll(accept)
    requires s.phase == NewEntry && rest != ""
    requires s.buf == HeaderBlock(item.info) + item.content + CrlfDashBoundary(boundary) + rest
    ensures var t := s.(phase := Boundary, file := item.info, buf := rest,
                        trace := Then(Then(s.trace, Header(item.info)), Content(item.content)));
            && Run(boundary, s, accept) == Run(boundary, t, accept)
            && (Short(item.info) && Tame(boundary, t, accept) ==> Tame(boundary, s, accept))
  {
    hide HeaderLines, HeaderBlock, ReadHeader, LinesShort, Find, OccursAt, Faithful, DispositionOf, Short;
    var d := CrlfDashBoundary(boundary);
    var body := item.content + d + rest;
    assert s.buf == HeaderBlock(item.info) + body;
    var s1 := s.(phase := Headers, file := NO_INFO);
    FaithfulIsSingle(item.info);
    ReadInfoExact(item.info);
    ReadHeaderBlock(s1, item.info, body, accept);
    ReadHeadersStep(boundary, s1, accept);
    var s2 := s1.(phase := Body, file := item.info, buf := body, trace := Then(s.trace, Header(item.info)));
    ReadBody(boundary, s2, item.content, rest, accept);
    var s3 := s2.(phase := Boundary, buf := rest, trace := Then(s2.trace, Content(item.content)));
    RunAdvances(boundary, s, s1, accept);
    RunAdvances(boundary, s1, s2, accept);
    RunAdvances(boundary, s2, s3, accept);
    if Short(item.info) && Tame(boundary, s3, accept) {
      TameAdvances(boundary, s2, s3, accept);
      TameAdvances(boundary, s1, s2, accept);
      TameAdvances(boundary, s, s1, accept);
    }
  }

  lemma FaithfulIsSingle(info: Info)
    requires Faithful(info)
    ensures SingleLines(info)
  {
  }

  lemma RunAdvances(boundary: string, s: State, t: State, accept: Receiver)
    requires s.buf != "" && Step(boundary, s, accept) == Next(t)
    ensures Run(boundary, s, accept) == Run(boundary, t, accept)
  {
    hide Step;
  }

  lemma TameAdvances(boundary: string, s: State, t: State, accept: Receiver)
    requires s.buf != "" && Step(boundary, s, accept) == Next(t)
    requires s.phase == Headers ==> LinesShort(s)
    requires s.phase != Boundary && Tame(boundary, t, accept)
    ensures Tame(boundary, s, accept)
  {
    hide Step, LinesShort;
  }

  lemma ReadHeadersStep(boundary: string, s: State, accept: Receiver)
    requires s.phase == Headers && Find(s.buf, CRLF) <= HEADER_MAX_LENGTH && s.buf != ""
    ensures Step(boundary, s, accept) == HeaderLines(s, accept)
  {
    hide ReadHeader, HeaderLines;
  }

  lemma ReadBody(boundary: string, s: State, content: string, rest: string, accept: Receiver)
    requires CR !in boundary && !Contains(content, CrlfDashBoundary(boundary)) && AcceptsAll(accept)
    requires s.phase == Body && s.buf == content + CrlfDashBoundary(boundary) + rest
    ensures s.buf != ""
    ensures Step(boundary, s, accept)
         == Next(s.(phase := Boundary, buf := rest, trace := Then(s.trace, Content(content))))
  {
    var d := CrlfDashBoundary(boundary);
    assert forall k :: 0 < k < |d| ==> d[k] != d[0];
    FindAfter(content, d, rest);
    assert s.buf[..|content|] == content && s.buf[|content| + |d|..] == rest;
  }

  /** What follows the first boundary line in the printed body of a non-empty list. */
  function AfterFirstBoundary(items: seq<Part>, boundary: string): string
    requires items != []
    decreases |items|
  {
    HeaderBlock(items[0].info) + items[0].content + CrlfDashBoundary(boundary) +
    if |items| == 1 then DASH_CRLF else CRLF + AfterFirstBoundary(items[1..], boundary)
  }

  lemma DelimitersMeet(boundary: string)
    ensures CRLF + Finish(boundary) == CrlfDashBoundary(boundary) + DASH_CRLF
    ensures CRLF + DashBoundaryCrlf(boundary) == CrlfDashBoundary(boundary) + CRLF
  {
  }

  lemma Regroup(line: string, block: string, content: string, crlf: string, d: string, rest: string)
    requires crlf + line == d + crlf
    ensures line + block + content + crlf + (line + rest) == line + (block + content + d + (crlf + rest))
  {
    var x, y := line + block + content, line + (block + content);
    calc {
      x + crlf + (line + rest);
      x + (crlf + line) + rest;
      x + (d + crlf) + rest;
      line + (block + content + d + (crlf + rest));
    }
  }

  lemma FormDataFirst(items: seq<Part>, boundary: string)
    requires items != []
    ensures FormData(items, boundary)
         == DashBoundaryCrlf(boundary) + HeaderBlock(items[0].info) + items[0].content + CRLF +
            FormData(items[1..], boundary)
  {
    hide HeaderBlock, DashBoundaryCrlf, Finish;
  }

  lemma {:induction false} FormDataSplit(items: seq<Part>, boundary: string)
    requires items != []
    ensures FormData(items, boundary) == DashBoundaryCrlf(boundary) + AfterFirstBoundary(items, boundary)
    decreases |items|
  {
    hide HeaderBlock, DashBoundaryCrlf, CrlfDashBoundary, Finish;
    var (line, d) := (DashBoundaryCrlf(boundary), CrlfDashBoundary(boundary));
    var (block, content) := (HeaderBlock(items[0].info), items[0].content);
    DelimitersMeet(boundary);
    if |items| == 1 {
      assert Items(items[1..], boundary) == "";
      assert FormData(items, boundary) == line + block + content + CRLF + Finish(boundary);
      assert line + block + content + CRLF + Finish(boundary) == line + block + content + (CRLF + Finish(boundary));
      assert line + block + content + (d + DASH_CRLF) == line + (block + content + d + DASH_CRLF);
    } else {
      FormDataSplit(items[1..], boundary);
      FormDataFirst(items, boundary);
      Regroup(line, block, content, CRLF, d, AfterFirstBoundary(items[1..], boundary));
    }
  }

  /** The callbacks a list of items should cause. */
  function Callbacks(trace: Trace, items: seq<Part>): Trace
    decreases |items|
  {
    if items == [] then trace
    else Callbacks(Then(Then(trace, Header(items[0].info)), Content(items[0].content)), items[1..])
  }

  lemma {:induction false} ReplayCallbacks(trace: Trace, items: seq<Part>)
    ensures Replay(Callbacks(trace, items)) == Replay(trace) + items
    decreases |items|
  {
    if items != [] {
      var t := Then(Then(trace, Header(items[0].info)), Content(items[0].content));
      ReplayCallbacks(t, items[1..]);
      assert "" + items[0].content == items[0].content;
      assert Replay(t) == Replay(trace) + [items[0]];
    }
  }

  predicate PrintableItems(items: seq<Part>, boundary: string)
  {
    forall item :: item in items ==> PrintableItem(item, boundary)
  }

  predicate ReadableItems(items: seq<Part>, boundary: string)
  {
    forall item :: item in items ==> Readable(item, boundary)
  }

  lemma PrintableIsReadable(items: seq<Part>, boundary: string)
    requires PrintableItems(items, boundary)
    ensures ReadableItems(items, boundary)
  {
    hide Faithful, DispositionOf;
  }

  lemma ItemsCons(items: seq<Part>, boundary: string)
    requires items != []
    ensures PrintableItems(items, boundary) ==> Short(items[0].info) && PrintableItems(items[1..], boundary)
    ensures ReadableItems(items, boundary) ==> Readable(items[0], boundary) && ReadableItems(items[1..], boundary)
  {
    hide Short, Faithful, DispositionOf, Find;
    assert items[0] in items;
    assert forall item :: item in items[1..] ==> item in items;
  }

  lemma {:induction false} ReadItems(boundary: string, s: State, items: seq<Part>, accept: Receiver)
    requires CR !in boundary && items != [] && ReadableItems(items, boundary) && AcceptsAll(accept)
    requires s.phase == NewEntry && s.buf == AfterFirstBoundary(items, boundary)
    ensures PrintableItems(items, boundary) ==> Tame(boundary, s, accept)
    ensures Run(boundary, s, accept)
         == Parsed(State(Boundary, true, items[|items| - 1].info, "", Callbacks(s.trace, items)), More)
    decreases |items|
  {
    hide AfterFirstBoundary, Find, Readable, Short, Run, Tame, PrintableItems, ReadableItems;
    ItemsCons(items, boundary);
    if |items| == 1 {
      assert items[1..] == [];
      ReadOnlyItem(boundary, s, items, accept);
    } else {
      var u := ReadFirstItem(boundary, s, items, accept);
      ReadItems(boundary, u, items[1..], accept);
    }
  }

  /** One item comes back, and the parser goes on with the others. */
  lemma ReadFirstItem(boundary: string, s: State, items: seq<Part>, accept: Receiver) returns (u: State)
    requires CR !in boundary && |items| > 1 && AcceptsAll(accept) && Readable(items[0], boundary)
    requires s.phase == NewEntry && s.buf == AfterFirstBoundary(items, boundary)
    ensures u == s.(file := items[0].info, buf := AfterFirstBoundary(items[1..], boundary),
                    trace := Then(Then(s.trace, Header(items[0].info)), Content(items[0].content)))
    ensures Run(boundary, s, accept) == Run(boundary, u, accept)
    ensures Short(items[0].info) && Tame(boundary, u, accept) ==> Tame(boundary, s, accept)
  {
    hide HeaderBlock, Find, Run, Tame, Readable, Short, CrlfDashBoundary;
    var rest := CRLF + AfterFirstBoundary(items[1..], boundary);
    ReadItem(boundary, s, items[0], rest, accept);
    var t := s.(phase := Boundary, file := items[0].info, buf := rest,
                trace := Then(Then(s.trace, Header(items[0].info)), Content(items[0].content)));
    u := t.(phase := NewEntry, buf := AfterFirstBoundary(items[1..], boundary));
    ReadNextBoundary(boundary, t, u, accept);
    if Tame(boundary, u, accept) { TameNextBoundary(boundary, t, u, accept); }
  }

  lemma ReadOnlyItem(boundary: string, s: State, items: seq<Part>, accept: Receiver)
    requires CR !in boundary && |items| == 1 && AcceptsAll(accept) && Readable(items[0], boundary)
    requires s.phase == NewEntry && s.buf == AfterFirstBoundary(items, boundary)
    ensures Run(boundary, s, accept)
         == Parsed(State(Boundary, true, items[0].info, "",
                         Then(Then(s.trace, Header(items[0].info)), Content(items[0].content))), More)
    ensures Short(items[0].info) ==> Tame(boundary, s, accept)
  {
    hide HeaderBlock, Find, Run, Tame, Readable, Short, CrlfDashBoundary;
    ReadItem(boundary, s, items[0], DASH_CRLF, accept);
    var t := s.(phase := Boundary, file := items[0].info, buf := DASH_CRLF,
                trace := Then(Then(s.trace, Header(items[0].info)), Content(items[0].content)));
    ReadClosing(boundary, t, accept);
  }

  lemma ReadClosing(boundary: string, s: State, accept: Receiver)
    requires s.phase == Boundary && s.buf == DASH_CRLF
    ensures Tame(boundary, s, accept)
    ensures Run(boundary, s, accept) == Parsed(s.(valid := true, buf := ""), More)
  {
    hide HeaderLines, BodyTurn;
    assert s.buf[0] == '-';
    Mismatch(s.buf, CRLF, 0, 0);
    assert s.buf[0..4] == DASH_CRLF;
    assert Step(boundary, s, accept) == Next(s.(valid := true, buf := ""));
  }

  lemma ReadNextBoundary(boundary: string, s: State, u: State, accept: Receiver)
    requires s.phase == Boundary && s.buf == CRLF + u.buf && u == s.(phase := NewEntry, buf := u.buf)
    ensures Step(boundary, s, accept) == Next(u) && Run(boundary, s, accept) == Run(boundary, u, accept)
  {
    hide HeaderLines, BodyTurn;
    assert s.buf[0..2] == CRLF && s.buf[2..] == u.buf;
  }

  lemma TameNextBoundary(boundary: string, s: State, u: State, accept: Receiver)
    requires s.phase == Boundary && s.buf == CRLF + u.buf && u == s.(phase := NewEntry, buf := u.buf)
    requires Tame(boundary, u, accept)
    ensures Tame(boundary, s, accept)
  {
    hide HeaderLines, BodyTurn;
    ReadNextBoundary(boundary, s, u, accept);
    assert s.buf[0] == CR;
    Mismatch(s.buf, DASH_CRLF, 0, 0);
  }

  /** Parsing a printed body at once delivers the printed items and finds the closing delimiter. */
  lemma ParsePrinted(boundary: string, items: seq<Part>, accept: Receiver)
    requires CR !in boundary && items != [] && ReadableItems(items, boundary) && AcceptsAll(accept)
    ensures var data := FormData(items, boundary);
            var p := Parse(boundary, INITIAL, data, accept);
            && StartsWith(data, DashBoundaryCrlf(boundary))
            && (PrintableItems(items, boundary) ==> Tame(boundary, Append(INITIAL, data), accept))
            && p.outcome == More && Finished(p.s)
            && p.s.trace == Callbacks(Start, items) && Replay(p.s.trace) == items
  {
    hide HeaderLines, BodyTurn, HeaderBlock;
    var line := DashBoundaryCrlf(boundary);
    var data := FormData(items, boundary);
    FormDataSplit(items, boundary);
    var rest := AfterFirstBoundary(items, boundary);
    var s := Append(INITIAL, data);
    assert s.buf == data && data[0..|line|] == line && data[|line|..] == rest;
    FindUnique(data, line, 0);
    assert data[0..] == data;
    var t := s.(phase := NewEntry, buf := rest);
    assert Step(boundary, s, accept) == Next(t);
    ReadItems(boundary, t, items, accept);
    ReplayCallbacks(Start, items);
    assert [] + items == items;
  }

  lemma FirstSliceHoldsLine(boundary: string, items: seq<Part>, slices: seq<string>)
    requires items != [] && Concat(slices) == FormData(items, boundary)
    requires slices != [] && |slices[0]| >= |DashBoundaryCrlf(boundary)|
    ensures Contains("" + slices[0], DashBoundaryCrlf(boundary))
  {
    hide FormData, AfterFirstBoundary;
    var line := DashBoundaryCrlf(boundary);
    FormDataSplit(items, boundary);
    assert (line + AfterFirstBoundary(items, boundary))[..|line|] == line;
    assert slices[0] + Concat(slices[1..]) == FormData(items, boundary);
    OccursAppend(slices[0], Concat(slices[1..]), line, 0);
    assert "" + slices[0] == slices[0];
    FindUnique(slices[0], line, 0);
  }

  /** The round trip, for every slicing whose first slice holds the first boundary line. */
  lemma RoundTrip(boundary: string, items: seq<Part>, slices: seq<string>, accept: Receiver)
    requires CR !in boundary && items != [] && PrintableItems(items, boundary) && AcceptsAll(accept)
    requires Concat(slices) == FormData(items, boundary)
    requires slices != [] && |slices[0]| >= |DashBoundaryCrlf(boundary)|
    ensures var p := ParseSlices(boundary, INITIAL, slices, accept);
            p.outcome == More && Finished(p.s) && Replay(p.s.trace) == items
  {
    hide Run, Tame, FormData, AfterFirstBoundary;
    PrintableIsReadable(items, boundary);
    ParsePrinted(boundary, items, accept);
    FirstSliceHoldsLine(boundary, items, slices);
    SliceIndependence(boundary, INITIAL, slices, accept);
  }

  /** The characters of a boundary. */
  lemma BoundaryCharsAre(boundary: string)
    ensures BoundaryCharsValid(boundary)
       <==> forall c :: c in boundary ==> c in UPPER || c in LOWER || c in DIGITS || c in "-_"
  {
    forall c | c in boundary
      ensures 'a' <= c <= 'z' || 'A' <= c <= 'Z' || '0' <= c <= '9' || c == '-' || c == '_'
         <==> c in UPPER || c in LOWER || c in DIGITS || c in "-_"
    {
      UpperLetters(c);
      LowerLetters(c);
      Digits(c);
    }
    hide UPPER, LOWER, DIGITS;
  }

  lemma ValidBoundaryHasNoCr(boundary: string)
    requires BoundaryCharsValid(boundary)
    ensures CR !in boundary
  {
  }

  /** A body printed for no items has no part to end, so its closing delimiter is never accepted. */
  lemma ParsePrintedEmpty(boundary: string, accept: Receiver)
    requires CR !in boundary
    ensures !Parse(boundary, INITIAL, FormData([], boundary), accept).s.valid
  {
    hide Run, Find, OccursAt;
    var line := DashBoundaryCrlf(boundary);
    var data := "--" + boundary + "--" + CRLF;
    assert FormData([], boundary) == data;
    assert INITIAL.buf + data == data;
    Mismatch(data, line, 0, |boundary| + 2);
    Mismatch(data, line, 1, |line| - 1);
    FoundAtEnd(data, line);
    NothingAfterBoundary(boundary, data, accept);
  }

  lemma FoundAtEnd(data: string, pat: string)
    requires |pat| + 2 == |data| && pat != ""
    requires !OccursAt(data, pat, 0) && !OccursAt(data, pat, 1)
    ensures Find(data, pat) == |data| || Find(data, pat) == 2
  {
    var f := Find(data, pat);
    assert f < |data| ==> f + |pat| <= |data|;
    assert f != 0 && f != 1;
  }

  lemma NothingAfterBoundary(boundary: string, data: string, accept: Receiver)
    requires var line := DashBoundaryCrlf(boundary);
             Find(data, line) == |data| || Find(data, line) + |line| == |data|
    ensures !Run(boundary, INITIAL.(buf := data), accept).s.valid
  {
    hide HeaderLines, BodyTurn, BoundaryTurn, Find, OccursAt;
    var line := DashBoundaryCrlf(boundary);
    var s := INITIAL.(buf := data);
    var f := Find(data, line);
    if f < |data| {
      FindHit(data, line);
      OccursDrop(data, line, f, 0);
      assert data[f..][|line|..] == "";
      var t := s.(phase := NewEntry, buf := "");
      assert Step(boundary, s, accept) == Next(t);
      assert Run(boundary, t, accept) == Parsed(t, More);
    } else {
      assert data[f..] == "";
    }
  }
}
