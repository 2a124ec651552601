/** The push parser of multipart/form-data as a function on its whole state, one turn of its loop at a time. */
module MultipartSpec {
  import opened Text
  import opened Wrappers
  import Disposition

  const DASH_CRLF: string := "--\r\n"

  function DashBoundaryCrlf(boundary: string): string
  {
    "--" + boundary + CRLF
  }

  function CrlfDashBoundary(boundary: string): string
  {
    CRLF + "--" + boundary
  }

  datatype Info = Info(name: string, filename: string, contentType: string)

  const NO_INFO := Info("", "", "")

  /** One callback to the receiver. */
  datatype Event = Header(info: Info) | Content(data: string)

  /** The callbacks made so far, the latest outermost. */
  datatype Trace = Start | Then(earlier: Trace, e: Event)

  datatype Phase = Preamble | NewEntry | Headers | Body | Boundary

  /** `buf` is the unread part of the buffer, `trace` the callbacks made so far. */
  datatype State = State(phase: Phase, valid: bool, file: Info, buf: string, trace: Trace)

  const INITIAL := State(Preamble, false, NO_INFO, "", Start)

  /** Why a call of the parser returns: `More` is its true, the others its false. */
  datatype Outcome = More | TooLong | Malformed | Refused

  datatype Turn = Next(s: State) | Stop(s: State, outcome: Outcome)

  /** The receiver's answer to the last callback of a trace. */
  type Receiver = Trace -> bool

  ghost predicate AcceptsAll(accept: Receiver)
  {
    forall t :: accept(t)
  }

  /** Reading one non-empty header line into the file information. */
  function ReadHeader(file: Info, line: string): Option<Info>
  {
    if StartsWithIgnoringCase(line, "content-type:") then
      Some(file.(contentType := Trim(line[13..])))
    else
      match Disposition.MatchDisposition(line)
      case Some(f) => Some(file.(name := f.name, filename := f.filename))
      case None => None
  }

  /** Everything before the first boundary line goes; a buffer without one goes as a whole. */
  function PreambleTurn(line: string, s: State): Turn
    requires line != ""
  {
    var buf := s.buf[Find(s.buf, line)..];
    if |line| > |buf| then Stop(s.(buf := buf), More)
    else if !StartsWith(buf, line) then Stop(s.(buf := buf), Malformed)
    else Next(s.(phase := NewEntry, buf := buf[|line|..]))
  }

  /** The inner loop of the header phase: whole lines are read until an empty one. */
  function HeaderLines(s: State, accept: Receiver): (t: Turn)
    ensures |t.s.buf| <= |s.buf|
    ensures t.Next? ==> |t.s.buf| < |s.buf| && t.s.phase == Body
    decreases |s.buf|
  {
    var pos := Find(s.buf, CRLF);
    if pos == |s.buf| then
      Stop(s, More)
    else if pos == 0 then
      var trace := Then(s.trace, Header(s.file));
      if accept(trace) then
        Next(s.(phase := Body, buf := s.buf[2..], trace := trace))
      else
        Stop(s.(valid := false, trace := trace), Refused)
    else
      match ReadHeader(s.file, s.buf[..pos])
      case Some(file) => HeaderLines(s.(file := file, buf := s.buf[pos + 2..]), accept)
      case None => Stop(s.(valid := false), Malformed)
  }

  /** Content up to the delimiter, or all but the bytes that may still become one. */
  function BodyTurn(delimiter: string, s: State, accept: Receiver): Turn
    requires delimiter != ""
  {
    if |delimiter| > |s.buf| then
      Stop(s, More)
    else
      var pos := Find(s.buf, delimiter);
      if pos < |s.buf| then
        var trace := Then(s.trace, Content(s.buf[..pos]));
        if accept(trace) then
          Next(s.(phase := Boundary, buf := s.buf[pos + |delimiter|..], trace := trace))
        else
          Stop(s.(valid := false, trace := trace), Refused)
      else
        var len := |s.buf| - |delimiter|;
        if len > 0 then
          var trace := Then(s.trace, Content(s.buf[..len]));
          if accept(trace) then
            Stop(s.(buf := s.buf[len..], trace := trace), More)
          else
            Stop(s.(valid := false, trace := trace), Refused)
        else
          Stop(s, More)
  }

  function BoundaryTurn(s: State): Turn
  {
    if |CRLF| > |s.buf| then
      Stop(s, More)
    else if StartsWith(s.buf, CRLF) then
      Next(s.(phase := NewEntry, buf := s.buf[2..]))
    else if |DASH_CRLF| > |s.buf| then
      Stop(s, More)
    else if StartsWith(s.buf, DASH_CRLF) then
      Next(s.(valid := true, buf := ""))
    else
      Stop(s, More)
  }

  /** One turn of the parser's loop, taken while bytes are buffered. */
  function Step(boundary: string, s: State, accept: Receiver): (t: Turn)
    requires s.buf != ""
    ensures |t.s.buf| <= |s.buf|
    ensures t.Next? ==> |t.s.buf| < |s.buf| || (s.phase == NewEntry && t.s.phase == Headers)
  {
    match s.phase
    case Preamble => PreambleTurn(DashBoundaryCrlf(boundary), s)
    case NewEntry => Next(s.(phase := Headers, file := NO_INFO))
    case Headers =>
      if Find(s.buf, CRLF) > HEADER_MAX_LENGTH then Stop(s, TooLong)
      else HeaderLines(s, accept)
    case Body => BodyTurn(CrlfDashBoundary(boundary), s, accept)
    case Boundary => BoundaryTurn(s)
  }

  lemma BodyStep(boundary: string, s: State, accept: Receiver)
    requires s.buf != "" && s.phase == Body
    ensures CrlfDashBoundary(boundary) != ""
    ensures Step(boundary, s, accept) == BodyTurn(CrlfDashBoundary(boundary), s, accept)
  {
  }

  datatype Parsed = Parsed(s: State, outcome: Outcome)

  /** The loop of one call, run on what is buffered. */
  function Run(boundary: string, s: State, accept: Receiver): Parsed
    decreases |s.buf|, if s.phase == NewEntry then 1 else 0
  {
    if s.buf == "" then Parsed(s, More)
    else
      match Step(boundary, s, accept)
      case Next(t) => Run(boundary, t, accept)
      case Stop(t, outcome) => Parsed(t, outcome)
  }

  /** One turn of the header loop that ends it. */
  lemma HeaderLinesEnd(s: State, accept: Receiver)
    ensures var pos := Find(s.buf, CRLF);
            var trace := Then(s.trace, Header(s.file));
            && (pos == |s.buf| ==> HeaderLines(s, accept) == Stop(s, More))
            && (pos == 0 < |s.buf| ==>
                  && |s.buf| >= 2
                  && HeaderLines(s, accept)
                  == if accept(trace) then Next(s.(phase := Body, buf := s.buf[2..], trace := trace))
                     else Stop(s.(valid := false, trace := trace), Refused))
            && (0 < pos < |s.buf| ==>
                  && pos + 2 <= |s.buf|
                  && (ReadHeader(s.file, s.buf[..pos]).None? ==>
                        HeaderLines(s, accept) == Stop(s.(valid := false), Malformed)))
  {
    hide ReadHeader;
  }

  /** The state after one whole header line. */
  function AfterLine(s: State, pos: nat, file: Info): State
    requires pos + 2 <= |s.buf|
  {
    s.(file := file, buf := s.buf[pos + 2..])
  }

  lemma HeaderLinesGoOn(s: State, accept: Receiver)
    requires var pos := Find(s.buf, CRLF);
             && 0 < pos && pos + 2 <= |s.buf| && ReadHeader(s.file, s.buf[..pos]).Some?
    ensures var pos := Find(s.buf, CRLF);
            HeaderLines(s, accept) == HeaderLines(AfterLine(s, pos, ReadHeader(s.file, s.buf[..pos]).value), accept)
  {
    hide ReadHeader;
  }

  /** A body turn, case by case. */
  lemma BodyTurnCases(d: string, s: State, accept: Receiver)
    requires d != ""
    ensures |d| > |s.buf| ==> BodyTurn(d, s, accept) == Stop(s, More)
    ensures |d| <= |s.buf| && Find(s.buf, d) < |s.buf| ==>
              var pos := Find(s.buf, d);
              var trace := Then(s.trace, Content(s.buf[..pos]));
              && pos + |d| <= |s.buf|
              && BodyTurn(d, s, accept)
              == if accept(trace) then Next(s.(phase := Boundary, buf := s.buf[pos + |d|..], trace := trace))
                 else Stop(s.(valid := false, trace := trace), Refused)
    ensures |d| <= |s.buf| && Find(s.buf, d) == |s.buf| ==>
              var len := |s.buf| - |d|;
              var trace := Then(s.trace, Content(s.buf[..len]));
              BodyTurn(d, s, accept)
              == if len == 0 then Stop(s, More)
                 else if accept(trace) then Stop(s.(buf := s.buf[len..], trace := trace), More)
                 else Stop(s.(valid := false, trace := trace), Refused)
  {
  }

  function Append(s: State, data: string): State
  {
    s.(buf := s.buf + data)
  }

  /** One call of parse. */
  function Parse(boundary: string, s: State, data: string, accept: Receiver): Parsed
  {
    Run(boundary, Append(s, data), accept)
  }

  /** Calls of parse on consecutive slices, up to the first that returns false. */
  function ParseSlices(boundary: string, s: State, slices: seq<string>, accept: Receiver): Parsed
    decreases |slices|
  {
    if slices == [] then Parsed(s, More)
    else
      var p := Parse(boundary, s, slices[0], accept);
      if p.outcome == More then ParseSlices(boundary, p.s, slices[1..], accept) else p
  }

  /** A part as the receiver sees it: the header callback and all content that follows it. */
  datatype Part = Part(info: Info, content: string)

  function Deliver(parts: seq<Part>, e: Event): seq<Part>
  {
    match e
    case Header(info) => parts + [Part(info, "")]
    case Content(data) =>
      if parts == [] then [Part(NO_INFO, data)]
      else
        var last := parts[|parts| - 1];
        parts[|parts| - 1 := last.(content := last.content + data)]
  }

  /** What a receiver that appends content has collected after a trace of callbacks. */
  function Replay(trace: Trace): seq<Part>
  {
    match trace
    case Start => []
    case Then(earlier, e) => Deliver(Replay(earlier), e)
  }

  /** Content delivered in two pieces is the content delivered at once. */
  lemma ReplaySplit(trace: Trace, x: string, y: string)
    ensures Replay(Then(Then(trace, Content(x)), Content(y))) == Replay(Then(trace, Content(x + y)))
  {
    var p := Replay(trace);
    if p != [] {
      var last := p[|p| - 1];
      assert (last.content + x) + y == last.content + (x + y);
    }
  }
}
