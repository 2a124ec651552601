/** Which header lines of a part the parser reads, and what failing does to it. */
module MultipartHeaders {
  import opened Text
  import opened Wrappers
  import opened MultipartSpec
  import opened MultipartRoundTrip
  import opened Disposition
  import opened DispositionGrammar

  /** A Content-Type line: the keyword in any letter case, then the value. */
  predicate IsTypeLine(line: string, file: Info, info: Info)
  {
    && |line| >= 13 && EqualIgnoringCase(line[..13], "Content-Type:")
    && info == file.(contentType := Trim(line[13..]))
  }

  ghost predicate IsDispositionLine(line: string, file: Info, info: Info)
  {
    exists l :: LineOk(l) && PrintLine(l) == line && info == file.(name := l.name.text, filename := FileOf(l.rest))
  }

  /** The lines that are read are those of the two grammars, and nothing else. */
  lemma ReadHeaderExact(file: Info, line: string, info: Info)
    ensures ReadHeader(file, line) == Some(info) <==> IsTypeLine(line, file, info) || IsDispositionLine(line, file, info)
  {
    hide MatchDisposition, LineOk, PrintLine, EqualIgnoringCase;
    SameKeyword(line);
    if IsDispositionLine(line, file, info) {
      var l :| LineOk(l) && PrintLine(l) == line && info == file.(name := l.name.text, filename := FileOf(l.rest));
      NoTypeLine(l);
      DispositionExact(line, Fields(l.name.text, FileOf(l.rest)));
    }
    if ReadHeader(file, line) == Some(info) && !StartsWithIgnoringCase(line, "content-type:") {
      var f := MatchDisposition(line).value;
      DispositionExact(line, f);
      var l :| LineOk(l) && PrintLine(l) == line && l.name.text == f.name && FileOf(l.rest) == f.filename;
    }
  }

  lemma SameKeyword(line: string)
    ensures |line| >= 13 && EqualIgnoringCase(line[..13], "Content-Type:") <==> StartsWithIgnoringCase(line, "content-type:")
  {
    var (a, b) := ("Content-Type:", "content-type:");
    assert forall i :: 0 <= i < 13 ==> Lower(a[i]) == Lower(b[i]);
  }

  lemma NoTypeLine(l: Line)
    requires LineOk(l)
    ensures !StartsWithIgnoringCase(PrintLine(l), "content-type:")
  {
    hide PrintQuoted, PrintRest;
    var line := PrintLine(l);
    assert line[..20] == l.type_;
    assert Lower(l.type_[8]) == Lower("Content-Disposition:"[8]) == 'd';
    assert line[..13][8] == l.type_[8];
    assert Lower("content-type:"[8]) == 't';
  }

  /** Any other line ends the parse: the call fails and the body is no longer valid. */
  lemma UnknownLineEndsParse(boundary: string, s: State, line: string, rest: string, accept: Receiver)
    requires s.phase == Headers && s.buf == line + CRLF + rest
    requires line != "" && !Contains(line, CRLF) && |line| <= HEADER_MAX_LENGTH
    requires forall info :: !IsTypeLine(line, s.file, info) && !IsDispositionLine(line, s.file, info)
    ensures Run(boundary, s, accept) == Parsed(s.(valid := false), Malformed)
  {
    hide ReadHeader, HeaderLines, IsTypeLine, IsDispositionLine;
    FindAfter(line, CRLF, rest);
    assert s.buf[..|line|] == line;
    var r := ReadHeader(s.file, line);
    if r.Some? { ReadHeaderExact(s.file, line, r.value); }
    HeaderLinesEnd(s, accept);
    ReadHeadersStep(boundary, s, accept);
  }

  lemma HeaderLinesFail(s: State, accept: Receiver)
    ensures var t := HeaderLines(s, accept);
            t.Stop? && t.outcome != More ==> t.outcome in {Malformed, Refused} && !t.s.valid
    decreases |s.buf|
  {
    hide ReadHeader, Find;
  }

  lemma StepFails(boundary: string, s: State, accept: Receiver)
    requires s.buf != ""
    ensures var t := Step(boundary, s, accept);
            t.Stop? && (t.outcome == Refused || (t.outcome == Malformed && s.phase == Headers)) ==> !t.s.valid
    ensures Step(boundary, s, accept).Stop? ==> Step(boundary, s, accept).s.phase == s.phase
  {
    hide HeaderLines, BodyTurn, Find;
    HeaderLinesFail(s, accept);
    BodyTurnCases(CrlfDashBoundary(boundary), s, accept);
    HeaderLinesPhase(s, accept);
  }

  lemma HeaderLinesPhase(s: State, accept: Receiver)
    ensures HeaderLines(s, accept).Stop? ==> HeaderLines(s, accept).s.phase == s.phase
    decreases |s.buf|
  {
    hide ReadHeader, Find;
  }

  /** A refused callback and an unknown header line leave the body invalid, whatever was read before. */
  lemma {:induction false} FailureInvalidates(boundary: string, s: State, accept: Receiver)
    ensures var p := Run(boundary, s, accept);
            p.outcome == Refused || (p.outcome == Malformed && p.s.phase == Headers) ==> !p.s.valid
    decreases |s.buf|, if s.phase == NewEntry then 1 else 0
  {
    hide Step;
    if s.buf != "" {
      StepFails(boundary, s, accept);
      var t := Step(boundary, s, accept);
      if t.Next? { FailureInvalidates(boundary, t.s, accept); }
    }
  }
}
