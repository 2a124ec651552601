/** The parser's result does not depend on how its input is cut into slices. */
module MultipartSlices {
  import opened Text
  import opened Wrappers
  import opened MultipartSpec
  import Disposition

  /** A receiver whose answers depend on what it has collected, not on how content was cut into callbacks, and that
      takes every beginning of a content that it takes. */
  ghost predicate Steady(accept: Receiver)
  {
    && (forall t, u, info ::
          Replay(t) == Replay(u) ==> accept(Then(t, Header(info))) == accept(Then(u, Header(info))))
    && (forall t, u, x, y ::
          Replay(Then(t, Content(x))) == Replay(Then(u, Content(y))) ==>
            accept(Then(t, Content(x))) == accept(Then(u, Content(y))))
    && (forall t, x, n: nat :: n <= |x| && accept(Then(t, Content(x))) ==> accept(Then(t, Content(x[..n]))))
  }

  /** Every header line begun in the buffer ends within the limit. */
  ghost predicate LinesShort(s: State)
    decreases |s.buf|
  {
    var pos := Find(s.buf, CRLF);
    && pos < HEADER_MAX_LENGTH
    && (0 < pos < |s.buf| ==>
          match ReadHeader(s.file, s.buf[..pos])
          case Some(file) => LinesShort(s.(file := file, buf := s.buf[pos + 2..]))
          case None => true)
  }

  /** Header lines are short and nothing follows the closing delimiter, all through the run on what is buffered. */
  ghost predicate Tame(boundary: string, s: State, accept: Receiver)
    decreases |s.buf|, if s.phase == NewEntry then 1 else 0
  {
    s.buf != "" ==>
      && (s.phase == Headers ==> LinesShort(s))
      && (s.phase == Boundary && StartsWith(s.buf, DASH_CRLF) ==> s.buf == DASH_CRLF)
      && (var t := Step(boundary, s, accept); t.Next? ==> Tame(boundary, t.s, accept))
  }

  /** The same parser state, the same content up to how it was cut into callbacks. */
  ghost predicate Sim(p: State, q: State)
  {
    && p.phase == q.phase && p.valid == q.valid && p.file == q.file && p.buf == q.buf
    && Replay(p.trace) == Replay(q.trace)
  }

  /** A refusal ends everything, so only what was collected matters then. */
  ghost predicate SimEnd(p: State, outcome: Outcome, q: State)
  {
    Replay(p.trace) == Replay(q.trace) && (outcome != Refused ==> Sim(p, q))
  }

  ghost predicate SimTurn(p: Turn, q: Turn)
  {
    && p.Next? == q.Next?
    && (if p.Next? then Sim(p.s, q.s) else p.outcome == q.outcome && SimEnd(p.s, p.outcome, q.s))
  }

  /** The same parts, but for a last content that may be longer in `q`. */
  ghost predicate UpTo(p: seq<Part>, q: seq<Part>)
  {
    p == q ||
    (&& |p| == |q| > 0
     && var m := |p| - 1;
     && p[..m] == q[..m] && p[m].info == q[m].info
     && |p[m].content| <= |q[m].content| && p[m].content == q[m].content[..|p[m].content|])
  }

  lemma ReplaySameHeader(p: State, q: State, accept: Receiver)
    requires Sim(p, q) && Steady(accept)
    ensures Replay(Then(p.trace, Header(p.file))) == Replay(Then(q.trace, Header(q.file)))
    ensures accept(Then(p.trace, Header(p.file))) == accept(Then(q.trace, Header(q.file)))
  {
  }

  lemma {:induction false} HeaderLinesSim(p: State, q: State, accept: Receiver)
    requires Steady(accept) && Sim(p, q)
    ensures SimTurn(HeaderLines(p, accept), HeaderLines(q, accept))
    decreases |p.buf|
  {
    hide Find, OccursAt, ReadHeader, HeaderLines, Replay, Steady;
    HeaderLinesEnd(p, accept);
    HeaderLinesEnd(q, accept);
    ReplaySameHeader(p, q, accept);
    var pos := Find(p.buf, CRLF);
    if 0 < pos < |p.buf| {
      match ReadHeader(p.file, p.buf[..pos])
      case None =>
      case Some(file) =>
        HeaderLinesGoOn(p, accept);
        HeaderLinesGoOn(q, accept);
        HeaderLinesSim(AfterLine(p, pos, file), AfterLine(q, pos, file), accept);
    }
  }

  lemma SameAnswer(t: Trace, u: Trace, x: string, y: string, accept: Receiver)
    requires Steady(accept) && Replay(Then(t, Content(x))) == Replay(Then(u, Content(y)))
    ensures accept(Then(t, Content(x))) == accept(Then(u, Content(y)))
  {
    hide Replay;
  }

  lemma ReplaySameContent(p: State, q: State, x: string, accept: Receiver)
    requires Sim(p, q) && Steady(accept)
    ensures Replay(Then(p.trace, Content(x))) == Replay(Then(q.trace, Content(x)))
    ensures accept(Then(p.trace, Content(x))) == accept(Then(q.trace, Content(x)))
  {
    SameAnswer(p.trace, q.trace, x, x, accept);
  }

  lemma BodyTurnSim(d: string, p: State, q: State, accept: Receiver)
    requires d != "" && Steady(accept) && Sim(p, q)
    ensures SimTurn(BodyTurn(d, p, accept), BodyTurn(d, q, accept))
  {
    hide Steady, Replay, BodyTurn, Find, OccursAt;
    BodyTurnCases(d, p, accept);
    BodyTurnCases(d, q, accept);
    if |d| <= |p.buf| {
      var len := if Find(p.buf, d) < |p.buf| then Find(p.buf, d) else |p.buf| - |d|;
      ReplaySameContent(p, q, p.buf[..len], accept);
    }
  }

  lemma StepSim(boundary: string, p: State, q: State, accept: Receiver)
    requires Steady(accept) && Sim(p, q) && p.buf != ""
    ensures SimTurn(Step(boundary, p, accept), Step(boundary, q, accept))
  {
    match p.phase
    case Headers => HeaderLinesSim(p, q, accept);
    case Body => BodyTurnSim(CrlfDashBoundary(boundary), p, q, accept);
    case _ =>
  }

  lemma {:induction false} RunSim(boundary: string, p: State, q: State, accept: Receiver)
    requires Steady(accept) && Sim(p, q)
    ensures Run(boundary, p, accept).outcome == Run(boundary, q, accept).outcome
    ensures SimEnd(Run(boundary, p, accept).s, Run(boundary, p, accept).outcome, Run(boundary, q, accept).s)
    decreases |p.buf|, if p.phase == NewEntry then 1 else 0
  {
    if p.buf != "" {
      StepSim(boundary, p, q, accept);
      var t, u := Step(boundary, p, accept), Step(boundary, q, accept);
      if t.Next? { RunSim(boundary, t.s, u.s, accept); }
    }
  }

  lemma {:induction false} LinesShortSim(p: State, q: State)
    requires Sim(p, q) && LinesShort(p)
    ensures LinesShort(q)
    decreases |p.buf|
  {
    var pos := Find(p.buf, CRLF);
    if 0 < pos < |p.buf| {
      match ReadHeader(p.file, p.buf[..pos])
      case None =>
      case Some(file) =>
        LinesShortSim(p.(file := file, buf := p.buf[pos + 2..]), q.(file := file, buf := q.buf[pos + 2..]));
    }
  }

  lemma {:induction false} TameSim(boundary: string, p: State, q: State, accept: Receiver)
    requires Steady(accept) && Sim(p, q) && Tame(boundary, p, accept)
    ensures Tame(boundary, q, accept)
    decreases |p.buf|, if p.phase == NewEntry then 1 else 0
  {
    if p.buf != "" {
      StepSim(boundary, p, q, accept);
      if p.phase == Headers { LinesShortSim(p, q); }
      var t, u := Step(boundary, p, accept), Step(boundary, q, accept);
      if t.Next? { TameSim(boundary, t.s, u.s, accept); }
    }
  }

  /** More bytes behind the buffer do not change what the header loop does with whole lines. */
  lemma {:induction false} HeaderLinesAppend(s: State, b: string, accept: Receiver)
    ensures var t := HeaderLines(s, accept);
            var whole := HeaderLines(Append(s, b), accept);
            && (t.Next? ==> whole == Next(Append(t.s, b)))
            && (t.Stop? && t.outcome != More ==> whole == Stop(Append(t.s, b), t.outcome))
            && (t.Stop? ==> t.s.phase == s.phase)
            && (t.Stop? && t.outcome == More ==>
                  && whole == HeaderLines(Append(t.s, b), accept)
                  && (LinesShort(Append(s, b)) ==> LinesShort(Append(t.s, b))))
    decreases |s.buf|
  {
    hide Find, OccursAt, ReadHeader, HeaderLines;
    var whole := Append(s, b);
    HeaderLinesEnd(s, accept);
    HeaderLinesEnd(whole, accept);
    var pos := Find(s.buf, CRLF);
    if pos < |s.buf| {
      FindAppendHit(s.buf, b, CRLF);
      assert whole.buf[..pos] == s.buf[..pos];
      if pos == 0 {
        assert whole.buf[2..] == s.buf[2..] + b;
      } else {
        assert whole.buf[pos + 2..] == s.buf[pos + 2..] + b;
        match ReadHeader(s.file, s.buf[..pos])
        case None =>
        case Some(file) =>
          HeaderLinesGoOn(s, accept);
          HeaderLinesGoOn(whole, accept);
          assert AfterLine(whole, pos, file) == Append(AfterLine(s, pos, file), b);
          HeaderLinesAppend(AfterLine(s, pos, file), b, accept);
      }
    }
  }

  lemma ShortPrefix(s: State, b: string)
    requires LinesShort(Append(s, b))
    ensures Find(s.buf, CRLF) <= HEADER_MAX_LENGTH
  {
    if Find(s.buf, CRLF) < |s.buf| {
      FindAppendHit(s.buf, b, CRLF);
    } else {
      FindAppendMiss(s.buf, b, CRLF);
    }
  }

  lemma PreambleAppend(boundary: string, s: State, b: string, accept: Receiver)
    requires s.phase == Preamble && s.buf != "" && Step(boundary, s, accept).Next?
    ensures s.buf + b != ""
    ensures Step(boundary, Append(s, b), accept) == Next(Append(Step(boundary, s, accept).s, b))
  {
    var line := DashBoundaryCrlf(boundary);
    var f := Find(s.buf, line);
    FindAppendHit(s.buf, b, line);
    assert (s.buf + b)[f..] == s.buf[f..] + b;
    OccursAppend(s.buf[f..], b, line, 0);
    assert (s.buf[f..] + b)[|line|..] == s.buf[f..][|line|..] + b;
  }

  lemma BodyTurnAppend(d: string, s: State, b: string, accept: Receiver)
    requires d != "" && BodyTurn(d, s, accept).Next?
    ensures BodyTurn(d, Append(s, b), accept) == Next(Append(BodyTurn(d, s, accept).s, b))
  {
    var f := Find(s.buf, d);
    FindAppendHit(s.buf, b, d);
    assert (s.buf + b)[..f] == s.buf[..f];
    assert (s.buf + b)[f + |d|..] == s.buf[f + |d|..] + b;
  }

  lemma BoundaryTurnAppend(s: State, b: string)
    requires BoundaryTurn(s).Next?
    requires StartsWith(s.buf + b, DASH_CRLF) ==> s.buf + b == DASH_CRLF
    ensures BoundaryTurn(Append(s, b)) == Next(Append(BoundaryTurn(s).s, b))
  {
    OccursAppend(s.buf, b, CRLF, 0);
    if StartsWith(s.buf, CRLF) {
      assert (s.buf + b)[2..] == s.buf[2..] + b;
    } else {
      OccursAppend(s.buf, b, DASH_CRLF, 0);
      assert |s.buf + b| == 4;
      assert b == "";
    }
  }

  /** A turn that goes on does the same with more bytes behind the buffer. */
  lemma StepAppend(boundary: string, s: State, b: string, accept: Receiver)
    requires s.buf != "" && Step(boundary, s, accept).Next?
    requires Tame(boundary, Append(s, b), accept)
    ensures Step(boundary, Append(s, b), accept) == Next(Append(Step(boundary, s, accept).s, b))
  {
    match s.phase
    case Preamble => PreambleAppend(boundary, s, b, accept);
    case NewEntry =>
    case Headers =>
      ShortPrefix(s, b);
      HeaderLinesAppend(s, b, accept);
    case Body => BodyTurnAppend(CrlfDashBoundary(boundary), s, b, accept);
    case Boundary => BoundaryTurnAppend(s, b);
  }

  lemma SliceSlice(z: string, n: nat, c: nat)
    requires n + c <= |z|
    ensures z[..n + c] == z[..n] + z[n..][..c]
    ensures z[n + c..] == z[n..][c..]
  {
  }

  /** `v` is `w` after `len` bytes of content in front of any delimiter were delivered. */
  ghost predicate Delivered(d: string, w: State, v: State, len: nat)
    requires d != ""
  {
    && 0 < len && len + |d| <= |w.buf| && len < Find(w.buf, d)
    && v == w.(buf := w.buf[len..], trace := Then(w.trace, Content(w.buf[..len])))
  }

  /** The piece that goes on an accepted one, against both at once. */
  lemma ResumedContent(w: State, v: State, len: nat, c: nat, accept: Receiver)
    requires Steady(accept) && len + c <= |w.buf|
    requires v == w.(buf := w.buf[len..], trace := Then(w.trace, Content(w.buf[..len])))
    ensures var (x, y) := (Then(w.trace, Content(w.buf[..len + c])), Then(v.trace, Content(v.buf[..c])));
            Replay(x) == Replay(y) && accept(x) == accept(y)
  {
    hide Steady, Replay;
    SliceSlice(w.buf, len, c);
    ReplaySplit(w.trace, w.buf[..len], v.buf[..c]);
    SameAnswer(w.trace, v.trace, w.buf[..len + c], v.buf[..c], accept);
  }

  lemma FoundResume(d: string, w: State, v: State, len: nat, accept: Receiver)
    requires d != "" && Steady(accept) && Delivered(d, w, v, len)
    requires Find(w.buf, d) < |w.buf|
    ensures SimTurn(BodyTurn(d, w, accept), BodyTurn(d, v, accept))
  {
    hide Steady, Replay, BodyTurn, Find, OccursAt;
    FindDrop(w.buf, d, len);
    var c := Find(v.buf, d);
    BodyTurnCases(d, w, accept);
    BodyTurnCases(d, v, accept);
    SliceSlice(w.buf, len, c + |d|);
    ResumedContent(w, v, len, c, accept);
  }

  lemma MissingResume(d: string, w: State, v: State, len: nat, accept: Receiver)
    requires d != "" && Steady(accept) && Delivered(d, w, v, len) && accept(v.trace)
    requires Find(w.buf, d) == |w.buf|
    ensures SimTurn(BodyTurn(d, w, accept), BodyTurn(d, v, accept))
  {
    hide Steady, Replay, BodyTurn, Find, OccursAt;
    FindDrop(w.buf, d, len);
    var c := |v.buf| - |d|;
    BodyTurnCases(d, w, accept);
    BodyTurnCases(d, v, accept);
    SliceSlice(w.buf, len, c);
    ResumedContent(w, v, len, c, accept);
  }

  /** A refusal of the first piece is a refusal of all. */
  lemma RefusedResume(d: string, s: State, b: string, accept: Receiver)
    requires d != "" && Steady(accept) && BodyTurn(d, s, accept).Stop? && BodyTurn(d, s, accept).outcome == Refused
    ensures var whole := BodyTurn(d, Append(s, b), accept);
            && whole.Stop? && whole.outcome == Refused
            && UpTo(Replay(BodyTurn(d, s, accept).s.trace), Replay(whole.s.trace))
  {
    hide Steady, Replay, BodyTurn, Find, OccursAt, UpTo;
    BodyTurnCases(d, s, accept);
    BodyTurnCases(d, Append(s, b), accept);
    var z := s.buf + b;
    if Find(s.buf, d) < |s.buf| {
      FindAppendHit(s.buf, b, d);
      assert z[..Find(s.buf, d)] == s.buf[..Find(s.buf, d)];
      UpToItself(Replay(BodyTurn(d, s, accept).s.trace));
    } else {
      var len := |s.buf| - |d|;
      FindAppendMiss(s.buf, b, d);
      var n := if Find(z, d) < |z| then Find(z, d) else |z| - |d|;
      assert z[..n][..len] == s.buf[..len];
      LongerContent(s.trace, z[..n], len, accept);
    }
  }

  lemma UpToItself(p: seq<Part>)
    ensures UpTo(p, p)
  {
  }

  lemma LongerContent(trace: Trace, x: string, n: nat, accept: Receiver)
    requires n <= |x| && Steady(accept)
    ensures accept(Then(trace, Content(x))) ==> accept(Then(trace, Content(x[..n])))
    ensures UpTo(Replay(Then(trace, Content(x[..n]))), Replay(Then(trace, Content(x))))
  {
    var p := Replay(trace);
    var c := if p == [] then "" else p[|p| - 1].content;
    assert (c + x)[..|c + x[..n]|] == c + x[..n];
  }

  /** A body turn that waits keeps enough bytes to find a delimiter cut by the slice. */
  lemma BodyTurnResume(d: string, s: State, b: string, accept: Receiver)
    requires d != "" && Steady(accept) && BodyTurn(d, s, accept).Stop? && BodyTurn(d, s, accept).outcome == More
    ensures var u := BodyTurn(d, s, accept).s;
            && u.phase == s.phase
            && u.buf == s.buf[|s.buf| - |u.buf|..]
            && SimTurn(BodyTurn(d, Append(s, b), accept), BodyTurn(d, Append(u, b), accept))
  {
    if |s.buf| > |d| {
      var len := |s.buf| - |d|;
      var u := s.(buf := s.buf[len..], trace := Then(s.trace, Content(s.buf[..len])));
      assert BodyTurn(d, s, accept) == Stop(u, More);
      DeliveredAppend(d, s, u, b);
      if Find(s.buf + b, d) < |s.buf + b| {
        FoundResume(d, Append(s, b), Append(u, b), len, accept);
      } else {
        MissingResume(d, Append(s, b), Append(u, b), len, accept);
      }
    }
  }

  lemma DeliveredAppend(d: string, s: State, u: State, b: string)
    requires d != "" && |s.buf| > |d| && !Contains(s.buf, d)
    requires var len := |s.buf| - |d|; u == s.(buf := s.buf[len..], trace := Then(s.trace, Content(s.buf[..len])))
    ensures Delivered(d, Append(s, b), Append(u, b), |s.buf| - |d|)
  {
    var len := |s.buf| - |d|;
    var z := s.buf + b;
    FindAppendMiss(s.buf, b, d);
    assert z[len..] == s.buf[len..] + b && z[..len] == s.buf[..len];
  }

  lemma BodyResume(boundary: string, s: State, b: string, accept: Receiver)
    requires Steady(accept) && s.phase == Body && s.buf != ""
    requires Step(boundary, s, accept).Stop?
    requires Tame(boundary, Append(s, b), accept)
    ensures Resumes(boundary, s, Step(boundary, s, accept).s, Step(boundary, s, accept).outcome, b, accept)
  {
    hide BodyTurn, Find, OccursAt, Replay, HeaderLines, CrlfDashBoundary, Run, Tame, Step, UpTo, Steady;
    var d := CrlfDashBoundary(boundary);
    BodyStep(boundary, s, accept);
    BodyTurnCases(d, s, accept);
    BodyStep(boundary, Append(s, b), accept);
    if BodyTurn(d, s, accept).outcome == Refused {
      RefusedResume(d, s, b, accept);
      RunStops(boundary, Append(s, b), accept);
    } else {
      var u := BodyTurn(d, s, accept).s;
      BodyTurnResume(d, s, b, accept);
      BodyStep(boundary, Append(u, b), accept);
      SimilarTurns(boundary, Append(s, b), Append(u, b), accept);
    }
  }

  lemma RunStops(boundary: string, s: State, accept: Receiver)
    requires s.buf != "" && Step(boundary, s, accept).Stop?
    ensures Run(boundary, s, accept) == Parsed(Step(boundary, s, accept).s, Step(boundary, s, accept).outcome)
  {
    hide Step;
  }

  lemma SimilarTurns(boundary: string, p: State, q: State, accept: Receiver)
    requires Steady(accept) && p.buf != "" && q.buf != "" && p.phase == q.phase == Body
    requires SimTurn(Step(boundary, p, accept), Step(boundary, q, accept))
    requires Tame(boundary, p, accept)
    ensures Tame(boundary, q, accept)
    ensures Run(boundary, p, accept).outcome == Run(boundary, q, accept).outcome
    ensures SimEnd(Run(boundary, p, accept).s, Run(boundary, p, accept).outcome, Run(boundary, q, accept).s)
  {
    var w, v := Step(boundary, p, accept), Step(boundary, q, accept);
    if w.Next? {
      RunSim(boundary, w.s, v.s, accept);
      TameSim(boundary, w.s, v.s, accept);
    }
  }

  /** The header loop stops only to wait, at a bad line or at a refusal. */
  lemma HeaderLinesStops(s: State, accept: Receiver)
    requires HeaderLines(s, accept).Stop?
    ensures HeaderLines(s, accept).outcome in {More, Malformed, Refused}
    decreases |s.buf|
  {
  }

  lemma FindAtMost(s: State)
    requires LinesShort(s)
    ensures Find(s.buf, CRLF) < HEADER_MAX_LENGTH
  {
  }

  /** `x` with its outcome is where the run from `s` pauses; `b` then takes both to the same place. */
  ghost predicate Resumes(boundary: string, s: State, x: State, outcome: Outcome, b: string, accept: Receiver)
  {
    var whole := Run(boundary, Append(s, b), accept);
    && outcome in {More, Malformed, Refused}
    && x.phase != Preamble
    && (outcome == Malformed ==> whole == Parsed(Append(x, b), Malformed))
    && (outcome == Refused ==> whole.outcome == Refused && UpTo(Replay(x.trace), Replay(whole.s.trace)))
    && (outcome == More ==>
          && Tame(boundary, Append(x, b), accept)
          && whole.outcome == Run(boundary, Append(x, b), accept).outcome
          && SimEnd(whole.s, whole.outcome, Run(boundary, Append(x, b), accept).s))
  }

  lemma SameTurn(boundary: string, p: State, q: State, accept: Receiver)
    requires p.buf != "" && q.buf != "" && p.phase == q.phase == Headers
    requires HeaderLines(p, accept) == HeaderLines(q, accept)
    requires Tame(boundary, p, accept) && LinesShort(q)
    ensures Tame(boundary, q, accept) && Run(boundary, p, accept) == Run(boundary, q, accept)
  {
    FindAtMost(p);
    FindAtMost(q);
    assert Step(boundary, p, accept) == Step(boundary, q, accept);
  }

  lemma HeadersResume(boundary: string, s: State, b: string, accept: Receiver)
    requires Steady(accept) && s.phase == Headers && s.buf != ""
    requires Step(boundary, s, accept).Stop?
    requires Tame(boundary, Append(s, b), accept)
    ensures Resumes(boundary, s, Step(boundary, s, accept).s, Step(boundary, s, accept).outcome, b, accept)
  {
    hide ReadHeader, HeaderLines, Find, OccursAt, LinesShort, Steady, Replay, UpTo, Run, Tame;
    var t := HeaderLines(s, accept);
    TameHeaders(boundary, Append(s, b), accept);
    ShortPrefix(s, b);
    assert Step(boundary, s, accept) == t;
    HeaderLinesStops(s, accept);
    HeaderLinesAppend(s, b, accept);
    if t.outcome == More {
      PausedHeaders(boundary, s, t.s, b, accept);
    } else {
      RunStops(boundary, Append(s, b), accept);
      UpToItself(Replay(t.s.trace));
    }
  }

  lemma TameHeaders(boundary: string, s: State, accept: Receiver)
    requires s.buf != "" && s.phase == Headers && Tame(boundary, s, accept)
    ensures LinesShort(s) && Step(boundary, s, accept) == HeaderLines(s, accept)
  {
    hide HeaderLines, ReadHeader;
    FindAtMost(s);
  }

  lemma PausedHeaders(boundary: string, s: State, u: State, b: string, accept: Receiver)
    requires s.phase == u.phase == Headers && s.buf != ""
    requires Tame(boundary, Append(s, b), accept) && LinesShort(Append(u, b))
    requires HeaderLines(Append(s, b), accept) == HeaderLines(Append(u, b), accept)
    ensures Tame(boundary, Append(u, b), accept)
    ensures Run(boundary, Append(s, b), accept) == Run(boundary, Append(u, b), accept)
  {
    hide HeaderLines, LinesShort, Find, OccursAt;
    if u.buf + b != "" {
      SameTurn(boundary, Append(s, b), Append(u, b), accept);
    } else {
      NothingLeft(Append(u, b), accept);
      TameHeaders(boundary, Append(s, b), accept);
      RunStops(boundary, Append(s, b), accept);
    }
  }

  lemma NothingLeft(s: State, accept: Receiver)
    requires s.buf == ""
    ensures HeaderLines(s, accept) == Stop(s, More)
  {
  }

  lemma StopResumes(boundary: string, s: State, b: string, accept: Receiver)
    requires Steady(accept) && s.buf != "" && Step(boundary, s, accept).Stop?
    requires s.phase == Preamble ==> Contains(s.buf, DashBoundaryCrlf(boundary))
    requires Tame(boundary, Append(s, b), accept)
    ensures Resumes(boundary, s, Step(boundary, s, accept).s, Step(boundary, s, accept).outcome, b, accept)
  {
    match s.phase
    case Preamble =>
    case NewEntry =>
    case Headers => HeadersResume(boundary, s, b, accept);
    case Body => BodyResume(boundary, s, b, accept);
    case Boundary => assert Step(boundary, s, accept).s == s;
  }

  /** Pausing after the buffered bytes and going on with `b` does what reading both at once does. */
  lemma {:induction false} Resume(boundary: string, s: State, b: string, accept: Receiver)
    requires Steady(accept)
    requires s.phase == Preamble ==> Contains(s.buf, DashBoundaryCrlf(boundary))
    requires Tame(boundary, Append(s, b), accept)
    ensures var x := Run(boundary, s, accept);
            Resumes(boundary, s, x.s, x.outcome, b, accept)
    decreases |s.buf|, if s.phase == NewEntry then 1 else 0
  {
    if s.buf != "" {
      var t := Step(boundary, s, accept);
      if t.Next? {
        StepAppend(boundary, s, b, accept);
        StepLeavesPreamble(boundary, s, accept);
        Resume(boundary, t.s, b, accept);
        var x := Run(boundary, t.s, accept);
        assert Run(boundary, s, accept) == x;
        assert Run(boundary, Append(s, b), accept) == Run(boundary, Append(t.s, b), accept);
      } else {
        StopResumes(boundary, s, b, accept);
      }
    }
  }

  lemma StepLeavesPreamble(boundary: string, s: State, accept: Receiver)
    requires s.buf != "" && Step(boundary, s, accept).Next?
    ensures Step(boundary, s, accept).s.phase != Preamble
  {
  }

  /** Two calls of parse against one: same state, same callbacks up to the cutting of content. */
  lemma Confluence(boundary: string, s: State, a: string, b: string, accept: Receiver)
    requires Steady(accept)
    requires s.phase == Preamble ==> Contains(s.buf + a, DashBoundaryCrlf(boundary))
    requires Tame(boundary, Append(s, a + b), accept)
    ensures var x := Parse(boundary, s, a, accept);
            var whole := Parse(boundary, s, a + b, accept);
            && x.outcome in {More, Malformed, Refused}
            && (x.outcome == Malformed ==> whole.outcome == Malformed && whole.s.trace == x.s.trace)
            && (x.outcome == Refused ==> whole.outcome == Refused && UpTo(Replay(x.s.trace), Replay(whole.s.trace)))
            && (x.outcome == More ==>
                  var y := Parse(boundary, x.s, b, accept);
                  y.outcome == whole.outcome && SimEnd(y.s, y.outcome, whole.s))
  {
    hide Run, Tame, Replay;
    assert s.buf + (a + b) == (s.buf + a) + b;
    Resume(boundary, Append(s, a), b, accept);
  }

  /** Any number of calls against one. */
  lemma {:induction false} SliceIndependence(boundary: string, s: State, slices: seq<string>, accept: Receiver)
    requires Steady(accept) && slices != []
    requires s.phase == Preamble ==> Contains(s.buf + slices[0], DashBoundaryCrlf(boundary))
    requires Tame(boundary, Append(s, Concat(slices)), accept)
    ensures var sliced := ParseSlices(boundary, s, slices, accept);
            var whole := Parse(boundary, s, Concat(slices), accept);
            && sliced.outcome == whole.outcome
            && (whole.outcome == More ==> Sim(sliced.s, whole.s))
            && if whole.outcome == Refused then UpTo(Replay(sliced.s.trace), Replay(whole.s.trace))
               else Replay(sliced.s.trace) == Replay(whole.s.trace)
    decreases |slices|
  {
    hide Run, Tame, Replay;
    var first, rest := slices[0], slices[1..];
    var x := Parse(boundary, s, first, accept);
    var b := Concat(rest);
    assert s.buf + (first + b) == (s.buf + first) + b;
    Resume(boundary, Append(s, first), b, accept);
    if rest == [] {
      assert first + b == first;
    } else if x.outcome == More {
      SliceIndependence(boundary, x.s, rest, accept);
    }
  }

  lemma StepParts(boundary: string, s: State, accept: Receiver)
    requires s.buf != ""
    ensures var t := Step(boundary, s, accept);
            && |Replay(s.trace)| <= |Replay(t.s.trace)|
            && (s.phase == NewEntry ==> t.Next? && t.s.phase == Headers)
            && (s.phase == Headers ==> if t.Next? then |Replay(s.trace)| < |Replay(t.s.trace)| else t.s.phase == Headers)
  {
    hide Find, OccursAt, HeaderLines, BodyTurn;
    HeaderLinesParts(s, accept);
    BodyTurnCases(CrlfDashBoundary(boundary), s, accept);
  }

  /** Headers cannot be passed without a header callback, and no delivered part is ever taken back. */
  lemma {:induction false} PartsGrow(boundary: string, s: State, accept: Receiver)
    ensures var p := Run(boundary, s, accept).s;
            && |Replay(s.trace)| <= |Replay(p.trace)|
            && (s.phase in {NewEntry, Headers} ==>
                  p.phase in {NewEntry, Headers} || |Replay(s.trace)| < |Replay(p.trace)|)
    decreases |s.buf|, if s.phase == NewEntry then 1 else 0
  {
    hide Find, OccursAt, HeaderLines, BodyTurn, PreambleTurn;
    if s.buf != "" {
      StepParts(boundary, s, accept);
      var t := Step(boundary, s, accept);
      if t.Next? { PartsGrow(boundary, t.s, accept); }
    }
  }

  lemma {:induction false} HeaderLinesParts(s: State, accept: Receiver)
    ensures var t := HeaderLines(s, accept);
            if t.Next? then |Replay(t.s.trace)| == |Replay(s.trace)| + 1
            else t.s.phase == s.phase && |Replay(s.trace)| <= |Replay(t.s.trace)|
    decreases |s.buf|
  {
    hide Find, OccursAt, ReadHeader, HeaderLines;
    HeaderLinesEnd(s, accept);
    var pos := Find(s.buf, CRLF);
    if 0 < pos < |s.buf| {
      match ReadHeader(s.file, s.buf[..pos])
      case None =>
      case Some(file) =>
        HeaderLinesGoOn(s, accept);
        HeaderLinesParts(AfterLine(s, pos, file), accept);
    }
  }

  /** The state in which the closing delimiter leaves the parser. */
  predicate Finished(s: State)
  {
    s.phase == Boundary && s.valid && s.buf == ""
  }

  lemma EpilogueReentry(boundary: string, s: State, t: State, accept: Receiver)
    requires s.phase == t.phase == Boundary && StartsWith(t.buf, CRLF) && s.trace == t.trace
    ensures !Sim(Run(boundary, t, accept).s, s)
  {
    hide HeaderLines, Replay, Find;
    var u := t.(phase := NewEntry, buf := t.buf[2..]);
    assert Step(boundary, t, accept) == Next(u);
    PartsGrow(boundary, u, accept);
  }

  lemma EpilogueAgain(boundary: string, s: State, t: State, accept: Receiver)
    requires s.phase == Boundary && s.valid && s.buf == "" && t == s.(buf := t.buf) && StartsWith(t.buf, DASH_CRLF)
    ensures Run(boundary, t, accept) == Parsed(s, More)
  {
    hide HeaderLines, Find;
    Mismatch(t.buf, CRLF, 0, 0);
    assert Step(boundary, t, accept) == Next(t.(buf := ""));
    assert t.(buf := "") == s;
  }

  /** An epilogue that comes in the same slice as the closing delimiter is dropped; one that comes later is
      harmless exactly when it is empty or begins like a closing delimiter. */
  lemma LateEpilogue(boundary: string, s: State, epilogue: string, accept: Receiver)
    requires Finished(s)
    ensures Sim(Parse(boundary, s, epilogue, accept).s, s) <==> epilogue == "" || StartsWith(epilogue, DASH_CRLF)
  {
    hide HeaderLines, Find, Replay;
    var t := Append(s, epilogue);
    assert t.buf == epilogue;
    if StartsWith(epilogue, DASH_CRLF) {
      EpilogueAgain(boundary, s, t, accept);
    } else if StartsWith(epilogue, CRLF) {
      EpilogueReentry(boundary, s, t, accept);
    } else if epilogue != "" {
      assert Step(boundary, t, accept) == Stop(t, More);
    }
  }

  /** Whole header lines, none of them blank, and perhaps the beginning of another one. */
  predicate LinesOnly(y: string)
    decreases |y|
  {
    var pos := Find(y, CRLF);
    pos == |y| || (0 < pos && ReadHeader(NO_INFO, y[..pos]).Some? && LinesOnly(y[pos + 2..]))
  }

  lemma {:induction false} LinesOnlyWaits(s: State, accept: Receiver)
    ensures var t := HeaderLines(s, accept);
            && (LinesOnly(s.buf) <==> t.Stop? && t.outcome == More)
            && (t.Stop? && t.outcome == More ==> t.s.valid == s.valid && t.s.trace == s.trace)
    decreases |s.buf|
  {
    hide Find, OccursAt, ReadHeader, HeaderLines;
    HeaderLinesEnd(s, accept);
    var pos := Find(s.buf, CRLF);
    if 0 < pos < |s.buf| {
      SameLines(s.file, s.buf[..pos]);
      match ReadHeader(s.file, s.buf[..pos])
      case None =>
      case Some(file) =>
        HeaderLinesGoOn(s, accept);
        LinesOnlyWaits(AfterLine(s, pos, file), accept);
    }
  }

  lemma SameLines(file: Info, line: string)
    ensures ReadHeader(file, line).Some? <==> ReadHeader(NO_INFO, line).Some?
  {
    hide Disposition.MatchDisposition;
  }

  /** A call that returns true, does not change whether the body is complete and adds nothing to the parts. */
  ghost predicate Unnoticed(s: State, p: Parsed)
  {
    p.outcome == More && p.s.valid == s.valid && Replay(p.s.trace) == Replay(s.trace)
  }

  lemma EpilogueHeaders(boundary: string, s: State, accept: Receiver)
    requires s.phase == NewEntry
    ensures Unnoticed(s, Run(boundary, s, accept))
       <==> Find(s.buf, CRLF) <= HEADER_MAX_LENGTH && LinesOnly(s.buf)
  {
    hide HeaderLines, LinesOnly, Replay, Find, ReadHeader;
    var t := s.(phase := Headers, file := NO_INFO);
    LinesOnlyWaits(t, accept);
    if s.buf == "" {
      NothingLeft(t, accept);
    } else {
      assert Step(boundary, s, accept) == Next(t);
      var u := HeaderLines(t, accept);
      if Find(s.buf, CRLF) <= HEADER_MAX_LENGTH && u.Next? {
        HeaderLinesParts(t, accept);
        PartsGrow(boundary, u.s, accept);
      }
    }
  }

  /** A caller notices an epilogue that comes after the closing delimiter was read - a call returns false, the closing
      delimiter is forgotten or a part appears - unless it does not begin with a line end or has only whole header
      lines behind that. */
  lemma LateEpilogueNoticed(boundary: string, s: State, epilogue: string, accept: Receiver)
    requires Finished(s)
    ensures Unnoticed(s, Parse(boundary, s, epilogue, accept))
       <==> !StartsWith(epilogue, CRLF)
            || (Find(epilogue[2..], CRLF) <= HEADER_MAX_LENGTH && LinesOnly(epilogue[2..]))
  {
    hide HeaderLines, LinesOnly, Replay, Find;
    var t := Append(s, epilogue);
    assert t.buf == epilogue;
    if StartsWith(epilogue, CRLF) {
      var u := t.(phase := NewEntry, buf := epilogue[2..]);
      assert Step(boundary, t, accept) == Next(u);
      EpilogueHeaders(boundary, u, accept);
    } else if StartsWith(epilogue, DASH_CRLF) {
      EpilogueAgain(boundary, s, t, accept);
    } else if epilogue != "" {
      assert Step(boundary, t, accept) == Stop(t, More);
    }
  }
}
