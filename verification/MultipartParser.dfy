/** The parser object: a compacting buffer and the loop that works on it. */
module MultipartParser {
  import opened Text
  import opened Wrappers
  import opened MultipartSpec

  class MultipartFormDataParser {
    var boundary: string
    var dashBoundaryCrlf: string
    var crlfDashBoundary: string
    var phase: Phase
    var valid: bool
    var file: Info
    var buf: array<char>
    var spos: nat
    var epos: nat
    /** The callbacks made so far; the receiver's answers depend on it. */
    var trace: Trace

    ghost predicate Valid()
      reads this
    {
      && spos <= epos <= buf.Length
      && dashBoundaryCrlf == DashBoundaryCrlf(boundary)
      && crlfDashBoundary == CrlfDashBoundary(boundary)
    }

    ghost function Data(): string
      requires Valid()
      reads this, buf
    {
      buf[spos..epos]
    }

    ghost function Abs(): State
      requires Valid()
      reads this, buf
    {
      State(phase, valid, file, Data(), trace)
    }

    /** A fresh parser with its boundary set. */
    constructor (boundary: string)
      ensures Valid() && fresh(buf)
      ensures Abs() == INITIAL && this.boundary == boundary
    {
      this.boundary := boundary;
      dashBoundaryCrlf := DashBoundaryCrlf(boundary);
      crlfDashBoundary := CrlfDashBoundary(boundary);
      phase, valid, file, trace := Preamble, false, NO_INFO, Start;
      buf := new char[0];
      spos, epos := 0, 0;
    }

    method StartWithAt(pos: nat, pat: string) returns (r: bool)
      requires Valid() && spos <= pos <= epos
      ensures r == OccursAt(Data(), pat, pos - spos)
    {
      if epos - pos < |pat| { return false; }
      ghost var data := Data();
      var i := 0;
      while i < |pat|
        invariant 0 <= i <= |pat|
        invariant data[pos - spos..pos - spos + i] == pat[..i]
      {
        assert buf[pos + i] == data[pos - spos + i];
        if buf[pos + i] != pat[i] {
          Mismatch(data, pat, pos - spos, i);
          return false;
        }
        i := i + 1;
      }
      return true;
    }

    /** buf_start_with */
    method BufStartWith(pat: string) returns (r: bool)
      requires Valid()
      ensures r == StartsWith(Data(), pat)
    {
      r := StartWithAt(spos, pat);
    }

    /** buf_find */
    method BufFind(pat: string) returns (r: nat)
      requires Valid() && pat != ""
      ensures r == Find(Data(), pat)
    {
      ghost var data := Data();
      var c := pat[0];
      var off := spos;
      while off < epos
        invariant spos <= off <= epos
        invariant forall k :: 0 <= k < off - spos ==> !OccursAt(data, pat, k)
      {
        var pos := off;
        while true
          invariant off <= pos <= epos
          invariant forall k :: 0 <= k < pos - spos ==> !OccursAt(data, pat, k)
          decreases epos - pos
        {
          if pos == epos {
            FindUnique(data, pat, |data|);
            return epos - spos;
          }
          assert buf[pos] == data[pos - spos];
          if buf[pos] == c { break; }
          Mismatch(data, pat, pos - spos, 0);
          pos := pos + 1;
        }
        if |pat| > epos - pos {
          FindUnique(data, pat, |data|);
          return epos - spos;
        }
        var hit := StartWithAt(pos, pat);
        if hit {
          FindUnique(data, pat, pos - spos);
          return pos - spos;
        }
        off := pos + 1;
      }
      FindUnique(data, pat, |data|);
      return epos - spos;
    }

    /** The unread bytes move to the front of the buffer. */
    method Compact()
      requires Valid()
      modifies this`spos, this`epos, buf
      ensures Valid() && spos == 0 && Data() == old(Data())
    {
      ghost var was := Data();
      var remaining := epos - spos;
      if remaining > 0 && spos > 0 {
        var i := 0;
        while i < remaining
          invariant 0 <= i <= remaining
          invariant forall k :: 0 <= k < i ==> buf[k] == was[k]
          invariant forall k :: i <= k < remaining ==> buf[spos + k] == was[k]
          modifies buf
        {
          buf[i] := buf[spos + i];
          i := i + 1;
        }
      }
      assert buf[..remaining] == was;
      spos := 0;
      epos := remaining;
    }

    /** The buffer grows to `n` bytes when it is smaller. */
    method Resize(n: nat)
      requires Valid() && spos == 0
      modifies this`buf
      ensures Valid() && n <= buf.Length && Data() == old(Data())
      ensures buf == old(buf) || fresh(buf)
    {
      if n > buf.Length {
        var bigger := new char[n](_ => '\0');
        forall k | 0 <= k < buf.Length {
          bigger[k] := buf[k];
        }
        assert bigger[spos..epos] == buf[spos..epos];
        buf := bigger;
      }
    }

    /** The new bytes go behind the kept ones. */
    method Extend(data: string)
      requires Valid() && spos == 0 && epos + |data| <= buf.Length
      modifies buf
      ensures Valid() && buf[..epos + |data|] == old(Data()) + data
    {
      ghost var was := Data();
      var i := 0;
      while i < |data|
        invariant 0 <= i <= |data|
        invariant forall k :: 0 <= k < epos ==> buf[k] == was[k]
        invariant forall k :: 0 <= k < i ==> buf[epos + k] == data[k]
      {
        buf[epos + i] := data[i];
        i := i + 1;
      }
      IsConcatenation(buf[..epos + |data|], was, data);
    }

    /** buf_append */
    method BufAppend(data: string)
      requires Valid()
      modifies this`spos, this`epos, this`buf, buf
      ensures Valid() && (buf == old(buf) || fresh(buf))
      ensures Data() == old(Data()) + data
    {
      ghost var was := Data();
      Compact();
      Resize(epos + |data|);
      Extend(data);
      epos := epos + |data|;
    }

    method BufErase(n: nat)
      requires Valid() && n <= epos - spos
      modifies this`spos
      ensures Valid() && Data() == old(Data())[n..]
    {
      spos := spos + n;
    }

    method BufHead(n: nat) returns (r: string)
      requires Valid() && n <= epos - spos
      ensures r == Data()[..n]
    {
      r := buf[spos..spos + n];
    }

    /** What a turn did: it went on, or it made parse return. */
    ghost predicate Took(turn: Turn, stop: Option<Outcome>)
      requires Valid()
      reads this, buf
    {
      turn == match stop case None => Next(Abs()) case Some(outcome) => Stop(Abs(), outcome)
    }

    method PreamblePhase() returns (stop: Option<Outcome>)
      requires Valid() && phase == Preamble && dashBoundaryCrlf != ""
      modifies this`spos, this`phase
      ensures Valid() && Took(PreambleTurn(dashBoundaryCrlf, old(Abs())), stop)
    {
      hide DashBoundaryCrlf, CrlfDashBoundary, Find, OccursAt, StartsWith;
      ghost var s := Abs();
      var pos := BufFind(dashBoundaryCrlf);
      ghost var rest := s.buf[pos..];
      PreambleTurnCases(dashBoundaryCrlf, s, pos, rest);
      hide PreambleTurn;
      BufErase(pos);
      assert Data() == rest;
      if |dashBoundaryCrlf| > epos - spos { return Some(More); }
      var found := BufStartWith(dashBoundaryCrlf);
      if !found { return Some(Malformed); }
      BufErase(|dashBoundaryCrlf|);
      phase := NewEntry;
      return None;
    }

    /** The inner loop of the header phase, entered with the end of the first line already searched. */
    method HeaderLoop(first: nat, accept: Receiver) returns (stop: Option<Outcome>)
      requires Valid() && phase == Headers && first == Find(Data(), CRLF)
      modifies this`spos, this`file, this`phase, this`valid, this`trace
      ensures Valid() && Took(HeaderLines(old(Abs()), accept), stop)
    {
      hide ReadHeader, Find, OccursAt, HeaderLines;
      var pos := first;
      while pos < epos - spos
        invariant Valid() && phase == Headers
        invariant pos == Find(Data(), CRLF)
        invariant HeaderLines(Abs(), accept) == HeaderLines(old(Abs()), accept)
        decreases epos - spos
      {
        ghost var s := Abs();
        HeaderLinesEnd(s, accept);
        if pos == 0 {
          trace := Then(trace, Header(file));
          if !accept(trace) {
            valid := false;
            return Some(Refused);
          }
          BufErase(2);
          phase := Body;
          return None;
        }
        var header := BufHead(pos);
        match ReadHeader(file, header) {
          case Some(f) =>
            file := f;
          case None =>
            valid := false;
            return Some(Malformed);
        }
        BufErase(pos + 2);
        HeaderLinesGoOn(s, accept);
        pos := BufFind(CRLF);
      }
      HeaderLinesEnd(Abs(), accept);
      return Some(More);
    }

    method HeaderPhase(accept: Receiver) returns (stop: Option<Outcome>)
      requires Valid() && phase == Headers && Data() != ""
      modifies this`spos, this`file, this`phase, this`valid, this`trace
      ensures Valid() && Took(Step(boundary, old(Abs()), accept), stop)
      ensures stop.None? ==> epos - spos < old(epos - spos)
    {
      hide ReadHeader, HeaderLines;
      var pos := BufFind(CRLF);
      if pos > HEADER_MAX_LENGTH { return Some(TooLong); }
      stop := HeaderLoop(pos, accept);
    }

    method BodyPhase(accept: Receiver) returns (stop: Option<Outcome>)
      requires Valid() && phase == Body && crlfDashBoundary != ""
      modifies this`spos, this`phase, this`valid, this`trace
      ensures Valid() && Took(BodyTurn(crlfDashBoundary, old(Abs()), accept), stop)
    {
      hide DashBoundaryCrlf, CrlfDashBoundary, Find, OccursAt, BodyTurn;
      BodyTurnCases(crlfDashBoundary, Abs(), accept);
      if |crlfDashBoundary| > epos - spos { return Some(More); }
      var pos := BufFind(crlfDashBoundary);
      if pos < epos - spos {
        stop := TakeContent(pos, accept);
        if stop.None? {
          BufErase(pos + |crlfDashBoundary|);
          phase := Boundary;
        }
      } else {
        stop := PassContent(epos - spos - |crlfDashBoundary|, accept);
      }
    }

    /** The first `len` bytes go to the receiver, and parse returns. */
    method PassContent(len: nat, accept: Receiver) returns (stop: Option<Outcome>)
      requires Valid() && len <= epos - spos
      modifies this`spos, this`valid, this`trace
      ensures Valid() && stop.Some?
      ensures var (s, trace) := (old(Abs()), Then(old(trace), Content(old(Data())[..len])));
              Stop(Abs(), stop.value)
              == if len == 0 then Stop(s, More)
                 else if accept(trace) then Stop(s.(buf := s.buf[len..], trace := trace), More)
                 else Stop(s.(valid := false, trace := trace), Refused)
    {
      if len > 0 {
        stop := TakeContent(len, accept);
        if stop.Some? { return; }
        BufErase(len);
      }
      return Some(More);
    }

    /** The content callback on the first `n` unread bytes. */
    method TakeContent(n: nat, accept: Receiver) returns (stop: Option<Outcome>)
      requires Valid() && n <= epos - spos
      modifies this`valid, this`trace
      ensures Valid() && trace == Then(old(trace), Content(Data()[..n]))
      ensures stop == if accept(trace) then None else Some(Refused)
      ensures valid == (old(valid) && accept(trace))
    {
      var data := BufHead(n);
      trace := Then(trace, Content(data));
      if accept(trace) { return None; }
      valid := false;
      return Some(Refused);
    }

    method BoundaryPhase() returns (stop: Option<Outcome>)
      requires Valid() && phase == Boundary
      modifies this`spos, this`phase, this`valid
      ensures Valid() && Took(BoundaryTurn(old(Abs())), stop)
    {
      hide DashBoundaryCrlf, CrlfDashBoundary, StartsWith;
      if |CRLF| > epos - spos { return Some(More); }
      var next := BufStartWith(CRLF);
      if next {
        BufErase(|CRLF|);
        phase := NewEntry;
        return None;
      }
      if |DASH_CRLF| > epos - spos { return Some(More); }
      var closing := BufStartWith(DASH_CRLF);
      if !closing { return Some(More); }
      BufErase(|DASH_CRLF|);
      valid := true;
      BufErase(epos - spos);
      assert Data() == "";
      return None;
    }

    /** The body of parse's loop. */
    method OneTurn(accept: Receiver) returns (stop: Option<Outcome>)
      requires Valid() && epos > spos
      modifies this`spos, this`file, this`phase, this`valid, this`trace
      ensures Valid() && Took(Step(boundary, old(Abs()), accept), stop)
    {
      hide Step, PreambleTurn, HeaderLines, BodyTurn, BoundaryTurn, DashBoundaryCrlf, CrlfDashBoundary;
      ghost var before := Abs();
      stop := None;
      match phase {
        case Preamble =>
          PreambleStep(boundary, before, accept);
          stop := PreamblePhase();
        case NewEntry =>
          file, phase := NO_INFO, Headers;
          NewEntryStep(boundary, before, accept);
        case Headers => stop := HeaderPhase(accept);
        case Body =>
          BodyStep(boundary, before, accept);
          stop := BodyPhase(accept);
        case Boundary =>
          BoundaryStep(boundary, before, accept);
          stop := BoundaryPhase();
      }
    }

    /** One call of parse: it does to the object what the function Parse does to its state. */
    method Parse(data: string, accept: Receiver) returns (ok: bool)
      requires Valid()
      modifies this, buf
      ensures Valid() && (buf == old(buf) || fresh(buf)) && boundary == old(boundary)
      ensures var p := MultipartSpec.Parse(boundary, old(Abs()), data, accept);
              Abs() == p.s && (ok <==> p.outcome == More)
    {
      hide Step;
      BufAppend(data);
      ghost var start := Abs();
      while epos - spos > 0
        invariant Valid() && boundary == old(boundary) && (buf == old(buf) || fresh(buf))
        invariant Run(boundary, Abs(), accept) == Run(boundary, start, accept)
        decreases epos - spos, if phase == NewEntry then 1 else 0
      {
        var stop := OneTurn(accept);
        if stop.Some? { return stop.value == More; }
      }
      return true;
    }

    /** A body that comes in slices, up to the first call that fails. */
    method ParseAll(slices: seq<string>, accept: Receiver) returns (ok: bool)
      requires Valid()
      modifies this, buf
      ensures Valid() && boundary == old(boundary)
      ensures var p := ParseSlices(boundary, old(Abs()), slices, accept);
              Abs() == p.s && (ok <==> p.outcome == More)
    {
      hide MultipartSpec.Parse;
      ghost var start := Abs();
      var i := 0;
      while i < |slices|
        invariant 0 <= i <= |slices|
        invariant Valid() && boundary == old(boundary) && (buf == old(buf) || fresh(buf))
        invariant ParseSlices(boundary, start, slices, accept) == ParseSlices(boundary, Abs(), slices[i..], accept)
      {
        ok := Parse(slices[i], accept);
        if !ok { return; }
        assert slices[i..][1..] == slices[i + 1..];
        i := i + 1;
      }
      return true;
    }
  }

  lemma IsConcatenation(s: string, a: string, b: string)
    requires |s| == |a| + |b|
    requires forall k :: 0 <= k < |a| ==> s[k] == a[k]
    requires forall k :: 0 <= k < |b| ==> s[|a| + k] == b[k]
    ensures s == a + b
  {
    assert s[..|a|] == a && s[|a|..] == b;
  }

  lemma PreambleTurnCases(line: string, s: State, pos: nat, rest: string)
    requires line != "" && pos == Find(s.buf, line) && rest == s.buf[pos..]
    ensures |line| > |rest| ==> PreambleTurn(line, s) == Stop(s.(buf := rest), More)
    ensures |line| <= |rest| && !StartsWith(rest, line) ==> PreambleTurn(line, s) == Stop(s.(buf := rest), Malformed)
    ensures |line| <= |rest| && StartsWith(rest, line) ==>
              PreambleTurn(line, s) == Next(s.(phase := NewEntry, buf := rest[|line|..]))
  {
  }

  lemma PreambleStep(boundary: string, s: State, accept: Receiver)
    requires s.buf != "" && s.phase == Preamble
    ensures DashBoundaryCrlf(boundary) != ""
    ensures Step(boundary, s, accept) == PreambleTurn(DashBoundaryCrlf(boundary), s)
  {
  }

  lemma BoundaryStep(boundary: string, s: State, accept: Receiver)
    requires s.buf != "" && s.phase == Boundary
    ensures Step(boundary, s, accept) == BoundaryTurn(s)
  {
  }

  lemma NewEntryStep(boundary: string, s: State, accept: Receiver)
    requires s.buf != "" && s.phase == NewEntry
    ensures Step(boundary, s, accept) == Next(s.(phase := Headers, file := NO_INFO))
  {
  }
}
