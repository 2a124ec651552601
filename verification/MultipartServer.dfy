/** The round trip with the receiver that a server uses when no handler brings its own. */
module MultipartServer {
  import opened Text
  import opened MultipartSpec
  import opened MultipartSlices
  import opened MultipartRoundTrip

  /** CPPHTTPLIB_MULTIPART_FORM_DATA_FILE_MAX_COUNT */
  const FILE_MAX_COUNT := 1024

  /** The answers of the server's own receiver: a limit on the number of parts and on the size of one. */
  function ServerAnswer(trace: Trace, maxSize: nat): bool
  {
    match trace
    case Start => true
    case Then(earlier, Header(_)) => |Replay(earlier)| != FILE_MAX_COUNT
    case Then(_, Content(_)) =>
      var parts := Replay(trace);
      parts != [] && |parts[|parts| - 1].content| <= maxSize
  }

  function ServerReceiver(maxSize: nat): Receiver
  {
    trace => ServerAnswer(trace, maxSize)
  }

  lemma ServerIsSteady(maxSize: nat)
    ensures Steady(ServerReceiver(maxSize))
  {
    forall t, x, n: nat | n <= |x| && ServerAnswer(Then(t, Content(x)), maxSize)
      ensures ServerAnswer(Then(t, Content(x[..n])), maxSize)
    {
      var p := Replay(t);
      assert Replay(Then(t, Content(x))) == Deliver(p, Content(x));
      assert Replay(Then(t, Content(x[..n]))) == Deliver(p, Content(x[..n]));
    }
  }

  /** Every callback of the trace was answered with true. */
  predicate Takes(accept: Receiver, trace: Trace)
  {
    match trace
    case Start => true
    case Then(earlier, _) => accept(trace) && Takes(accept, earlier)
  }

  /** What a receiver does to a turn that everything is accepted in. */
  ghost predicate Answers(accept: Receiver, s: State, all: Turn, t: Turn)
  {
    if all.s.trace == s.trace then t == all
    else all.s.trace.Then? && all.s.trace.earlier == s.trace &&
         if accept(all.s.trace) then t == all else t.Stop? && t.outcome == Refused
  }

  lemma {:induction false} HeaderLinesAnswer(s: State, all: Receiver, accept: Receiver)
    requires AcceptsAll(all)
    ensures Answers(accept, s, HeaderLines(s, all), HeaderLines(s, accept))
    ensures HeaderLines(s, all).Stop? ==> HeaderLines(s, all).s.trace == s.trace
    decreases |s.buf|
  {
    hide Find, OccursAt, ReadHeader, HeaderLines;
    HeaderLinesEnd(s, all);
    HeaderLinesEnd(s, accept);
    var pos := Find(s.buf, CRLF);
    if 0 < pos < |s.buf| {
      match ReadHeader(s.file, s.buf[..pos])
      case None =>
      case Some(file) =>
        HeaderLinesGoOn(s, all);
        HeaderLinesGoOn(s, accept);
        HeaderLinesAnswer(AfterLine(s, pos, file), all, accept);
    }
  }

  lemma StepAnswer(boundary: string, s: State, all: Receiver, accept: Receiver)
    requires AcceptsAll(all) && s.buf != ""
    ensures Answers(accept, s, Step(boundary, s, all), Step(boundary, s, accept))
  {
    hide Find, OccursAt, HeaderLines, BodyTurn;
    if s.phase == Headers { HeaderLinesAnswer(s, all, accept); }
    BodyTurnCases(CrlfDashBoundary(boundary), s, all);
    BodyTurnCases(CrlfDashBoundary(boundary), s, accept);
  }

  /** A run is the one in which everything is accepted, or ends at the first refusal. */
  lemma {:induction false} RunAnswer(boundary: string, s: State, all: Receiver, accept: Receiver)
    requires AcceptsAll(all) && Takes(accept, s.trace)
    ensures var p := Run(boundary, s, all);
            if Takes(accept, p.s.trace) then Run(boundary, s, accept) == p
            else Run(boundary, s, accept).outcome == Refused
    decreases |s.buf|, if s.phase == NewEntry then 1 else 0
  {
    hide Step;
    if s.buf != "" {
      StepAnswer(boundary, s, all, accept);
      var t := Step(boundary, s, all);
      if Takes(accept, t.s.trace) {
        if t.Next? { RunAnswer(boundary, t.s, all, accept); }
      } else if t.Next? {
        NeverTaken(boundary, t.s, all, accept);
      }
    }
  }

  lemma {:induction false} NeverTaken(boundary: string, s: State, all: Receiver, accept: Receiver)
    requires AcceptsAll(all) && !Takes(accept, s.trace)
    ensures !Takes(accept, Run(boundary, s, all).s.trace)
    decreases |s.buf|, if s.phase == NewEntry then 1 else 0
  {
    hide Step;
    if s.buf != "" {
      StepAnswer(boundary, s, all, accept);
      var t := Step(boundary, s, all);
      if t.Next? { NeverTaken(boundary, t.s, all, accept); }
    }
  }

  lemma {:induction false} TameAnswer(boundary: string, s: State, all: Receiver, accept: Receiver)
    requires AcceptsAll(all) && Tame(boundary, s, all)
    ensures Tame(boundary, s, accept)
    decreases |s.buf|, if s.phase == NewEntry then 1 else 0
  {
    hide Step, LinesShort;
    if s.buf != "" {
      StepAnswer(boundary, s, all, accept);
      var t := Step(boundary, s, all);
      if t.Next? { TameAnswer(boundary, t.s, all, accept); }
    }
  }

  /** The server's limits hold for a list of items. */
  predicate WithinLimits(items: seq<Part>, maxSize: nat)
  {
    |items| <= FILE_MAX_COUNT && forall item :: item in items ==> |item.content| <= maxSize
  }

  lemma {:induction false} ServerTakes(items: seq<Part>, maxSize: nat)
    ensures Takes(ServerReceiver(maxSize), Callbacks(Start, items)) <==> WithinLimits(items, maxSize)
    decreases |items|
  {
    hide Replay, WithinLimits, ServerAnswer;
    if items == [] {
      NothingIsWithinLimits(maxSize);
    } else {
      var (front, item) := (items[..|items| - 1], items[|items| - 1]);
      ServerTakes(front, maxSize);
      CallbacksSnoc(Start, items);
      ReplayFromStart(front);
      ItemTaken(Callbacks(Start, front), front, item, maxSize);
      LimitsSnoc(items, maxSize);
    }
  }

  lemma NothingIsWithinLimits(maxSize: nat)
    ensures WithinLimits([], maxSize)
  {
  }

  lemma LimitsSnoc(items: seq<Part>, maxSize: nat)
    requires items != []
    ensures WithinLimits(items, maxSize)
       <==> WithinLimits(items[..|items| - 1], maxSize) && |items| - 1 != FILE_MAX_COUNT
            && |items[|items| - 1].content| <= maxSize
  {
    assert items == items[..|items| - 1] + [items[|items| - 1]];
  }

  lemma ReplayFromStart(items: seq<Part>)
    ensures Replay(Callbacks(Start, items)) == items
  {
    ReplayCallbacks(Start, items);
    assert [] + items == items;
  }

  lemma ItemTaken(t: Trace, front: seq<Part>, item: Part, maxSize: nat)
    requires Replay(t) == front
    ensures var u := Then(t, Header(item.info));
            && (ServerAnswer(u, maxSize) <==> |front| != FILE_MAX_COUNT)
            && (ServerAnswer(Then(u, Content(item.content)), maxSize) <==> |item.content| <= maxSize)
  {
    var u := Then(t, Header(item.info));
    assert Replay(u) == front + [Part(item.info, "")];
    assert Replay(Then(u, Content(item.content))) == Deliver(front + [Part(item.info, "")], Content(item.content));
    assert "" + item.content == item.content;
  }

  lemma {:induction false} CallbacksSnoc(trace: Trace, items: seq<Part>)
    requires items != []
    ensures var (front, item) := (items[..|items| - 1], items[|items| - 1]);
            Callbacks(trace, items)
            == Then(Then(Callbacks(trace, front), Header(item.info)), Content(item.content))
    decreases |items|
  {
    if |items| > 1 {
      assert items[1..][..|items| - 2] == items[..|items| - 1][1..];
      CallbacksSnoc(Then(Then(trace, Header(items[0].info)), Content(items[0].content)), items[1..]);
    }
  }

  /** The server gets the printed items from any slices if they are within its limits, and refuses the body if not. */
  lemma ServerReceives(boundary: string, items: seq<Part>, slices: seq<string>, maxSize: nat)
    requires CR !in boundary && items != [] && PrintableItems(items, boundary)
    requires Concat(slices) == FormData(items, boundary)
    requires slices != [] && |slices[0]| >= |DashBoundaryCrlf(boundary)|
    ensures var p := ParseSlices(boundary, INITIAL, slices, ServerReceiver(maxSize));
            if WithinLimits(items, maxSize) then p.outcome == More && Finished(p.s) && Replay(p.s.trace) == items
            else p.outcome == Refused
  {
    hide Run, Tame, FormData, Steady, ServerReceiver, PrintableItems, WithinLimits, Callbacks;
    var data := FormData(items, boundary);
    var all: Receiver := _ => true;
    var accept := ServerReceiver(maxSize);
    var s := Append(INITIAL, data);
    PrintableIsReadable(items, boundary);
    ParsePrinted(boundary, items, all);
    RunAnswer(boundary, s, all, accept);
    TameAnswer(boundary, s, all, accept);
    ServerTakes(items, maxSize);
    ServerIsSteady(maxSize);
    FirstSliceHoldsLine(boundary, items, slices);
    SliceIndependence(boundary, INITIAL, slices, accept);
  }
}
