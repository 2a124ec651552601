/** The long-poll listener: offsets confirm updates to the server, which then discards them, and flags end the loop. */
module Poll {
  import opened Wrappers

  /** Telegram numbers its updates from 1; an `int` holds the offset. */
  const INT_MAX := 0x7fff_ffff

  type Id = n: int | 1 <= n < INT_MAX witness 1

  datatype Update = Update(id: Id, content: string)

  predicate Increasing(us: seq<Update>)
  {
    forall i, j :: 0 <= i < j < |us| ==> us[i].id < us[j].id
  }

  /** What the world does around one poll: updates that arrive before the server answers, how many the answer may
      hold, at which of its entries an exception is thrown, if any, and the stops called meanwhile. */
  datatype Turn = Turn(arrivals: seq<Update>, limit: nat, throws: Option<nat>, stop: bool, stopAll: bool)

  function AllArrivals(turns: seq<Turn>): seq<Update>
  {
    if turns == [] then [] else AllArrivals(turns[..|turns| - 1]) + turns[|turns| - 1].arrivals
  }

  /** The service: it keeps updates until a request's offset is beyond them. */
  class Server {
    var discarded: seq<Update>
    var pending: seq<Update>

    constructor ()
      ensures discarded == [] && pending == []
    {
      discarded, pending := [], [];
    }

    /** Every update that ever arrived, in order. */
    ghost function Arrived(): seq<Update>
      reads this
    {
      discarded + pending
    }

    method Arrive(updates: seq<Update>)
      modifies this`pending
      ensures pending == old(pending) + updates
    {
      pending := pending + updates;
    }

    method GetUpdates(offset: int, limit: nat) returns (result: seq<Update>)
      requires Increasing(Arrived())
      modifies this
      ensures Arrived() == old(Arrived()) && old(discarded) <= discarded
      ensures forall i :: |old(discarded)| <= i < |discarded| ==> discarded[i].id < offset
      ensures forall u :: u in pending ==> u.id >= offset
      ensures result == pending[..if limit < |pending| then limit else |pending|]
      ensures Increasing(result)
    {
      while pending != [] && pending[0].id < offset
        invariant Arrived() == old(Arrived()) && old(discarded) <= discarded
        invariant forall i :: |old(discarded)| <= i < |discarded| ==> discarded[i].id < offset
        decreases |pending|
      {
        discarded, pending := discarded + [pending[0]], pending[1..];
      }
      assert forall i :: 0 <= i < |pending| ==> pending[i] == Arrived()[|discarded| + i];
      result := pending[..if limit < |pending| then limit else |pending|];
    }
  }

  class Flag {
    var on: bool

    method TestAndSet() returns (was: bool)
      modifies this
      ensures was == old(on) && on
    {
      was, on := on, true;
    }

    method Clear()
      modifies this
      ensures !on
    {
      on := false;
    }
  }

  /** The offset that confirms all of `us`. */
  function OffsetAfter(us: seq<Update>): int
  {
    if us == [] then 0 else us[|us| - 1].id + 1
  }

  /** The polls of a run: it ends with the first turn that stops it. A stop after the last turn ends it at the latest. */
  function Polls(turns: seq<Turn>): nat
  {
    if turns == [] then 1
    else if Ends(turns[0]) then 1
    else 1 + Polls(turns[1..])
  }

  /** The updates dispatched in a turn that finds `rest` undispatched. */
  function Answer(turn: Turn, rest: seq<Update>): seq<Update>
  {
    var n := if turn.limit < |rest| then turn.limit else |rest|;
    rest[..if turn.throws.Some? && turn.throws.value < n then turn.throws.value else n]
  }

  lemma AnswerIs(turn: Turn, rest: seq<Update>, n: nat)
    ensures var limit := if turn.limit < |rest| then turn.limit else |rest|;
            n == (if turn.throws.Some? && turn.throws.value < limit then turn.throws.value else limit)
            ==> rest[..limit][..n] == Answer(turn, rest)
  {
  }

  predicate Ends(turn: Turn)
  {
    turn.stop || turn.stopAll || turn.throws.Some?
  }

  /** All that a run dispatches. */
  function Served(rest: seq<Update>, turns: seq<Turn>): seq<Update>
    decreases |turns|
  {
    if turns == [] then []
    else
      var found := rest + turns[0].arrivals;
      var now := Answer(turns[0], found);
      if Ends(turns[0]) then now else now + Served(found[|now|..], turns[1..])
  }

  lemma ServedFrom(rest: seq<Update>, turns: seq<Turn>, n: nat)
    requires n <= |turns|
    ensures var turn := if n < |turns| then turns[n] else LAST_TURN;
            var found := rest + turn.arrivals;
            var now := Answer(turn, found);
            Served(rest, turns[n..]) == if Ends(turn) then now else now + Served(found[|now|..], turns[n + 1..])
  {
    if n < |turns| { assert turns[n..][0] == turns[n] && turns[n..][1..] == turns[n + 1..]; }
  }

  /** What is undispatched after a turn. */
  lemma RestStep(arrived: seq<Update>, a: seq<Update>, arrivals: seq<Update>, now: seq<Update>)
    requires a <= arrived && now <= arrived[|a|..] + arrivals
    ensures (arrived + arrivals)[|a|..] == arrived[|a|..] + arrivals
    ensures (arrived + arrivals)[|a + now|..] == (arrived[|a|..] + arrivals)[|now|..]
  {
  }

  const LAST_TURN := Turn([], 0, None, true, false)

  lemma {:induction false} PollsFrom(turns: seq<Turn>, i: nat)
    requires i < |turns|
    ensures var t := turns[i];
            Polls(turns[i..]) == if Ends(t) then 1 else 1 + Polls(turns[i + 1..])
  {
    assert turns[i..][0] == turns[i] && turns[i..][1..] == turns[i + 1..];
  }

  /** How many updates at the front are below an offset. */
  function Below(us: seq<Update>, offset: int): nat
  {
    if us == [] || us[0].id >= offset then 0 else 1 + Below(us[1..], offset)
  }

  lemma {:induction false} BelowIs(a: seq<Update>, rest: seq<Update>, offset: int)
    requires forall i :: 0 <= i < |a| ==> a[i].id < offset
    requires forall u :: u in rest ==> u.id >= offset
    ensures Below(a + rest, offset) == |a|
  {
    if a == [] {
      assert a + rest == rest;
    } else {
      assert (a + rest)[0] == a[0] && (a + rest)[1..] == a[1..] + rest;
      BelowIs(a[1..], rest, offset);
    }
  }

  /** The offset after a stretch of the arrivals is above it and not above what follows. */
  lemma OffsetSeparates(arrived: seq<Update>, b: nat, done: seq<Update>)
    requires Increasing(arrived) && b + |done| <= |arrived| && arrived[b..b + |done|] == done
    ensures forall i :: 0 <= i < |done| ==> done[i].id < OffsetAfter(done)
    ensures forall u :: u in arrived[b + |done|..] ==> u.id >= OffsetAfter(done)
  {
    assert forall i :: 0 <= i < |done| ==> done[i] == arrived[b + i];
  }

  /** After `done` was dispatched, the server's answer to the offset it gives begins with the first undispatched
      update. */
  lemma Answered(arrived: seq<Update>, before: seq<Update>, done: seq<Update>, was: seq<Update>, discarded: seq<Update>,
                 pending: seq<Update>)
    requires Increasing(arrived) && arrived == discarded + pending
    requires before + done <= arrived && before <= was <= before + done && was <= discarded
    requires forall i :: |was| <= i < |discarded| ==> discarded[i].id < OffsetAfter(done)
    requires forall u :: u in pending ==> u.id >= OffsetAfter(done)
    ensures discarded == before + done && pending == arrived[|before + done|..]
  {
    hide Increasing, Below;
    var (b, rest, later) := (|before|, arrived[|before + done|..], discarded[|before|..]);
    var offset := OffsetAfter(done);
    assert arrived[b..b + |done|] == done;
    assert rest == arrived[b + |done|..];
    OffsetSeparates(arrived, b, done);
    hide OffsetAfter;
    assert done + rest == arrived[b..] == later + pending;
    assert forall i :: 0 <= i < |later| ==> later[i].id < offset by {
      forall i | 0 <= i < |later| ensures later[i].id < offset {
        assert later[i] == discarded[b + i];
        if b + i < |was| { assert later[i] == was[b + i] == done[i]; }
      }
    }
    BelowIs(done, rest, offset);
    BelowIs(later, pending, offset);
    assert later == (later + pending)[..|later|] == done;
    assert pending == (later + pending)[|later|..] == rest;
    assert discarded == before + later;
  }

  /** Dispatching the first `n` updates of an answer. */
  lemma Advance(arrived: seq<Update>, before: seq<Update>, done: seq<Update>, reply: seq<Update>, n: nat)
    requires before + done <= arrived && reply <= arrived[|before + done|..] && n <= |reply|
    ensures before + (done + reply[..n]) <= arrived && before + done <= before + (done + reply[..n])
    ensures OffsetAfter(done + reply[..n]) == if n == 0 then OffsetAfter(done) else reply[n - 1].id + 1
  {
    var (a, more) := (before + done, reply[..n]);
    assert before + (done + more) == a + more;
    assert more == arrived[|a|..][..n] == arrived[|a|..|a| + n];
    assert a + more == arrived[..|a| + n];
    assert n == 0 ==> done + more == done;
  }

  lemma {:induction false} ArrivalsSoFar(turns: seq<Turn>, n: nat)
    requires n <= |turns|
    ensures AllArrivals(turns[..n]) <= AllArrivals(turns)
    ensures n < |turns| ==> AllArrivals(turns[..n + 1]) == AllArrivals(turns[..n]) + turns[n].arrivals
    decreases |turns|
  {
    if n == |turns| {
      assert turns[..n] == turns;
    } else {
      assert turns[..|turns| - 1][..n] == turns[..n];
      ArrivalsSoFar(turns[..|turns| - 1], n);
      assert turns[..n + 1][..n] == turns[..n];
    }
  }

  lemma IncreasingPrefix(a: seq<Update>, b: seq<Update>)
    requires Increasing(b) && a <= b
    ensures Increasing(a)
  {
    assert forall i :: 0 <= i < |a| ==> a[i] == b[i];
  }

  /** The updates that have arrived before turn `n` and in it. */
  lemma TurnArrives(first: seq<Update>, turns: seq<Turn>, n: nat)
    requires n < |turns| && Increasing(first + AllArrivals(turns))
    ensures first + AllArrivals(turns[..n]) + turns[n].arrivals == first + AllArrivals(turns[..n + 1])
    ensures Increasing(first + AllArrivals(turns[..n + 1]))
  {
    hide AllArrivals, Increasing;
    ArrivalsSoFar(turns, n);
    ArrivalsSoFar(turns, n + 1);
    IncreasingPrefix(first + AllArrivals(turns[..n + 1]), first + AllArrivals(turns));
  }

  lemma RunStarts(turns: seq<Turn>, first: seq<Update>, before: seq<Update>)
    ensures AllArrivals(turns[..0]) == [] && first + [] == first && before + [] == before
    ensures OffsetAfter([]) == 0 && turns[0..] == turns
  {
  }

  lemma TurnStarts(turns: seq<Turn>, first: seq<Update>, n: nat)
    requires n <= |turns| && Increasing(first + AllArrivals(turns))
    ensures var turn := if n < |turns| then turns[n] else LAST_TURN;
            && Increasing(first + AllArrivals(turns[..n]) + turn.arrivals)
            && first + AllArrivals(turns[..n]) + turn.arrivals
                 == first + AllArrivals(turns[..if n < |turns| then n + 1 else n])
            && Polls(turns[n..]) == if Ends(turn) then 1 else 1 + Polls(turns[n + 1..])
  {
    if n < |turns| {
      TurnArrives(first, turns, n);
      PollsFrom(turns, n);
    } else {
      assert turns[..n] == turns && first + AllArrivals(turns) + [] == first + AllArrivals(turns);
    }
  }

  lemma RunEnds(turns: seq<Turn>, first: seq<Update>, arrived: seq<Update>, before: seq<Update>, done: seq<Update>)
    requires Increasing(first + AllArrivals(turns)) && before + done <= arrived <= first + AllArrivals(turns)
    ensures Increasing(done)
  {
    assert forall i :: 0 <= i < |done| ==> done[i] == (first + AllArrivals(turns))[|before| + i];
  }

  /** A turn moves its answer from what is to be served to what was. */
  lemma TurnServes(turns: seq<Turn>, n: nat, whole: seq<Update>, arrived: seq<Update>, before: seq<Update>,
                   done: seq<Update>, more: seq<Update>)
    requires n <= |turns| && before + done <= arrived
    requires whole == done + Served(arrived[|before + done|..], turns[n..])
    requires var turn := if n < |turns| then turns[n] else LAST_TURN;
             more == Answer(turn, (arrived + turn.arrivals)[|before + done|..])
    ensures var turn := if n < |turns| then turns[n] else LAST_TURN;
            whole == if Ends(turn) then done + more
                     else done + more + Served((arrived + turn.arrivals)[|before + (done + more)|..], turns[n + 1..])
  {
    var turn := if n < |turns| then turns[n] else LAST_TURN;
    var a := before + done;
    var rest := arrived[|a|..];
    ServedFrom(rest, turns, n);
    assert (arrived + turn.arrivals)[|a|..] == rest + turn.arrivals;
    var found := rest + turn.arrivals;
    var tail := Served(found[|Answer(turn, found)|..], if n < |turns| then turns[n + 1..] else []);
    hide Served, Answer;
    RestStep(arrived, a, turn.arrivals, more);
    Associates(before, done, more);
    Associates(done, more, tail);
  }

  /** Where a run of the listed turns is: after how many polls, what has arrived, what was dispatched. */
  ghost predicate Along(turns: seq<Turn>, polls: nat, go: bool, first: seq<Update>, arrived: seq<Update>,
                        before: seq<Update>, done: seq<Update>)
  {
    && before <= first && before + done <= arrived && polls <= |turns| + 1
    && arrived == first + AllArrivals(turns[..if polls <= |turns| then polls else |turns|])
    && var whole := Served(first[|before|..], turns);
       if go then
         && polls <= |turns| && polls + Polls(turns[polls..]) == Polls(turns)
         && whole == done + Served(arrived[|before + done|..], turns[polls..])
       else polls == Polls(turns) && whole == done
  }

  lemma AlongStarts(turns: seq<Turn>, first: seq<Update>, before: seq<Update>)
    requires before <= first
    ensures Along(turns, 0, true, first, first, before, [])
  {
    RunStarts(turns, first, before);
    assert [] + Served(first[|before|..], turns) == Served(first[|before|..], turns);
  }

  lemma AlongBounds(turns: seq<Turn>, polls: nat, first: seq<Update>, arrived: seq<Update>, before: seq<Update>,
                    done: seq<Update>)
    requires Along(turns, polls, true, first, arrived, before, done) && Increasing(first + AllArrivals(turns))
    ensures polls <= |turns|
    ensures Increasing(arrived + (if polls < |turns| then turns[polls] else LAST_TURN).arrivals)
  {
    hide Increasing, AllArrivals, Polls, Served;
    TurnStarts(turns, first, polls);
  }

  lemma AlongEnds(turns: seq<Turn>, polls: nat, first: seq<Update>, arrived: seq<Update>, before: seq<Update>,
                  done: seq<Update>)
    requires Along(turns, polls, false, first, arrived, before, done) && Increasing(first + AllArrivals(turns))
    ensures polls == Polls(turns) && done == Served(first[|before|..], turns) && Increasing(done)
    ensures arrived <= first + AllArrivals(turns)
  {
    hide Increasing, AllArrivals, Polls, Served;
    ArrivalsSoFar(turns, if polls <= |turns| then polls else |turns|);
    RunEnds(turns, first, arrived, before, done);
  }

  lemma AlongMoves(turns: seq<Turn>, polls: nat, first: seq<Update>, arrived: seq<Update>, before: seq<Update>,
                   done: seq<Update>, more: seq<Update>)
    requires Along(turns, polls, true, first, arrived, before, done) && Increasing(first + AllArrivals(turns))
    requires var turn := if polls < |turns| then turns[polls] else LAST_TURN;
             && more == Answer(turn, (arrived + turn.arrivals)[|before + done|..])
             && before + (done + more) <= arrived + turn.arrivals
    ensures var turn := if polls < |turns| then turns[polls] else LAST_TURN;
            Along(turns, polls + 1, !Ends(turn), first, arrived + turn.arrivals, before, done + more)
  {
    hide Increasing, AllArrivals, Polls, Served, Answer;
    TurnStarts(turns, first, polls);
    TurnServes(turns, polls, Served(first[|before|..], turns), arrived, before, done, more);
  }

  lemma Associates(a: seq<Update>, b: seq<Update>, c: seq<Update>)
    ensures a + (b + c) == a + b + c
  {
  }

  lemma {:induction false} FirstArrivals(turns: seq<Turn>)
    requires turns != []
    ensures AllArrivals(turns) == turns[0].arrivals + AllArrivals(turns[1..])
    decreases |turns|
  {
    if |turns| == 1 {
      assert turns[..0] == [] && turns[1..] == [];
    } else {
      var (front, rest) := (turns[..|turns| - 1], turns[1..]);
      FirstArrivals(front);
      assert front[1..] == rest[..|rest| - 1];
      assert AllArrivals(rest) == AllArrivals(rest[..|rest| - 1]) + rest[|rest| - 1].arrivals;
      Associates(turns[0].arrivals, AllArrivals(front[1..]), turns[|turns| - 1].arrivals);
    }
  }

  lemma {:induction false} ServedInOrder(rest: seq<Update>, turns: seq<Turn>)
    ensures Served(rest, turns) <= rest + AllArrivals(turns)
    decreases |turns|
  {
    if turns != [] {
      FirstArrivals(turns);
      var found := rest + turns[0].arrivals;
      var now := Answer(turns[0], found);
      var later := AllArrivals(turns[1..]);
      Associates(rest, turns[0].arrivals, later);
      assert found == now + found[|now|..];
      Associates(now, found[|now|..], later);
      if !Ends(turns[0]) { ServedInOrder(found[|now|..], turns[1..]); }
    }
  }

  /** The next run on the same server first repeats what the last poll of this one dispatched, as far as it gets, and
      dispatches nothing else again. */
  lemma NextRunRepeats(confirmed: seq<Update>, answer: seq<Update>, pending: seq<Update>, turns: seq<Turn>)
    requires answer <= pending && Increasing(confirmed + (pending + AllArrivals(turns)))
    ensures var served := Served(pending, turns);
            var k := if |served| < |answer| then |served| else |answer|;
            served[..k] == answer[..k] && forall i :: k <= i < |served| ==> served[i] !in confirmed + answer
  {
    var all := pending + AllArrivals(turns);
    var served := Served(pending, turns);
    var k := if |served| < |answer| then |served| else |answer|;
    ServedInOrder(pending, turns);
    forall i | k <= i < |served| ensures served[i] !in confirmed + answer {
      var x := confirmed + all;
      assert served[i] == x[|confirmed| + i];
      forall j | 0 <= j < |confirmed + answer| ensures (confirmed + answer)[j] != served[i] {
        assert (confirmed + answer)[j] == x[j];
      }
    }
  }

  class Listener {
    const server: Server
    const keepRunning: Flag
    const keepRunningGlobal: Flag
    var dispatched: seq<Update>

    constructor (server: Server, keepRunningGlobal: Flag)
      ensures this.server == server && this.keepRunningGlobal == keepRunningGlobal && fresh(keepRunning) && dispatched == []
    {
      this.server, this.keepRunningGlobal := server, keepRunningGlobal;
      keepRunning := new Flag;
      dispatched := [];
    }

    method Stop()
      modifies keepRunning
      ensures !keepRunning.on
    {
      keepRunning.Clear();
    }

    method StopAll()
      modifies keepRunningGlobal
      ensures !keepRunningGlobal.on
    {
      keepRunningGlobal.Clear();
    }

    /** The loop's guard; the second flag is not touched when the first is off. */
    method KeepsRunning() returns (go: bool)
      requires keepRunning != keepRunningGlobal
      modifies keepRunning, keepRunningGlobal
      ensures go == (old(keepRunning.on) && old(keepRunningGlobal.on)) && keepRunning.on
      ensures keepRunningGlobal.on == (old(keepRunning.on) || old(keepRunningGlobal.on))
    {
      go := keepRunning.TestAndSet();
      if go { go := keepRunningGlobal.TestAndSet(); }
    }

    /** Dispatches the entries of one answer, all of them or those before the exception. */
    method DispatchAll(reply: seq<Update>, throws: Option<nat>, offset: int) returns (offset': int, n: nat)
      requires Increasing(reply) && forall u :: u in reply ==> u.id >= offset
      modifies this`dispatched
      ensures n == if throws.Some? && throws.value < |reply| then throws.value else |reply|
      ensures dispatched == old(dispatched) + reply[..n]
      ensures offset' == if n == 0 then offset else reply[n - 1].id + 1
    {
      offset', n := offset, 0;
      while n < |reply| && throws != Some(n)
        invariant 0 <= n <= |reply| && (throws.Some? ==> n <= throws.value)
        invariant dispatched == old(dispatched) + reply[..n]
        invariant offset' == if n == 0 then offset else reply[n - 1].id + 1
      {
        var id := reply[n].id;
        if id != 0 { offset' := if id + 1 > offset' then id + 1 else offset'; }
        assert reply[..n + 1] == reply[..n] + [reply[n]];
        dispatched := dispatched + [reply[n]];
        n := n + 1;
      }
    }

    ghost predicate Separate()
    {
      && this as object !in {server, keepRunning, keepRunningGlobal}
      && server as object !in {keepRunning, keepRunningGlobal}
      && keepRunning != keepRunningGlobal
    }

    /** The state of a run between polls: `before` are the updates discarded before the run, `done` those dispatched
        in it. Nothing is skipped, and nothing undispatched is discarded. */
    ghost predicate InStep(before: seq<Update>, done: seq<Update>, offset: int)
      reads server
    {
      && before + done <= server.Arrived()
      && before <= server.discarded <= before + done
      && offset == OffsetAfter(done)
    }

    /** One pass of the loop's body. */
    method PollOnce(turn: Turn, offset: int, ghost before: seq<Update>, ghost done: seq<Update>)
      returns (offset': int, ghost more: seq<Update>)
      requires Separate() && keepRunning.on && keepRunningGlobal.on
      requires Increasing(server.Arrived() + turn.arrivals) && InStep(before, done, offset)
      modifies this`dispatched, server, keepRunning, keepRunningGlobal
      ensures server.Arrived() == old(server.Arrived()) + turn.arrivals
      ensures dispatched == old(dispatched) + more && InStep(before, done + more, offset')
      ensures more == Answer(turn, server.Arrived()[|before + done|..])
      ensures server.discarded == before + done
      ensures keepRunning.on == !turn.stop && keepRunningGlobal.on == !(turn.stopAll || turn.throws.Some?)
    {
      hide Increasing, OffsetAfter, Answer;
      server.Arrive(turn.arrivals);
      ghost var arrived := server.Arrived();
      assert arrived == old(server.Arrived()) + turn.arrivals;
      var reply := server.GetUpdates(offset, turn.limit);
      Answered(arrived, before, done, old(server.discarded), server.discarded, server.pending);
      if turn.stop { Stop(); }
      if turn.stopAll { StopAll(); }
      var n;
      offset', n := DispatchAll(reply, turn.throws, offset);
      more := reply[..n];
      AnswerIs(turn, server.pending, n);
      Advance(arrived, before, done, reply, n);
      if turn.throws.Some? { StopAll(); }
    }

    /** A whole run from its flags on. What the last poll dispatched is not confirmed to the server. */
    method Run(turns: seq<Turn>) returns (polls: nat, ghost done: seq<Update>, ghost confirmed: seq<Update>)
      requires Separate() && Increasing(server.Arrived() + AllArrivals(turns))
      modifies this`dispatched, server, keepRunning, keepRunningGlobal
      ensures polls == Polls(turns)
      ensures dispatched == old(dispatched) + done && Increasing(done)
      ensures done == Served(old(server.pending), turns)
      ensures old(server.discarded) + done <= server.Arrived() <= old(server.Arrived()) + AllArrivals(turns)
      ensures server.discarded == old(server.discarded) + confirmed
      ensures done == confirmed + Answer(if polls <= |turns| then turns[polls - 1] else LAST_TURN, server.pending)
    {
      hide Increasing, OffsetAfter, AllArrivals, Polls, Served, Answer, Along;
      polls, done, confirmed := 0, [], [];
      var on := keepRunning.TestAndSet();
      on := keepRunningGlobal.TestAndSet();
      ghost var (before, first) := (server.discarded, server.Arrived());
      var offset := 0;
      RunStarts(turns, first, before);
      AlongStarts(turns, first, before);
      var go := KeepsRunning();
      while go
        invariant Separate() && InStep(before, done, offset)
        invariant dispatched == old(dispatched) + done
        invariant go ==> keepRunning.on && keepRunningGlobal.on
        invariant Along(turns, polls, go, first, server.Arrived(), before, done)
        invariant go || 0 < polls
        invariant polls <= |turns| + 1 && confirmed <= done && server.discarded == before + confirmed
        invariant 0 < polls ==>
                    done == confirmed + Answer(if polls <= |turns| then turns[polls - 1] else LAST_TURN, server.pending)
        decreases if go then |turns| + 1 - polls else 0
      {
        AlongBounds(turns, polls, first, server.Arrived(), before, done);
        var turn := if polls < |turns| then turns[polls] else LAST_TURN;
        ghost var arrived := server.Arrived();
        ghost var more;
        confirmed := done;
        offset, more := PollOnce(turn, offset, before, confirmed);
        assert server.Arrived()[|before + confirmed|..] == server.pending;
        done := confirmed + more;
        AlongMoves(turns, polls, first, arrived, before, confirmed, more);
        polls := polls + 1;
        go := KeepsRunning();
      }
      AlongEnds(turns, polls, first, server.Arrived(), before, done);
    }
  }
}
