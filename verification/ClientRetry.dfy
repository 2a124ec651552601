/** How far one client call goes: redirects and digest challenges are followed by sends nested in the request they
    answer, and a send whose SSL peer had gone is made again, once. The replies are those of any server. */
module ClientRetry {
  import opened Wrappers

  datatype Error =
    | Success | Unknown | Connection | BindIPAddress | ConnectionTimeout | Read | Write | Canceled
    | ExceedRedirectCount | SSLConnection | SSLLoadingCerts | SSLServerVerification | SSLPeerCouldBeClosed

  /** The errors that connecting, SSL set-up, writing and reading report. */
  type ConnectError = e: Error | e == Connection || e == BindIPAddress || e == ConnectionTimeout witness Connection
  type SetUpError = e: Error | e == SSLConnection || e == SSLLoadingCerts || e == SSLServerVerification witness SSLConnection
  type WriteError = e: Error | e == Write || e == Canceled witness Write
  type ReadError = e: Error | e == Read || e == Canceled witness Read

  /** A refusal, or a failed SSL set-up, may report no error of its own. */
  datatype Connecting = Connected | Refused(refusal: Option<ConnectError>) | SetUpFailed(failure: Option<SetUpError>)

  /** The Location field of a response: absent, one that is not followed, or where it leads. */
  datatype Location = NoLocation | Unusable | SameServer(path: string) | OtherServer(ssl: bool, valid: bool, path: string)

  datatype Response = Response(status: nat, location: Location, challenge: bool)

  const NO_RESPONSE := Response(0, NoLocation, false)

  /** All that the outside world decides about one attempt. */
  datatype Reply = Reply(
    alive: bool,
    connecting: Connecting,
    write: Option<WriteError>,
    peerClosed: bool,
    read: Option<ReadError>,
    response: Response,
    closes: bool)

  datatype Request = Request(method_: string, path: string, body: string, redirectCount: nat, authorizationCount: nat)

  const MAX_AUTHORIZATIONS := 5

  /** The authorizations a request may still make. */
  function Authorizations(req: Request): nat
  {
    if req.authorizationCount < MAX_AUTHORIZATIONS then MAX_AUTHORIZATIONS - req.authorizationCount else 0
  }

  /** What the nested sends of a request use up. */
  function Measure(req: Request): nat
  {
    req.redirectCount + Authorizations(req)
  }

  /** The attempts of one `send_`: its own, those of a redirect, those of an authorization after it. */
  function OneBound(m: nat): nat
    decreases m, 0
  {
    1 + (if m >= 1 then Bound(m - 1) else 0) + if m >= 2 then Bound(m - 2) else 0
  }

  /** The attempts of one `send`. */
  function Bound(m: nat): nat
    decreases m, 1
  {
    2 * OneBound(m)
  }

  lemma {:induction false} BoundMonotone(a: nat, b: nat)
    requires a <= b
    ensures OneBound(a) <= OneBound(b) && Bound(a) <= Bound(b)
    decreases b
  {
    if a < b {
      if a >= 1 { BoundMonotone(a - 1, b - 1); }
      if a >= 2 { BoundMonotone(a - 2, b - 2); }
    }
  }

  /** What one attempt leaves for a redirect and an authorization. */
  lemma Budget(m: nat)
    ensures OneBound(m) >= 1
    ensures m >= 1 ==> OneBound(m) >= 1 + Bound(m - 1)
    ensures m >= 2 ==> OneBound(m) == 1 + Bound(m - 1) + Bound(m - 2)
  {
  }

  function Power3(n: nat): nat
  {
    if n == 0 then 1 else 3 * Power3(n - 1)
  }

  /** The bound in closed form. */
  lemma {:induction false} BoundBelowPower(m: nat)
    ensures Bound(m) < Power3(m + 1)
  {
    if m >= 1 { BoundBelowPower(m - 1); }
    if m >= 2 { BoundBelowPower(m - 2); }
  }

  /** The world as the attempts of a call meet it, with the requests they were made for. */
  class Network {
    const script: nat -> Reply
    var sent: seq<Request>
    ghost var depth: nat
    ghost var deepest: nat

    constructor (script: nat -> Reply)
      ensures this.script == script && sent == [] && depth == deepest == 0
    {
      this.script := script;
      sent := [];
      depth := 0;
      deepest := 0;
    }

    method Attempt(req: Request) returns (r: Reply)
      modifies this`sent
      ensures r == script(|old(sent)|) && sent == old(sent) + [req]
    {
      r := script(|sent|);
      sent := sent + [req];
    }
  }

  /** At most `n` more attempts. */
  predicate Grows(before: seq<Request>, after: seq<Request>, n: nat)
  {
    before <= after && |after| <= |before| + n
  }

  lemma GrowsTwice(before: seq<Request>, between: seq<Request>, after: seq<Request>, n: nat, m: nat, bound: nat)
    requires Grows(before, between, n) && n + m <= bound
    ensures Grows(before, between, bound) && |before| <= |between|
    ensures Grows(between, after, m) ==> Grows(before, after, bound) && |between| <= |after|
    ensures Grows(between, after, m) && |before| < |between| ==> before < after && after[|before|] == between[|before|]
  {
  }

  /** A part of a call makes at most `n` attempts and leaves the nesting as it was. */
  twostate predicate Within(net: Network, n: nat)
    reads net
  {
    && Grows(old(net.sent), net.sent, n)
    && net.depth == old(net.depth) && net.deepest >= old(net.deepest)
  }

  function After(req: Request, c: Option<seq<Request>>): Option<seq<Request>>
  {
    if c.Some? then Some([req] + c.value) else None
  }

  /** When `c` lists requests, exactly they were made and the call succeeded. */
  twostate predicate Made(net: Network, new c: Option<seq<Request>>, ret: bool)
    reads net`sent
  {
    MadeFrom(old(net.sent), net.sent, c, ret)
  }

  predicate MadeFrom(before: seq<Request>, after: seq<Request>, c: Option<seq<Request>>, ret: bool)
  {
    c.Some? ==> ret && after == before + c.value
  }

  lemma FirstAttempt(before: seq<Request>, req: Request, n: nat)
    requires n >= 1
    ensures Grows(before, before + [req], 1) && Grows(before, before + [req], n)
    ensures MadeFrom(before, before + [req], None, false)
    ensures Spent(req, req)
  {
  }

  lemma NotMade(before: seq<Request>, between: seq<Request>, after: seq<Request>, c: Option<seq<Request>>, ret: bool)
    requires MadeFrom(before, between, c, false)
    ensures c.None? && MadeFrom(before, after, c, ret)
  {
  }

  lemma MadeTwice(before: seq<Request>, between: seq<Request>, after: seq<Request>, req: Request,
                  c: Option<seq<Request>>, ret: bool)
    requires MadeFrom(between, after, c, ret)
    ensures between == before + [req] ==> MadeFrom(before, after, After(req, c), ret)
  {
    if c.Some? { assert before + ([req] + c.value) == before + [req] + c.value; }
  }

  /** The next attempt is made for `req`. */
  twostate predicate Sends(net: Network, req: Request)
    reads net`sent
  {
    |net.sent| > |old(net.sent)| && net.sent[|old(net.sent)|] == req
  }

  /** Some attempt from `from` on was made with `n` authorizations. */
  predicate Tried(sent: seq<Request>, from: nat, n: nat)
  {
    exists i :: from <= i < |sent| && sent[i].authorizationCount == n
  }

  /** From `from` on every count of authorizations from `n` up to the limit was tried. */
  predicate AllTried(sent: seq<Request>, from: nat, n: nat)
  {
    forall k :: n <= k <= MAX_AUTHORIZATIONS ==> Tried(sent, from, k)
  }

  lemma TriedEarlier(sent: seq<Request>, from: nat, later: nat, n: nat)
    requires from <= later && AllTried(sent, later, n)
    ensures AllTried(sent, from, n)
  {
    forall k | n <= k <= MAX_AUTHORIZATIONS ensures Tried(sent, from, k) {
      assert Tried(sent, later, k);
    }
  }

  lemma TriedFirst(sent: seq<Request>, from: nat)
    requires from < |sent| && AllTried(sent, from + 1, sent[from].authorizationCount + 1)
    ensures AllTried(sent, from, sent[from].authorizationCount)
  {
    TriedEarlier(sent, from, from + 1, sent[from].authorizationCount + 1);
  }

  /** A connection comes about for a client with or without SSL, its certificates valid or not. */
  predicate ConnectsTo(c: Connecting, ssl: bool, valid: bool)
  {
    !c.Refused? && (ssl ==> valid && !c.SetUpFailed?)
  }

  predicate AnswersOver(reply: Reply, ssl: bool)
  {
    reply.write.None? && !(ssl && reply.peerClosed) && reply.read.None?
  }

  /** The attempt gets through to the server. */
  predicate Reached(reply: Reply, ssl: bool, valid: bool, isOpen: bool)
  {
    (isOpen && reply.alive) || ConnectsTo(reply.connecting, ssl, valid)
  }

  predicate Leads(location: Location)
  {
    location.SameServer? || location.OtherServer?
  }

  /** The request for the place a response leads to; a 303 turns it into a GET without body. */
  function NextRequest(req: Request, res: Response): Request
    requires req.redirectCount > 0 && Leads(res.location)
  {
    var next := req.(path := res.location.path, redirectCount := req.redirectCount - 1);
    if res.status == 303 && req.method_ != "GET" && req.method_ != "HEAD" then next.(method_ := "GET", body := "") else next
  }

  /** A request after it was handled has no more budget than before. */
  predicate Spent(req: Request, after: Request)
  {
    after.redirectCount <= req.redirectCount && after.authorizationCount == req.authorizationCount
  }

  lemma TwoAttempts(req: Request)
    ensures Bound(Measure(req)) == 2 * OneBound(Measure(req))
  {
  }

  lemma SpendsLess(req: Request, after: Request)
    requires Spent(req, after)
    ensures Measure(after) <= Measure(req) && OneBound(Measure(after)) <= OneBound(Measure(req))
    ensures forall last :: Spent(after, last) ==> Spent(req, last)
    ensures after.authorizationCount == req.authorizationCount
  {
    BoundMonotone(Measure(after), Measure(req));
  }

  /** What a redirect leaves for the authorization after it. */
  lemma RedirectBudget(req: Request, after: Request)
    requires Spent(req, after)
    ensures req.redirectCount > 0 ==> Measure(req) >= 1 && Bound(Measure(req) - 1) <= OneBound(Measure(req)) - 1
    ensures OneBound(Measure(req)) >= 1
    ensures after.redirectCount < req.redirectCount && after.authorizationCount < MAX_AUTHORIZATIONS ==>
              && Measure(req) >= 1 && Measure(after) >= 1
              && Bound(Measure(req) - 1) + Bound(Measure(after) - 1) <= OneBound(Measure(req)) - 1
  {
    Budget(Measure(req));
    if after.redirectCount < req.redirectCount && Measure(after) >= 1 {
      BoundMonotone(Measure(after) - 1, Measure(req) - 2);
    }
  }

  class Client {
    const net: Network
    const ssl: bool
    const valid: bool
    const keepAlive: bool
    const followLocation: bool
    const digest: bool
    const proxyDigest: bool
    var open: bool

    constructor (net: Network, ssl: bool, valid: bool, keepAlive: bool, followLocation: bool, digest: bool,
                 proxyDigest: bool)
      ensures this.net == net && this.ssl == ssl && this.valid == valid && this.keepAlive == keepAlive && !open
      ensures this.followLocation == followLocation && this.digest == digest && this.proxyDigest == proxyDigest
    {
      this.net, this.ssl, this.valid, this.keepAlive := net, ssl, valid, keepAlive;
      this.followLocation, this.digest, this.proxyDigest := followLocation, digest, proxyDigest;
      open := false;
    }

    /** A response that a client with these settings does not leave as it is: a redirect, or a challenge it can answer. */
    predicate Followed(res: Response)
    {
      300 < res.status < 400 && followLocation
    }

    predicate Answerable(res: Response)
    {
      res.challenge && ((res.status == 401 && digest) || (res.status == 407 && proxyDigest))
    }

    predicate Connects(c: Connecting)
    {
      ConnectsTo(c, ssl, valid)
    }

    /** The exchange itself goes well. */
    predicate Answers(reply: Reply)
    {
      AnswersOver(reply, ssl)
    }

    /** Nothing more is sent for this response. */
    predicate Final(req: Request, res: Response)
    {
      !Followed(res) && !(Answerable(res) && req.authorizationCount < MAX_AUTHORIZATIONS)
    }

    /** Attempt `i`, made with the retry error left over, ends well without resetting it, or makes another one that
        does. */
    predicate StaleRuns(i: nat, req: Request, isOpen: bool)
      decreases Measure(req), 1
    {
      var reply := net.script(i);
      && isOpen && reply.alive && req.path != "" && req.body != "" && Answers(reply)
      && StaleAfter(reply.response, i + 1, req, !reply.closes)
    }

    predicate StaleAfter(r: Response, next: nat, req: Request, isOpen: bool)
      decreases Measure(req), 0
    {
      if Followed(r) then
        req.redirectCount > 0 && r.location.SameServer? && StaleRuns(next, NextRequest(req, r), isOpen)
      else if Answerable(r) && req.authorizationCount < MAX_AUTHORIZATIONS then
        StaleRuns(next, req.(authorizationCount := req.authorizationCount + 1), isOpen)
      else true
    }

    /** The requests of a call from attempt `i` on in which every attempt goes well, up to a response for which nothing
        more is sent: each response leads to the next request. */
    function Chain(i: nat, req: Request, ssl: bool, valid: bool, isOpen: bool): (c: Option<seq<Request>>)
      ensures c.Some? ==> c.value != [] && c.value[0] == req
      decreases Measure(req), 1
    {
      var reply := net.script(i);
      if !Reached(reply, ssl, valid, isOpen) || req.path == "" || !AnswersOver(reply, ssl) then None
      else
        var rest :- ChainAfter(reply.response, i + 1, req, ssl, valid, !reply.closes);
        Some([req] + rest)
    }

    /** Those that follow a response to `req`. A challenge that the redirected request may no longer answer is answered
        by the one that was redirected, so that such a call is none of these. */
    function ChainAfter(r: Response, next: nat, req: Request, ssl: bool, valid: bool, isOpen: bool)
      : (c: Option<seq<Request>>)
      decreases Measure(req), 0
    {
      if Followed(r) then
        if req.redirectCount == 0 || !Leads(r.location) then None
        else
          var rest :- ChainAt(r.location, next, NextRequest(req, r), ssl, valid, isOpen);
          if Done(req, next, rest) then Some(rest) else None
      else if Answerable(r) && req.authorizationCount < MAX_AUTHORIZATIONS then
        Chain(next, req.(authorizationCount := req.authorizationCount + 1), ssl, valid, isOpen)
      else Some([])
    }

    /** At the same server over the same socket, at another one over a new connection. */
    function ChainAt(location: Location, i: nat, req: Request, ssl: bool, valid: bool, isOpen: bool)
      : (c: Option<seq<Request>>)
      requires Leads(location)
      ensures c.Some? ==> c.value != [] && c.value[0] == req
      decreases Measure(req), 2
    {
      if location.SameServer? then Chain(i, req, ssl, valid, isOpen)
      else Chain(i, req, location.ssl, location.valid, false)
    }

    lemma ChainIs(i: nat, req: Request, ssl: bool, valid: bool, isOpen: bool)
      ensures var reply := net.script(i);
              var rest := ChainAfter(reply.response, i + 1, req, ssl, valid, !reply.closes);
              var well := Reached(reply, ssl, valid, isOpen) && req.path != "" && AnswersOver(reply, ssl);
              Chain(i, req, ssl, valid, isOpen) == if well then After(req, rest) else None
    {
    }

    lemma ChainAfterIs(r: Response, next: nat, req: Request, ssl: bool, valid: bool, isOpen: bool)
      ensures Followed(r) && (req.redirectCount == 0 || !Leads(r.location)) ==>
                ChainAfter(r, next, req, ssl, valid, isOpen).None?
      ensures Followed(r) && req.redirectCount > 0 && Leads(r.location) ==>
                var rest := ChainAt(r.location, next, NextRequest(req, r), ssl, valid, isOpen);
                ChainAfter(r, next, req, ssl, valid, isOpen)
                == if rest.Some? && Done(req, next, rest.value) then rest else None
      ensures !Followed(r) && Answerable(r) && req.authorizationCount < MAX_AUTHORIZATIONS ==>
                var again := req.(authorizationCount := req.authorizationCount + 1);
                ChainAfter(r, next, req, ssl, valid, isOpen) == Chain(next, again, ssl, valid, isOpen)
      ensures Final(req, r) ==> ChainAfter(r, next, req, ssl, valid, isOpen) == Some([])
    {
      hide Chain, ChainAt;
    }

    /** The last of the attempts from `next` on leaves no challenge that `req` may answer. */
    predicate Done(req: Request, next: nat, sent: seq<Request>)
      requires sent != []
    {
      !(Answerable(net.script(next + |sent| - 1).response) && req.authorizationCount < MAX_AUTHORIZATIONS)
    }

    /** What a client makes of an exchange depends on its settings, not on the object. */
    predicate SameSettings(cli: Client)
    {
      && cli.net == net && cli.followLocation == followLocation
      && cli.digest == digest && cli.proxyDigest == proxyDigest
    }

    lemma {:induction false} SameChain(cli: Client, i: nat, req: Request, ssl: bool, valid: bool, isOpen: bool)
      requires SameSettings(cli)
      ensures cli.Chain(i, req, ssl, valid, isOpen) == Chain(i, req, ssl, valid, isOpen)
      decreases Measure(req), 1
    {
      hide Chain, ChainAfter;
      ChainIs(i, req, ssl, valid, isOpen);
      cli.ChainIs(i, req, ssl, valid, isOpen);
      SameChainAfter(cli, net.script(i).response, i + 1, req, ssl, valid, !net.script(i).closes);
    }

    lemma {:induction false} SameChainAfter(cli: Client, r: Response, next: nat, req: Request, ssl: bool, valid: bool,
                                            isOpen: bool)
      requires SameSettings(cli)
      ensures cli.ChainAfter(r, next, req, ssl, valid, isOpen) == ChainAfter(r, next, req, ssl, valid, isOpen)
      decreases Measure(req), 0
    {
      hide Chain, ChainAfter;
      ChainAfterIs(r, next, req, ssl, valid, isOpen);
      cli.ChainAfterIs(r, next, req, ssl, valid, isOpen);
      if Followed(r) && req.redirectCount > 0 && Leads(r.location) {
        if r.location.SameServer? {
          SameChain(cli, next, NextRequest(req, r), ssl, valid, isOpen);
        } else {
          SameChain(cli, next, NextRequest(req, r), r.location.ssl, r.location.valid, false);
        }
      } else if !Followed(r) && Answerable(r) && req.authorizationCount < MAX_AUTHORIZATIONS {
        SameChain(cli, next, req.(authorizationCount := req.authorizationCount + 1), ssl, valid, isOpen);
      }
    }

    /** The first attempt finds that its SSL peer has gone. */
    predicate PeerGone(reply: Reply, req: Request, isOpen: bool)
    {
      Reached(reply, ssl, valid, isOpen) && req.path != "" && reply.write.None? && ssl && reply.peerClosed
    }

    /** The answer of a call: the response of the last attempt. */
    predicate IsLast(res: Response)
      reads net`sent
    {
      net.sent != [] && res == net.script(|net.sent| - 1).response
    }

    /** What the first attempt says about a call. */
    lemma AttemptIs(i: nat, req: Request, isOpen: bool)
      ensures var reply := net.script(i);
              var well := Reached(reply, ssl, valid, isOpen) && req.path != "" && Answers(reply);
              && Chain(i, req, ssl, valid, isOpen)
              == (if well then After(req, ChainAfter(reply.response, i + 1, req, ssl, valid, !reply.closes)) else None)
              && (StaleRuns(i, req, isOpen)
                  <==> isOpen && reply.alive && well && req.body != ""
                       && StaleAfter(reply.response, i + 1, req, !reply.closes))
              && (PeerGone(reply, req, isOpen) ==>
                    && Reached(reply, ssl, valid, isOpen) && !well
                    && req.path != "" && reply.write.None? && ssl && reply.peerClosed)
    {
      hide ChainAfter, StaleAfter;
    }

    /** The next request after a redirect or a challenge: where it goes, what it carries and what it may still do. */
    predicate LeadsTo(req: Request, res: Response, next: Request)
    {
      if Followed(res) then
        && Leads(res.location) && next.path == res.location.path
        && next.redirectCount == req.redirectCount - 1 && next.authorizationCount == req.authorizationCount
        && (if res.status == 303 && req.method_ !in {"GET", "HEAD"} then next.method_ == "GET" && next.body == ""
            else next.method_ == req.method_ && next.body == req.body)
      else
        && Answerable(res) && req.authorizationCount < MAX_AUTHORIZATIONS
        && next == req.(authorizationCount := req.authorizationCount + 1)
    }

    /** Each request of a chain is the one that the response to the one before calls for, and the last response calls
        for none; so there are at most as many as the measure allows. */
    lemma {:induction false} ChainLeads(i: nat, req: Request, ssl: bool, valid: bool, isOpen: bool)
      requires Chain(i, req, ssl, valid, isOpen).Some?
      ensures var c := Chain(i, req, ssl, valid, isOpen).value;
              && |c| <= Measure(req) + 1
              && (forall j :: 0 <= j < |c| - 1 ==> LeadsTo(c[j], net.script(i + j).response, c[j + 1]))
              && Final(c[|c| - 1], net.script(i + |c| - 1).response)
      decreases Measure(req)
    {
      hide Chain, ChainAfter, Measure, LeadsTo, NextRequest, Answerable;
      var reply := net.script(i);
      var r := reply.response;
      ChainIs(i, req, ssl, valid, isOpen);
      ChainAfterIs(r, i + 1, req, ssl, valid, !reply.closes);
      if !Final(req, r) {
        var next := if Followed(r) then NextRequest(req, r) else req.(authorizationCount := req.authorizationCount + 1);
        NextLeads(req, r);
        var rest;
        if Followed(r) && !r.location.SameServer? {
          ChainLeads(i + 1, next, r.location.ssl, r.location.valid, false);
          rest := Chain(i + 1, next, r.location.ssl, r.location.valid, false).value;
        } else {
          ChainLeads(i + 1, next, ssl, valid, !reply.closes);
          rest := Chain(i + 1, next, ssl, valid, !reply.closes).value;
        }
        LongerChain(i, req, r, next, rest);
      }
    }

    lemma NextLeads(req: Request, r: Response)
      requires !Final(req, r) && (Followed(r) ==> req.redirectCount > 0 && Leads(r.location))
      ensures var next :=
                if Followed(r) then NextRequest(req, r) else req.(authorizationCount := req.authorizationCount + 1);
              LeadsTo(req, r, next) && Measure(next) + 1 == Measure(req)
    {
    }

    lemma LongerChain(i: nat, req: Request, r: Response, next: Request, rest: seq<Request>)
      requires rest != [] && rest[0] == next && r == net.script(i).response && LeadsTo(req, r, next)
      requires forall j :: 0 <= j < |rest| - 1 ==> LeadsTo(rest[j], net.script(i + 1 + j).response, rest[j + 1])
      ensures var c := [req] + rest;
              && c[|c| - 1] == rest[|rest| - 1]
              && forall j :: 0 <= j < |c| - 1 ==> LeadsTo(c[j], net.script(i + j).response, c[j + 1])
    {
      hide LeadsTo;
      var c := [req] + rest;
      forall j | 0 <= j < |c| - 1 ensures LeadsTo(c[j], net.script(i + j).response, c[j + 1]) {
        if j > 0 { assert LeadsTo(rest[j - 1], net.script(i + 1 + (j - 1)).response, rest[j]); }
      }
    }

    /** After the attempts of a chain from `from` on, all at the same server, the socket is as the last reply leaves it. */
    predicate OpenAfter(isOpen: bool, c: Option<seq<Request>>, from: nat)
    {
      c.Some? && c.value != [] ==>
        var last := from + |c.value| - 1;
        (forall k :: from <= k < last ==> !net.script(k).response.location.OtherServer?) ==>
          isOpen == (keepAlive && !net.script(last).closes)
    }

    /** A final first response is the whole chain. */
    lemma FinalIsLast(sent: seq<Request>, req: Request, isOpen: bool)
      ensures var (i, reply) := (|sent|, net.script(|sent|));
              var c := Chain(i, req, ssl, valid, isOpen);
              Reached(reply, ssl, valid, isOpen) && req.path != "" && Answers(reply) && Final(req, reply.response) ==>
                && c == Some([req])
                && (forall later, ret :: MadeFrom(sent, later, c, ret) ==> ret && later == sent + [req])
                && (forall now :: OpenAfter(now, c, i) ==> now == (keepAlive && !reply.closes))
    {
      hide Chain, ChainAfter;
      var reply := net.script(|sent|);
      ChainIs(|sent|, req, ssl, valid, isOpen);
      ChainAfterIs(reply.response, |sent| + 1, req, ssl, valid, !reply.closes);
      assert [req] + [] == [req];
    }

    lemma OpenNone(from: nat)
      ensures OpenAfter(true, None, from) && OpenAfter(false, None, from)
    {
    }

    lemma OpenNothing(from: nat)
      ensures OpenAfter(true, Some([]), from) && OpenAfter(false, Some([]), from)
    {
    }

    lemma OpenClosed(was: bool, isOpen: bool, c: Option<seq<Request>>, from: nat)
      requires OpenAfter(was, c, from) && isOpen == (was && keepAlive)
      ensures OpenAfter(isOpen, c, from)
    {
    }

    lemma OpenCons(isOpen: bool, req: Request, rest: Option<seq<Request>>, from: nat)
      requires rest.Some? ==>
                 if rest.value == [] then isOpen == (keepAlive && !net.script(from).closes)
                 else !net.script(from).response.location.OtherServer? ==> OpenAfter(isOpen, rest, from + 1)
      ensures OpenAfter(isOpen, After(req, rest), from)
    {
    }

    /** A redirect whose new place answers for good makes exactly two requests. */
    lemma RedirectedOnce(i: nat, req: Request, isOpen: bool)
      requires var (first, second) := (net.script(i), net.script(i + 1));
               var r := first.response;
               && Reached(first, ssl, valid, isOpen) && req.path != "" && Answers(first)
               && Followed(r) && req.redirectCount > 0 && Leads(r.location)
               && NextRequest(req, r).path != "" && Final(NextRequest(req, r), second.response)
               && if r.location.SameServer? then Reached(second, ssl, valid, !first.closes) && Answers(second)
                  else Reached(second, r.location.ssl, r.location.valid, false) && AnswersOver(second, r.location.ssl)
      ensures Chain(i, req, ssl, valid, isOpen) == Some([req, NextRequest(req, net.script(i).response)])
    {
      hide Chain, ChainAfter;
      var (first, second) := (net.script(i), net.script(i + 1));
      var (r, next) := (first.response, NextRequest(req, first.response));
      ChainIs(i, req, ssl, valid, isOpen);
      ChainAfterIs(r, i + 1, req, ssl, valid, !first.closes);
      ChainAfterIs(second.response, i + 2, next, ssl, valid, !second.closes);
      assert [req] + ([next] + []) == [req, next];
      if r.location.SameServer? {
        ChainIs(i + 1, next, ssl, valid, !first.closes);
      } else {
        ChainIs(i + 1, next, r.location.ssl, r.location.valid, false);
        ChainAfterIs(second.response, i + 2, next, r.location.ssl, r.location.valid, !second.closes);
      }
    }

    /** So does a challenge whose answer is final. */
    lemma AuthorizedOnce(i: nat, req: Request, isOpen: bool)
      requires var (first, second) := (net.script(i), net.script(i + 1));
               var again := req.(authorizationCount := req.authorizationCount + 1);
               && Reached(first, ssl, valid, isOpen) && req.path != "" && Answers(first)
               && !Followed(first.response) && Answerable(first.response) && req.authorizationCount < MAX_AUTHORIZATIONS
               && Reached(second, ssl, valid, !first.closes) && Answers(second) && Final(again, second.response)
      ensures Chain(i, req, ssl, valid, isOpen)
           == Some([req, req.(authorizationCount := req.authorizationCount + 1)])
    {
      hide Chain, ChainAfter;
      var (first, second) := (net.script(i), net.script(i + 1));
      var again := req.(authorizationCount := req.authorizationCount + 1);
      ChainIs(i, req, ssl, valid, isOpen);
      ChainAfterIs(first.response, i + 1, req, ssl, valid, !first.closes);
      ChainIs(i + 1, again, ssl, valid, !first.closes);
      ChainAfterIs(second.response, i + 2, again, ssl, valid, !second.closes);
      assert [req] + ([again] + []) == [req, again];
    }

    lemma StaleRedirect(r: Response, next: nat, req: Request, isOpen: bool)
      requires Followed(r)
      ensures StaleAfter(r, next, req, isOpen)
         <==> req.redirectCount > 0 && r.location.SameServer? && StaleRuns(next, NextRequest(req, r), isOpen)
    {
      hide StaleRuns;
    }

    lemma StaleNeedsOpen(i: nat, req: Request)
      ensures !StaleRuns(i, req, false)
    {
    }

    /** The public entry: every call begins with no error. */
    method Perform(req: Request) returns (ret: bool, res: Response, error: Error)
      modifies this, net
      ensures net.deepest <= if old(net.deepest) > net.depth + 1 + Measure(req) then old(net.deepest)
                             else net.depth + 1 + Measure(req)
      ensures Within(net, Bound(Measure(req)))
      ensures !ret || !keepAlive ==> !open
      ensures !ret && error == Success ==> ssl
      ensures !ret && error == SSLPeerCouldBeClosed ==> |net.sent| >= |old(net.sent)| + 2
      ensures Sends(net, req)
      ensures ret ==> !Followed(res)
      ensures ret && Answerable(res) ==> AllTried(net.sent, |old(net.sent)|, req.authorizationCount)
      ensures ret ==> IsLast(res)
      ensures var (n, now) := (|old(net.sent)|, old(open));
              && var c := Chain(n, req, ssl, valid, now);
              && Made(net, c, ret) && OpenAfter(open, c, n)
              && var again := Chain(n + 1, req, ssl, valid, false);
              (PeerGone(net.script(n), req, now) ==> Made(net, After(req, again), ret) && OpenAfter(open, again, n + 1))
    {
      var after, aborted;
      ghost var limit := net.depth + 1 + Measure(req);
      ret, res, after, error, aborted := Send(req, Success, if net.deepest > limit then net.deepest else limit);
      assert !aborted;
    }

    /** The nesting stays below every `limit` that leaves room for the measure. `aborted` says that the assertion of
        the retry failed: exactly when the caller passed in that very error and the first attempts, on a socket that
        stays open, do not reset it. */
    method Send(req: Request, error: Error, ghost limit: nat)
      returns (ret: bool, res: Response, after: Request, error': Error, aborted: bool)
      modifies this, net
      requires net.deepest <= limit && net.depth + 1 + Measure(req) <= limit
      ensures net.deepest <= limit
      ensures Within(net, Bound(Measure(req)))
      ensures Spent(req, after)
      ensures aborted <==> error == SSLPeerCouldBeClosed && StaleRuns(|old(net.sent)|, req, old(open))
      ensures !aborted ==> (!ret ==> !open) && (ret ==> error' != SSLPeerCouldBeClosed)
      ensures !aborted && !ret && error' == Success ==> ssl
      ensures !aborted && !keepAlive ==> !open
      ensures !aborted && !ret && error' == SSLPeerCouldBeClosed ==> |net.sent| >= |old(net.sent)| + 2
      ensures !aborted && ret ==> !Followed(res)
      ensures !aborted && ret && Answerable(res) ==> AllTried(net.sent, |old(net.sent)|, req.authorizationCount)
      ensures Sends(net, req)
      ensures !aborted && ret ==> IsLast(res)
      ensures var (n, now) := (|old(net.sent)|, old(open));
              && var c := Chain(n, req, ssl, valid, now);
              && (!aborted ==> Made(net, c, ret) && OpenAfter(open, c, n))
              && var again := Chain(n + 1, req, ssl, valid, false);
              (PeerGone(net.script(n), req, now) ==>
                 !aborted && Made(net, After(req, again), ret) && OpenAfter(open, again, n + 1))
      ensures var reply := net.script(|old(net.sent)|);
              var reached := Reached(reply, ssl, valid, old(open));
              reached && req.path != "" && Answers(reply) && Final(req, reply.response) && !aborted ==>
                && ret && res == reply.response && net.sent == old(net.sent) + [req]
                && open == (keepAlive && !reply.closes)
      decreases Measure(req), 7
    {
      hide Chain, Reached, PeerGone, StaleRuns, AllTried, Followed, Answerable, Final, Answers, Bound, Spent, Grows;
      hide MadeFrom, After;
      FinalIsLast(net.sent, req, open);
      net.depth := net.depth + 1;
      net.deepest := if net.deepest < net.depth then net.depth else net.deepest;
      ret, res, after, error', aborted := SendTwice(req, error, limit);
      net.depth := net.depth - 1;
    }

    /** An attempt, and another one if the SSL peer had gone. */
    method SendTwice(req: Request, error: Error, ghost limit: nat)
      returns (ret: bool, res: Response, after: Request, error': Error, aborted: bool)
      modifies this, net
      requires net.deepest <= limit && net.depth + Measure(req) <= limit
      ensures net.deepest <= limit
      ensures Within(net, Bound(Measure(req)))
      ensures Spent(req, after)
      ensures aborted <==> error == SSLPeerCouldBeClosed && StaleRuns(|old(net.sent)|, req, old(open))
      ensures !aborted ==> (!ret ==> !open) && (ret ==> error' != SSLPeerCouldBeClosed)
      ensures !aborted && !ret && error' == Success ==> ssl
      ensures !aborted && !keepAlive ==> !open
      ensures !aborted && !ret && error' == SSLPeerCouldBeClosed ==> |net.sent| >= |old(net.sent)| + 2
      ensures !aborted && ret ==> !Followed(res)
      ensures !aborted && ret && Answerable(res) ==> AllTried(net.sent, |old(net.sent)|, req.authorizationCount)
      ensures Sends(net, req)
      ensures !aborted && ret ==> IsLast(res)
      ensures var (n, now) := (|old(net.sent)|, old(open));
              && var c := Chain(n, req, ssl, valid, now);
              && (!aborted ==> Made(net, c, ret) && OpenAfter(open, c, n))
              && var again := Chain(n + 1, req, ssl, valid, false);
              (PeerGone(net.script(n), req, now) ==>
                 !aborted && Made(net, After(req, again), ret) && OpenAfter(open, again, n + 1))
      decreases Measure(req), 6
    {
      hide Chain, Reached, PeerGone, StaleRuns, AllTried, Followed, Answerable, Final, Answers, OneBound, Bound, Measure;
      hide Spent, Grows, MadeFrom, After;
      TwoAttempts(req);
      ghost var before := net.sent;
      ret, res, after, error', aborted := SendOnce(req, error, limit);
      ghost var between := net.sent;
      GrowsTwice(before, between, net.sent, OneBound(Measure(req)), OneBound(Measure(req)), Bound(Measure(req)));
      if !aborted && error' == SSLPeerCouldBeClosed {
        if ret {
          aborted := true;
        } else {
          SpendsLess(req, after);
          var mid := after;
          ret, res, after, error' := SendAgain(mid, limit);
          GrowsTwice(before, between, net.sent, OneBound(Measure(req)), OneBound(Measure(mid)), Bound(Measure(req)));
          NotMade(before, between, net.sent, Chain(|before|, req, ssl, valid, old(open)), ret);
          MadeTwice(before, between, net.sent, req, Chain(|between|, mid, ssl, valid, false), ret);
          if ret && Answerable(res) { TriedEarlier(net.sent, |before|, |between|, req.authorizationCount); }
        }
      }
    }

    /** The second attempt, on a socket that the first one has closed. */
    method SendAgain(req: Request, ghost limit: nat) returns (ret: bool, res: Response, after: Request, error: Error)
      modifies this, net
      requires net.deepest <= limit && net.depth + Measure(req) <= limit && !open
      ensures net.deepest <= limit
      ensures Within(net, OneBound(Measure(req))) && Sends(net, req)
      ensures Spent(req, after)
      ensures (!ret ==> !open) && (!keepAlive ==> !open)
      ensures ret ==> error != SSLPeerCouldBeClosed && !Followed(res) && IsLast(res)
      ensures !ret && error == Success ==> ssl
      ensures ret && Answerable(res) ==> AllTried(net.sent, |old(net.sent)|, req.authorizationCount)
      ensures Made(net, Chain(|old(net.sent)|, req, ssl, valid, false), ret)
      ensures OpenAfter(open, Chain(|old(net.sent)|, req, ssl, valid, false), |old(net.sent)|)
      decreases Measure(req), 5
    {
      hide Chain, Reached, PeerGone, StaleRuns, AllTried, Followed, Answerable, Final, Answers, OneBound, Measure, Spent;
      StaleNeedsOpen(|net.sent|, req);
      var aborted;
      ret, res, after, error, aborted := SendOnce(req, SSLPeerCouldBeClosed, limit);
    }

    method SendOnce(req: Request, error: Error, ghost limit: nat)
      returns (ret: bool, res: Response, after: Request, error': Error, aborted: bool)
      modifies this, net
      requires net.deepest <= limit && net.depth + Measure(req) <= limit
      ensures net.deepest <= limit
      ensures Within(net, OneBound(Measure(req)))
      ensures Spent(req, after)
      ensures !aborted ==> (!ret ==> !open)
      ensures aborted || (ret && error' == SSLPeerCouldBeClosed)
         <==> error == SSLPeerCouldBeClosed && StaleRuns(|old(net.sent)|, req, old(open))
      ensures !aborted && !ret && error' == Success ==> ssl
      ensures Sends(net, req)
      ensures !aborted && ret ==> IsLast(res)
      ensures var c := Chain(|old(net.sent)|, req, ssl, valid, old(open));
              !aborted ==> Made(net, c, ret) && OpenAfter(open, c, |old(net.sent)|)
      ensures PeerGone(net.script(|old(net.sent)|), req, old(open)) ==>
                !aborted && !ret && error' == SSLPeerCouldBeClosed && after == req && net.sent == old(net.sent) + [req]
      ensures var reply := net.script(|old(net.sent)|);
              var reached := Reached(reply, ssl, valid, old(open));
              !reached || req.path == "" || !Answers(reply) ==> !ret && !aborted && net.sent == old(net.sent) + [req]
      ensures !aborted && ret ==> !Followed(res)
      ensures !aborted && ret && Answerable(res) ==> AllTried(net.sent, |old(net.sent)|, req.authorizationCount)
      ensures !keepAlive && !aborted ==> !open
      decreases Measure(req), 4
    {
      hide Bound, OneBound, AllTried, StaleRuns, StaleAfter, Chain, ChainAfter, Grows, MadeFrom, After, Measure, Spent;
      hide Followed, Answerable, Reached, Answers, AnswersOver, PeerGone, Final, OpenAfter;
      Budget(Measure(req));
      OpenNone(|net.sent|);
      AttemptIs(|net.sent|, req, open);
      ret, res, after, error', aborted := false, NO_RESPONSE, req, error, false;
      ghost var before := net.sent;
      var reply := net.Attempt(req);
      ghost var between := net.sent;
      ghost var rest := ChainAfter(reply.response, |between|, req, ssl, valid, !reply.closes);
      FirstAttempt(before, req, OneBound(Measure(req)));
      var reached;
      reached, error' := Reach(reply, error);
      if !reached { return; }
      ret, res, after, error', aborted := Exchange(reply, req, error', limit);
      GrowsTwice(before, between, net.sent, 1, OneBound(Measure(req)) - 1, OneBound(Measure(req)));
      if aborted { return; }
      if Answers(reply) && req.path != "" { MadeTwice(before, between, net.sent, req, rest, ret); }
      if ret && Answerable(res) { TriedFirst(net.sent, |old(net.sent)|); }
    }

    /** The request on the socket, and what is left of the socket and of the error after it. */
    method Exchange(reply: Reply, req: Request, error: Error, ghost limit: nat)
      returns (ret: bool, res: Response, after: Request, error': Error, aborted: bool)
      modifies this, net
      requires net.deepest <= limit && net.depth + Measure(req) <= limit && IsLast(reply.response) && open
      requires reply == net.script(|net.sent| - 1)
      ensures net.deepest <= limit
      ensures Within(net, OneBound(Measure(req)) - 1)
      ensures Spent(req, after)
      ensures !aborted ==> (!ret ==> !open) && (!keepAlive ==> !open) && (!ret ==> error' != Success)
      ensures !aborted && ret ==> !Followed(res) && IsLast(res)
      ensures !aborted && ret && Answerable(res) ==> AllTried(net.sent, |old(net.sent)|, req.authorizationCount + 1)
      ensures req.path == "" || !Answers(reply) ==> !ret && !aborted && net.sent == old(net.sent)
      ensures req.path != "" && reply.write.None? && ssl && reply.peerClosed ==>
                error' == SSLPeerCouldBeClosed && after == req
      ensures var c := ChainAfter(reply.response, |old(net.sent)|, req, ssl, valid, !reply.closes);
              req.path != "" && Answers(reply) && !aborted ==>
                Made(net, c, ret) && OpenAfter(open, After(req, c), |old(net.sent)| - 1)
      ensures aborted || (ret && error' == SSLPeerCouldBeClosed)
         <==> error == SSLPeerCouldBeClosed && req.path != "" && req.body != "" && Answers(reply)
              && StaleAfter(reply.response, |old(net.sent)|, req, !reply.closes)
      decreases Measure(req), 3
    {
      hide Bound, OneBound, AllTried, StaleAfter, Chain, ChainAfter, Grows, After, Measure, Spent;
      hide Followed, Answerable, Answers, Final, OpenAfter;
      ghost var n := |net.sent|;
      ghost var rest := ChainAfter(reply.response, n, req, ssl, valid, !reply.closes);
      ret, res, after, error', aborted := HandleRequest(reply, req, error, limit);
      if aborted { return; }
      ghost var was := open;
      if !keepAlive || !ret { open := false; }
      if req.path != "" && Answers(reply) && rest.Some? {
        if !reply.response.location.OtherServer? { OpenClosed(was, open, rest, n); }
      }
      if req.path != "" && Answers(reply) { OpenCons(open, req, rest, n - 1); }
      if !ret && error' == Success { error' := Unknown; }
    }

    /** The socket is kept if it is alive, and made anew if not. */
    method Reach(reply: Reply, error: Error) returns (reached: bool, error': Error)
      modifies this
      ensures open == reached == Reached(reply, ssl, valid, old(open))
      ensures !reached && error' == Success ==> ssl
      ensures reached ==> error' == if old(open) && reply.alive then error else Success
    {
      reached, error' := true, error;
      var isAlive := open && reply.alive;
      if !isAlive {
        open := false;
        reached, error' := Connect(reply.connecting, error);
      }
    }

    method Connect(c: Connecting, error: Error) returns (connected: bool, error': Error)
      requires !open
      modifies this
      ensures open == connected == Connects(c)
      ensures connected ==> error' == Success
      ensures !connected && error' == Success ==> ssl
      ensures !connected ==>
                error' == if ssl && !valid then error
                          else if c.Connected? then Success
                          else if c.SetUpFailed? then (if c.failure.Some? then c.failure.value else Success)
                          else if c.refusal.Some? then c.refusal.value
                          else if error == Success then Connection
                          else error
    {
      connected, error' := false, error;
      if ssl && !valid { return; }
      if c.Refused? {
        if c.refusal.Some? { error' := c.refusal.value; }
        if error' == Success { error' := Connection; }
        return;
      }
      error' := Success;
      if ssl && c.SetUpFailed? {
        if c.failure.Some? { error' := c.failure.value; }
        return;
      }
      connected, open := true, true;
    }

    method HandleRequest(reply: Reply, req: Request, error: Error, ghost limit: nat)
      returns (ret: bool, res: Response, after: Request, error': Error, aborted: bool)
      modifies this, net
      requires net.deepest <= limit && net.depth + Measure(req) <= limit && IsLast(reply.response)
      ensures net.deepest <= limit
      ensures Within(net, OneBound(Measure(req)) - 1)
      ensures !aborted && ret ==> !Followed(res) && IsLast(res)
      ensures var c := ChainAfter(reply.response, |old(net.sent)|, req, ssl, valid, old(open) && !reply.closes);
              req.path != "" && Answers(reply) && !aborted ==>
                && Made(net, c, ret)
                && (!reply.response.location.OtherServer? ==> OpenAfter(open, c, |old(net.sent)|))
                && (c == Some([]) ==> open == (old(open) && !reply.closes))
      ensures req.path != "" && reply.write.None? && ssl && reply.peerClosed ==>
                error' == SSLPeerCouldBeClosed && after == req
      ensures !aborted && ret && Answerable(res) ==> AllTried(net.sent, |old(net.sent)|, req.authorizationCount + 1)
      ensures req.path == "" ==> error' == Connection
      ensures req.path == "" || !Answers(reply) ==> !ret && !aborted && net.sent == old(net.sent) && open == old(open)
      ensures req.path != "" && Answers(reply) ==>
                var r := reply.response;
                && (Final(req, r) ==>
                      ret && res == r && !aborted && net.sent == old(net.sent) && open == (old(open) && !reply.closes))
                && (Followed(r) && req.redirectCount > 0 && Leads(r.location) ==> Sends(net, NextRequest(req, r)))
                && (!Final(req, r) && !Followed(r) ==>
                      Sends(net, req.(authorizationCount := req.authorizationCount + 1)))
      ensures Spent(req, after)
      ensures aborted || (ret && error' == SSLPeerCouldBeClosed)
         <==> error == SSLPeerCouldBeClosed && req.path != "" && req.body != "" && Answers(reply)
              && StaleAfter(reply.response, |old(net.sent)|, req, old(open) && !reply.closes)
      decreases Measure(req), 2
    {
      hide Bound, OneBound, AllTried, StaleAfter, NextRequest, Chain, ChainAfter, OpenAfter;
      ret, res, after, aborted := false, NO_RESPONSE, req, false;
      Budget(Measure(req));
      if req.path == "" {
        error' := Connection;
        return;
      }
      ret, res, error' := ProcessRequest(reply, req, error);
      if !ret { return; }
      ret, res, after, error', aborted := FollowUp(req, res, error', limit);
    }

    /** The requests that a response calls for: a redirect, then an authorization. */
    method FollowUp(req: Request, first: Response, error: Error, ghost limit: nat)
      returns (ret: bool, res: Response, after: Request, error': Error, aborted: bool)
      modifies this, net
      requires net.deepest <= limit && net.depth + Measure(req) <= limit && IsLast(first)
      ensures net.deepest <= limit
      ensures Within(net, OneBound(Measure(req)) - 1)
      ensures !aborted && ret ==> !Followed(res) && IsLast(res)
      ensures var c := ChainAfter(first, |old(net.sent)|, req, ssl, valid, old(open));
              !aborted ==>
                && Made(net, c, ret)
                && (!first.location.OtherServer? ==> OpenAfter(open, c, |old(net.sent)|))
                && (c == Some([]) ==> open == old(open))
      ensures !aborted && ret && Answerable(res) ==> AllTried(net.sent, |old(net.sent)|, req.authorizationCount + 1)
      ensures Final(req, first) ==> ret && res == first && !aborted && net.sent == old(net.sent) && open == old(open)
      ensures Followed(first) && req.redirectCount > 0 && Leads(first.location) ==> Sends(net, NextRequest(req, first))
      ensures !Final(req, first) && !Followed(first) ==>
                Sends(net, req.(authorizationCount := req.authorizationCount + 1))
      ensures Spent(req, after)
      ensures aborted || (ret && error' == SSLPeerCouldBeClosed)
         <==> error == SSLPeerCouldBeClosed && StaleAfter(first, |old(net.sent)|, req, old(open))
      decreases Measure(req), 1
    {
      hide Bound, OneBound, AllTried, StaleRuns, NextRequest, Chain, ChainAfter, ChainAt, OpenAfter;
      OpenNothing(|net.sent|);
      Budget(Measure(req));
      ChainAfterIs(first, |net.sent|, req, ssl, valid, open);
      ret, res, after, error', aborted := true, first, req, error, false;
      if 300 < res.status < 400 && followLocation {
        ret, res, after, error', aborted := Redirected(req, res, error', limit);
      } else {
        ret, res, error', aborted := Authorize(ret, after, res, error', limit);
      }
    }

    /** A redirect, and the authorization that its response may call for. */
    method Redirected(req: Request, first: Response, error: Error, ghost limit: nat)
      returns (ret: bool, res: Response, after: Request, error': Error, aborted: bool)
      modifies this, net
      requires net.deepest <= limit && net.depth + Measure(req) <= limit
      requires Followed(first)
      ensures net.deepest <= limit
      ensures Within(net, OneBound(Measure(req)) - 1)
      ensures !aborted && ret ==> !Followed(res) && IsLast(res)
      ensures var c := ChainAfter(first, |old(net.sent)|, req, ssl, valid, old(open));
              !aborted ==>
                && Made(net, c, ret)
                && (!first.location.OtherServer? ==> OpenAfter(open, c, |old(net.sent)|))
                && (c == Some([]) ==> open == old(open))
      ensures !aborted && ret && Answerable(res) ==> AllTried(net.sent, |old(net.sent)|, req.authorizationCount + 1)
      ensures req.redirectCount > 0 && Leads(first.location) ==> Sends(net, NextRequest(req, first))
      ensures Spent(req, after)
      ensures aborted || (ret && error' == SSLPeerCouldBeClosed)
         <==> error == SSLPeerCouldBeClosed && StaleAfter(first, |old(net.sent)|, req, old(open))
      decreases Measure(req), 0, 1
    {
      hide Bound, OneBound, AllTried, StaleRuns, NextRequest, Chain, ChainAfter, ChainAt, Grows, Measure, StaleAfter, Spent;
      hide OpenAfter;
      OpenNone(|net.sent|);
      ChainAfterIs(first, |net.sent|, req, ssl, valid, open);
      StaleRedirect(first, |net.sent|, req, open);
      ghost var before := net.sent;
      ret, res, after, error', aborted := Redirect(req, first, error, limit);
      ghost var between := net.sent;
      RedirectBudget(req, after);
      ghost var n := if req.redirectCount == 0 then 0 else Bound(Measure(req) - 1);
      GrowsTwice(before, between, between, n, 0, OneBound(Measure(req)) - 1);
      if aborted { return; }
      SpendsLess(req, after);
      ghost var m :=
        if Answerable(res) && after.authorizationCount < MAX_AUTHORIZATIONS then Bound(Measure(after) - 1) else 0;
      ret, res, error', aborted := Authorize(ret, after, res, error', limit);
      GrowsTwice(before, between, net.sent, n, m, OneBound(Measure(req)) - 1);
      if !aborted && ret && Answerable(res) {
        TriedEarlier(net.sent, |old(net.sent)|, |between|, req.authorizationCount + 1);
      }
    }

    /** A challenge is answered by the same request with credentials; any other response, or none, stays. */
    method Authorize(ok: bool, req: Request, res: Response, error: Error, ghost limit: nat)
      returns (ret: bool, res': Response, error': Error, aborted: bool)
      modifies this, net
      requires net.deepest <= limit && net.depth + Measure(req) <= limit
      ensures net.deepest <= limit
      requires ok ==> !Followed(res) && IsLast(res)
      ensures if Answerable(res) && req.authorizationCount < MAX_AUTHORIZATIONS then
                var again := req.(authorizationCount := req.authorizationCount + 1);
                && Measure(again) == Measure(req) - 1 && Within(net, Bound(Measure(again)))
                && Sends(net, again)
                && (aborted <==> error == SSLPeerCouldBeClosed && StaleRuns(|old(net.sent)|, again, old(open)))
                && (!aborted && ret ==> error' != SSLPeerCouldBeClosed)
                && var c := Chain(|old(net.sent)|, again, ssl, valid, old(open));
                (!aborted ==> Made(net, c, ret) && OpenAfter(open, c, |old(net.sent)|))
              else
                && ret == ok && res' == res && error' == error && !aborted
                && net.sent == old(net.sent) && Within(net, 0) && open == old(open)
      ensures !ret ==> res' == res
      ensures !aborted && ret ==> !Followed(res') && IsLast(res')
      ensures !aborted && ret && Answerable(res') ==> AllTried(net.sent, |old(net.sent)|, req.authorizationCount + 1)
      decreases Measure(req), 0, 0
    {
      ret, res', error', aborted := ok, res, error, false;
      if (res.status == 401 || res.status == 407) && req.authorizationCount < MAX_AUTHORIZATIONS {
        var credentials := if res.status == 407 then proxyDigest else digest;
        if credentials && res.challenge {
          var again := req.(authorizationCount := req.authorizationCount + 1);
          var newRes, newReq;
          ret, newRes, newReq, error', aborted := Send(again, error, limit);
          if ret { res' := newRes; }
        }
      }
    }

    method ProcessRequest(reply: Reply, req: Request, error: Error) returns (ret: bool, res: Response, error': Error)
      modifies this`open
      ensures ret ==> res == reply.response && error' == if req.body == "" then Success else error
      ensures ret ==> (reply.closes ==> !open) && (!reply.closes ==> open == old(open))
      ensures !ret ==> open == old(open)
      ensures ret <==> Answers(reply)
      ensures !ret ==>
                error' == if reply.write.Some? then reply.write.value
                          else if ssl && reply.peerClosed then SSLPeerCouldBeClosed
                          else reply.read.value
    {
      ret, res, error' := false, NO_RESPONSE, error;
      if reply.write.Some? { return ret, res, reply.write.value; }
      if req.body == "" { error' := Success; }
      if ssl && reply.peerClosed { return ret, res, SSLPeerCouldBeClosed; }
      if reply.read.Some? { return ret, res, reply.read.value; }
      ret, res := true, reply.response;
      if reply.closes { open := false; }
    }

    /** The request is made by a new client for another server. */
    method SendElsewhere(ssl': bool, valid': bool, req: Request, error: Error, ghost limit: nat)
      returns (ret: bool, res: Response, after: Request, error': Error)
      modifies net
      requires net.deepest <= limit && net.depth + 1 + Measure(req) <= limit
      ensures net.deepest <= limit
      ensures Within(net, Bound(Measure(req))) && Sends(net, req) && Spent(req, after)
      ensures ret ==> error' != SSLPeerCouldBeClosed && !Followed(res) && IsLast(res)
      ensures ret && Answerable(res) ==> AllTried(net.sent, |old(net.sent)|, req.authorizationCount)
      ensures Made(net, Chain(|old(net.sent)|, req, ssl', valid', false), ret)
      decreases Measure(req), 8
    {
      hide Chain, Bound, AllTried, StaleRuns, Reached, Final, Answers;
      var cli := new Client(net, ssl', valid', keepAlive, followLocation, digest, proxyDigest);
      SameChain(cli, |net.sent|, req, ssl', valid', false);
      cli.StaleNeedsOpen(|net.sent|, req);
      var aborted;
      ret, res, after, error', aborted := cli.Send(req, error, limit);
    }

    method Redirect(req: Request, res: Response, error: Error, ghost limit: nat)
      returns (ret: bool, res': Response, after: Request, error': Error, aborted: bool)
      modifies this, net
      requires net.deepest <= limit && net.depth + Measure(req) <= limit
      ensures net.deepest <= limit
      requires 300 < res.status < 400
      ensures if req.redirectCount == 0 then Within(net, 0) else Within(net, Bound(Measure(req) - 1))
      ensures if req.redirectCount > 0 && Leads(res.location) then Sends(net, NextRequest(req, res))
              else !ret && net.sent == old(net.sent)
      ensures Spent(req, after)
      ensures ret ==> after.redirectCount < req.redirectCount
      ensures !aborted && ret ==> !Followed(res') && IsLast(res')
      ensures req.redirectCount > 0 && Leads(res.location) ==>
                var c := ChainAt(res.location, |old(net.sent)|, NextRequest(req, res), ssl, valid, old(open));
                !aborted ==>
                  Made(net, c, ret) && (res.location.SameServer? ==> OpenAfter(open, c, |old(net.sent)|))
      ensures !ret && !aborted ==> res' == res
      ensures req.redirectCount == 0 ==> !ret && !aborted && error' == ExceedRedirectCount
      ensures aborted <==>
                && error == SSLPeerCouldBeClosed && req.redirectCount > 0 && res.location.SameServer?
                && StaleRuns(|old(net.sent)|, NextRequest(req, res), old(open))
      ensures !aborted && ret ==> error' != SSLPeerCouldBeClosed
      decreases Measure(req), 0, 0
    {
      hide Chain, ChainAfter, Bound, OneBound, AllTried, StaleRuns, StaleAfter, MadeFrom;
      ret, res', after, error', aborted := false, res, req, error, false;
      if req.redirectCount == 0 {
        error' := ExceedRedirectCount;
        return;
      }
      if res.location.NoLocation? || res.location.Unusable? { return; }
      var next := req.(path := res.location.path, redirectCount := req.redirectCount - 1);
      if res.status == 303 && req.method_ != "GET" && req.method_ != "HEAD" {
        next := next.(method_ := "GET", body := "");
      }
      var newRes, newReq;
      if res.location.SameServer? {
        ret, newRes, newReq, error', aborted := Send(next, error, limit);
      } else {
        ret, newRes, newReq, error' := SendElsewhere(res.location.ssl, res.location.valid, next, error, limit);
      }
      if ret { after, res' := newReq, newRes; }
    }
  }

  /** The assertion can fail: a second call on a kept connection that is given the retry error. */
  method StaleErrorAborts(path: string, body: string) returns (aborted: bool)
    requires path != "" && body != ""
    ensures aborted
  {
    var net := new Network(i => Reply(true, Connected, None, false, None, Response(200, NoLocation, false), false));
    var cli := new Client(net, false, true, true, true, false, false);
    var req := Request("POST", path, body, 20, 0);
    var ret, res, after, error;
    ret, res, after, error, aborted := cli.Send(req, Success, 26);
    ret, res, after, error, aborted := cli.Send(req, SSLPeerCouldBeClosed, 26);
  }
}
