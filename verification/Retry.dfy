/** What one call of the SDK does: errors, responses, and the retry loop as a recursive specification. */
module Retry {
  import opened GoBase
  import opened RetryWait
  import opened UrlPath

  // ----- errors (errors.go)

  /** An error value; Wrapped is fmt.Errorf with %w. */
  datatype Err =
    | Api(status: int, retryAfter: int64)
    | Wrapped(inner: Err)
    | Transport(what: nat)
    | BadPath
    | ContextDone
    | NoAttempts

  /** errors.As for *APIError: the first one along the chain of wrapped errors. */
  function AsApi(e: Err): (a: Option<Err>)
    ensures a.Some? ==> a.value.Api?
  {
    match e
    case Api(_, _) => Some(e)
    case Wrapped(inner) => AsApi(inner)
    case _ => None
  }

  /** hasStatus. */
  predicate HasStatus(e: Err, status: int) { AsApi(e).Some? && AsApi(e).value.status == status }

  function RetryAfterOf(e: Err): int64 {
    match AsApi(e)
    case Some(a) => a.retryAfter
    case None => 0
  }

  predicate IsRateLimited(e: Err) { HasStatus(e, 429) }

  function WrapTimes(e: Err, n: nat): Err { if n == 0 then e else Wrapped(WrapTimes(e, n - 1)) }

  /** An API error has its own status and wait however often it is wrapped, and no other error has any. */
  lemma {:induction false} WrappingIsTransparent(e: Err, n: nat, status: int)
    requires !e.Wrapped?
    ensures HasStatus(WrapTimes(e, n), status) <==> e.Api? && e.status == status
    ensures RetryAfterOf(WrapTimes(e, n)) == if e.Api? then e.retryAfter else 0
  {
    if n > 0 { WrappingIsTransparent(e, n - 1, status); }
  }

  // ----- one round trip (rawRequest)

  /** What comes back from the network for one request; the Retry-After header is held as parseRetryAfter reads it. */
  datatype Response = Http(status: int, retryAfter: int64, body: bytes) | Broken(cause: Err)

  function Receive(status: int, retryAfterHeader: bytes, body: bytes): Response {
    Http(status, ParseRetryAfter(retryAfterHeader), body)
  }

  /** Go's ([]byte, error) pair; a None body is a nil slice. */
  datatype Reply = Reply(body: Option<bytes>, err: Option<Err>)

  function ToReply(r: Response): Reply {
    match r
    case Broken(cause) => Reply(None, Some(Wrapped(cause)))
    case Http(status, retryAfter, body) =>
      if 200 <= status < 300 then Reply(Some(body), None)
      else Reply(None, Some(Api(status, if status == 429 then retryAfter else 0)))
  }

  predicate Limited(r: Reply) { r.err.Some? && IsRateLimited(r.err.value) }

  function ReplyRetryAfter(r: Reply): int64 { if r.err.Some? then RetryAfterOf(r.err.value) else 0 }

  /** The answer asks for a retry: a 429, or a round trip that failed with an error that says it is one. */
  predicate AsksForRetry(r: Response) {
    match r
    case Http(status, _, _) => status == 429
    case Broken(cause) => IsRateLimited(cause)
  }

  /** How long it asks to wait. */
  function AskedWait(r: Response): int64 {
    match r
    case Http(status, retryAfter, _) => if status == 429 then retryAfter else 0
    case Broken(cause) => RetryAfterOf(cause)
  }

  /** What the caller gets of an answer: the body of a 2xx, an error with any other status, or the failure wrapped. */
  ghost predicate Conveys(r: Response, reply: Reply) {
    match r
    case Http(status, _, body) =>
      if 200 <= status < 300 then reply == Reply(Some(body), None)
      else reply.body.None? && reply.err.Some? && forall s :: HasStatus(reply.err.value, s) <==> s == status
    case Broken(cause) => reply == Reply(None, Some(Wrapped(cause)))
  }

  /** Of everything that can come back only a 429 is retried, and only a 429's header is read. */
  lemma ReplyConveysResponse(r: Response)
    ensures var reply := ToReply(r);
            && Conveys(r, reply)
            && (Limited(reply) <==> AsksForRetry(r))
            && (Limited(reply) ==> ReplyRetryAfter(reply) == AskedWait(r))
  {
  }

  lemma OnlyRateLimitsAreRetried(status: int, retryAfterHeader: bytes, body: bytes)
    ensures var reply := ToReply(Receive(status, retryAfterHeader, body));
            && (Limited(reply) <==> status == 429)
            && ReplyRetryAfter(reply) == (if status == 429 then ParseRetryAfter(retryAfterHeader) else 0)
            && (reply.body == Some(body) <==> 200 <= status < 300)
  {
    hide ParseRetryAfter;
  }

  /** A request as a service makes it; query is the encoded url.Values, None for nil. */
  datatype Request = Request(verb: bytes, path: bytes, query: Option<bytes>, body: Option<bytes>)

  /** One request as it leaves the client. */
  datatype Sent = Sent(verb: bytes, url: UrlValue, userAgent: bytes, body: Option<bytes>)

  /** The private fields of a Client that a call reads. */
  datatype Config = Config(httpClient: Option<nat>, userAgent: bytes, requestTimeout: int64,
                           retryEnabled: bool, maxRetries: int64, retryMaxWait: int64)

  /** What the outside decides: the k-th response, the k-th random draw, and whether the k-th wait is cut short. */
  datatype World = World(responses: nat -> Response, draws: nat -> Draw, cancelled: nat -> bool)

  /** A URL with its query set, or as it is for a nil query. */
  function WithQuery(u: UrlValue, query: Option<bytes>): UrlValue {
    if query.None? then u else u.(origin := u.origin.(rawQuery := query.value))
  }

  /** What one attempt puts on the wire: nothing, if the path does not resolve. */
  function SentOnce(cfg: Config, target: Option<UrlValue>, req: Request): seq<Sent> {
    if target.None? then [] else [Sent(req.verb, WithQuery(target.value, req.query), cfg.userAgent, req.body)]
  }

  /** All the retry loop looks at: its budget, and per attempt the bytes sent, the reply, the wait and its fate. */
  datatype Script = Script(budget: int64, one: seq<Sent>,
                           replies: nat -> Reply, waits: nat -> int64, cancelled: nat -> bool)
  {
    /** Attempt k is followed by another one, budget permitting. */
    predicate Retries(k: nat) { Limited(replies(k)) && !cancelled(k) }
  }

  /** A call under way: the URL it resolves to, if it does, and how many requests its world had answered before it. */
  datatype Call = Call(cfg: Config, target: Option<UrlValue>, req: Request, world: World, start: nat)
  {
    function OneSent(): seq<Sent> { SentOnce(cfg, target, req) }

    /** What comes back for attempt k, and whether the wait after it is cut short. */
    function Answer(k: nat): Response { world.responses(start + k) }

    predicate CutShort(k: nat) { world.cancelled(start + k) }

    /** The reply rawRequest gives attempt k. */
    function Raw(k: nat): Reply {
      if target.None? then Reply(None, Some(BadPath)) else ToReply(world.responses(start + k))
    }

    /** The wait retryWait gives after attempt k. */
    function WaitAfter(k: nat): int64 {
      Wait(cfg.retryMaxWait, k, ReplyRetryAfter(Raw(k)), world.draws(start + k))
    }

    function ToScript(): Script {
      Script(cfg.maxRetries, OneSent(),
             (k: nat) => Raw(k), (k: nat) => WaitAfter(k), (k: nat) => world.cancelled(start + k))
    }
  }

  /** A call taken up at its k-th attempt meets what that attempt meets. */
  lemma AtAttempt(c: Call, k: nat)
    ensures var d, s := c.(start := c.start + k), c.ToScript();
            && d.Raw(0) == s.replies(k) && d.OneSent() == s.one
            && (c.target.None? ==> !Limited(s.replies(k)))
            && s.waits(k) == Wait(c.cfg.retryMaxWait, k, ReplyRetryAfter(s.replies(k)), c.world.draws(c.start + k))
            && s.cancelled(k) == c.world.cancelled(c.start + k)
  {
  }

  /** How a call ends: what it returned, how often it tried, what it sent and how long it slept. */
  datatype End = End(reply: Reply, attempts: nat, sent: seq<Sent>, slept: seq<int64>)

  /** The loop of requestWithRetry, from a given attempt on. */
  function Loop(s: Script, attempt: nat): End
    decreases s.budget - attempt
  {
    if !Limited(s.replies(attempt)) || attempt >= s.budget then End(s.replies(attempt), 1, s.one, [])
    else if s.cancelled(attempt) then End(Reply(None, Some(ContextDone)), 1, s.one, [])
    else
      var rest := Loop(s, attempt + 1);
      End(rest.reply, 1 + rest.attempts, s.one + rest.sent, [s.waits(attempt)] + rest.slept)
  }

  /** What a run has sent and slept so far, put before what the loop does from here, is what the whole loop does. */
  ghost predicate OnTrack(s: Script, attempt: nat, sent0: seq<Sent>, sent: seq<Sent>,
                          slept0: seq<int64>, slept: seq<int64>)
  {
    && Loop(s, 0).reply == Loop(s, attempt).reply
    && sent0 + Loop(s, 0).sent == sent + Loop(s, attempt).sent
    && slept0 + Loop(s, 0).slept == slept + Loop(s, attempt).slept
  }

  /** What a run that stops at attempt k returns. */
  function ReplyAt(s: Script, k: nat): Reply {
    if Limited(s.replies(k)) && k < s.budget then Reply(None, Some(ContextDone)) else s.replies(k)
  }

  lemma StayOnTrack(s: Script, attempt: nat, sent0: seq<Sent>, sent: seq<Sent>, slept0: seq<int64>, slept: seq<int64>)
    requires OnTrack(s, attempt, sent0, sent, slept0, slept)
    ensures s.Retries(attempt) && attempt < s.budget ==>
              OnTrack(s, attempt + 1, sent0, sent + s.one, slept0, slept + [s.waits(attempt)])
    ensures !s.Retries(attempt) || attempt >= s.budget ==>
              && Loop(s, 0).reply == ReplyAt(s, attempt)
              && sent0 + Loop(s, 0).sent == sent + s.one
              && slept0 + Loop(s, 0).slept == slept
  {
    if s.Retries(attempt) && attempt < s.budget {
      var rest := Loop(s, attempt + 1);
      assert sent + (s.one + rest.sent) == (sent + s.one) + rest.sent;
      assert slept + ([s.waits(attempt)] + rest.slept) == (slept + [s.waits(attempt)]) + rest.slept;
    }
  }

  /** requestWithRetry. */
  function Outcome(c: Call): End {
    if !c.cfg.retryEnabled then End(c.Raw(0), 1, c.OneSent(), [])
    else if c.cfg.maxRetries < 0 then End(Reply(None, Some(NoAttempts)), 0, [], [])
    else Loop(c.ToScript(), 0)
  }

  function Repeat<T>(xs: seq<T>, n: nat): seq<T> { if n == 0 then [] else xs + Repeat(xs, n - 1) }

  /** The attempt a run stops at: the first that is not retried, or the last the budget allows. */
  ghost predicate StopsAt(s: Script, from: nat, k: nat) {
    && from <= k <= s.budget
    && (forall j :: from <= j < k ==> s.Retries(j))
    && (k == s.budget || !s.Retries(k))
  }

  lemma {:induction false} LoopStops(s: Script, attempt: nat)
    requires attempt <= s.budget
    ensures var e := Loop(s, attempt);
            && e.attempts > 0
            && StopsAt(s, attempt, attempt + e.attempts - 1)
            && e.reply == ReplyAt(s, attempt + e.attempts - 1)
            && e.sent == Repeat(s.one, e.attempts)
            && |e.slept| == e.attempts - 1
            && forall i :: 0 <= i < |e.slept| ==> e.slept[i] == s.waits(attempt + i)
    decreases s.budget - attempt
  {
    if s.Retries(attempt) && attempt < s.budget {
      LoopStops(s, attempt + 1);
      var e, rest := Loop(s, attempt), Loop(s, attempt + 1);
      forall i | 0 <= i < |e.slept| ensures e.slept[i] == s.waits(attempt + i) {
        if i > 0 { assert e.slept[i] == rest.slept[i - 1] == s.waits(attempt + 1 + (i - 1)); }
      }
    } else {
      assert Repeat(s.one, 1) == s.one + Repeat(s.one, 0);
    }
  }

  lemma StopIsUnique(s: Script, k: nat, m: nat)
    requires StopsAt(s, 0, m)
    ensures StopsAt(s, 0, k) <==> k == m
  {
    if StopsAt(s, 0, k) {
      assert k < m ==> s.Retries(k);
      assert m < k ==> s.Retries(m);
    }
  }

  /**
   * The retry loop, said without a loop: it tries k + 1 times exactly when attempt k is the first that is not
   * retried (or the last the budget allows), sends the same bytes each time, sleeps once between attempts,
   * and returns that attempt's reply, or the context's error if its wait was cut short.
   */
  lemma LoopIsFirstStop(s: Script, k: nat)
    requires 0 <= s.budget
    ensures var e := Loop(s, 0);
            && (e.attempts == k + 1 <==> StopsAt(s, 0, k))
            && 1 <= e.attempts <= s.budget + 1
            && e.reply == ReplyAt(s, e.attempts - 1)
            && e.sent == Repeat(s.one, e.attempts)
            && |e.slept| == e.attempts - 1
            && forall i :: 0 <= i < |e.slept| ==> e.slept[i] == s.waits(i)
  {
    LoopStops(s, 0);
    StopIsUnique(s, k, Loop(s, 0).attempts - 1);
  }

  /**
   * Exactly one of body and error comes back, whatever the network does; the guard after the loop fires only on a
   * negative budget.
   */
  lemma NeverSilent(c: Call)
    ensures Outcome(c).reply.body.Some? <==> Outcome(c).reply.err.None?
    ensures Outcome(c).reply.err == Some(NoAttempts) <==> c.cfg.retryEnabled && c.cfg.maxRetries < 0
    ensures Outcome(c).attempts == 0 <==> c.cfg.retryEnabled && c.cfg.maxRetries < 0
  {
    if c.cfg.retryEnabled && 0 <= c.cfg.maxRetries {
      LoopStops(c.ToScript(), 0);
    }
  }

  /** A request on the wire as the caller asked for it, at the URL its path resolves to. */
  predicate SentAsAsked(s: Sent, c: Call)
    requires c.target.Some?
  {
    var u := c.target.value;
    && (s.verb, s.body, s.userAgent) == (c.req.verb, c.req.body, c.cfg.userAgent)
    && (s.url.path, s.url.rawPath) == (u.path, u.rawPath)
    && (if c.req.query.None? then s.url == u
        else s.url.origin == Origin(u.origin.scheme, u.origin.host, c.req.query.value, u.origin.forceQuery,
                                    u.origin.fragment))
  }

  lemma {:induction false} RepeatAt<T>(x: T, n: nat)
    ensures |Repeat([x], n)| == n && forall i :: 0 <= i < n ==> Repeat([x], n)[i] == x
  {
    if n > 0 { RepeatAt(x, n - 1); }
  }

  /**
   * A call told by the answers it gets: it goes on for as long as they ask for a retry, the budget lasts and no wait
   * is cut short, asking the same each time; it sleeps what each answer and draw make of the wait; and it returns
   * what the last answer conveys, or the context's error.
   */
  lemma CallFollowsAnswers(c: Call)
    requires c.target.Some? && (c.cfg.retryEnabled ==> 0 <= c.cfg.maxRetries)
    ensures var e, budget := Outcome(c), if c.cfg.retryEnabled then c.cfg.maxRetries else 0;
            var k := e.attempts - 1;
            && 0 <= k <= budget
            && (forall j: nat :: j < k ==> AsksForRetry(c.Answer(j)) && !c.CutShort(j))
            && (if AsksForRetry(c.Answer(k)) && k < budget
                then c.CutShort(k) && e.reply == Reply(None, Some(ContextDone))
                else Conveys(c.Answer(k), e.reply))
            && |e.sent| == e.attempts && (forall i :: 0 <= i < |e.sent| ==> SentAsAsked(e.sent[i], c))
            && |e.slept| == k
            && (forall j: nat :: j < k ==>
                  e.slept[j] == Wait(c.cfg.retryMaxWait, j, AskedWait(c.Answer(j)), c.world.draws(c.start + j)))
  {
    hide Wait, ToReply, Conveys, AsksForRetry, AskedWait, Limited, ReplyRetryAfter, Loop;
    var e, s, k := Outcome(c), c.ToScript(), Outcome(c).attempts - 1;
    forall j: nat
      ensures Conveys(c.Answer(j), c.Raw(j))
      ensures Limited(c.Raw(j)) <==> AsksForRetry(c.Answer(j))
      ensures Limited(c.Raw(j)) ==> ReplyRetryAfter(c.Raw(j)) == AskedWait(c.Answer(j))
    {
      ReplyConveysResponse(c.Answer(j));
    }
    RepeatAt(c.OneSent()[0], e.attempts);
    if c.cfg.retryEnabled {
      LoopStops(s, 0);
      assert forall j: nat :: j < k ==> s.Retries(j) && c.Raw(j) == s.replies(j);
    } else {
      assert e.sent == [c.OneSent()[0]] + Repeat([c.OneSent()[0]], 0);
    }
    assert e.sent == Repeat([c.OneSent()[0]], e.attempts);
  }

  /** So a round trip that fails ends the call, unless it failed with the API's own 429: it is not sent again. */
  lemma FailedRoundTripIsNotRepeated(c: Call)
    requires c.target.Some? && (c.cfg.retryEnabled ==> 0 <= c.cfg.maxRetries)
    requires c.Answer(0).Broken? && !IsRateLimited(c.Answer(0).cause)
    ensures Outcome(c).attempts == |Outcome(c).sent| == 1 && Outcome(c).slept == []
    ensures Outcome(c).reply == Reply(None, Some(Wrapped(c.Answer(0).cause)))
  {
    hide Outcome, Wait;
    CallFollowsAnswers(c);
    assert !AsksForRetry(c.Answer(0));
  }

  /** And a path that does not resolve sends nothing and is not retried. */
  lemma UnresolvedPathSendsNothing(c: Call)
    requires c.target.None? && (c.cfg.retryEnabled ==> 0 <= c.cfg.maxRetries)
    ensures Outcome(c) == End(Reply(None, Some(BadPath)), 1, [], [])
  {
  }

  // ----- how long a whole call sleeps

  function Sum(xs: seq<int>): int { if xs == [] then 0 else xs[0] + Sum(xs[1..]) }

  /** Wait of attempt i without header or jitter: min(2^i s, cap). */
  function Curve(retryMaxWait: int64, i: nat): int64 { Min(Backoff(i), MaxRetryWait(retryMaxWait)) }

  function CurveSum(retryMaxWait: int64, from: nat, n: nat): int
    decreases n
  {
    if n == 0 then 0 else Curve(retryMaxWait, from) + CurveSum(retryMaxWait, from + 1, n - 1)
  }

  /** The jitter windows of the same waits. */
  function WindowSum(retryMaxWait: int64, from: nat, n: nat): int
    decreases n
  {
    if n == 0 then 0 else Max(JitterWindow(Curve(retryMaxWait, from)), 1) + WindowSum(retryMaxWait, from + 1, n - 1)
  }

  /** The waits within the budget lie on the curve or above it. */
  ghost predicate AboveCurve(s: Script, retryMaxWait: int64) {
    forall i: nat :: i < s.budget ==> s.waits(i) >= Curve(retryMaxWait, i)
  }

  /** The waits within the budget stay below the curve plus its jitter windows. */
  ghost predicate WithinWindows(s: Script, retryMaxWait: int64) {
    forall i: nat :: i < s.budget ==>
                       s.waits(i) < Curve(retryMaxWait, i) + Max(JitterWindow(Curve(retryMaxWait, i)), 1)
  }

  /** None of a call's first n answers asks for more than the exponential curve. */
  ghost predicate ModestHeaders(c: Call, n: int) {
    forall i: nat :: i < n ==> ReplyRetryAfter(c.Raw(i)) <= Backoff(i)
  }

  lemma {:induction false} LoopSleeps(s: Script, retryMaxWait: int64, attempt: nat)
    requires attempt <= s.budget && AboveCurve(s, retryMaxWait)
    ensures var slept := Loop(s, attempt).slept;
            && CurveSum(retryMaxWait, attempt, |slept|) <= Sum(slept)
            && (slept != [] && WithinWindows(s, retryMaxWait)
                ==> Sum(slept) < CurveSum(retryMaxWait, attempt, |slept|) + WindowSum(retryMaxWait, attempt, |slept|))
    decreases s.budget - attempt
  {
    if s.Retries(attempt) && attempt < s.budget {
      var slept, rest := Loop(s, attempt).slept, Loop(s, attempt + 1).slept;
      LoopSleeps(s, retryMaxWait, attempt + 1);
      assert slept[1..] == rest && slept[0] == s.waits(attempt);
    }
  }

  /** No wait within the budget can overflow, whatever is drawn. */
  ghost predicate BasesAreSafe(c: Call) {
    forall i: nat :: i < c.cfg.maxRetries ==>
                       BaseWait(c.cfg.retryMaxWait, i, ReplyRetryAfter(c.Raw(i))) <= MAX_SAFE_CAP
  }

  /** That is so exactly when the cap is safe, or the budget is at most 30 and no header asks for more than is safe. */
  lemma BasesAreSafeIff(c: Call)
    ensures BasesAreSafe(c)
            <==> || MaxRetryWait(c.cfg.retryMaxWait) <= MAX_SAFE_CAP
                 || (c.cfg.maxRetries <= 30
                     && forall i: nat :: i < c.cfg.maxRetries ==> ReplyRetryAfter(c.Raw(i)) <= MAX_SAFE_CAP)
  {
    hide BaseWait, Backoff, ReplyRetryAfter;
    var m := c.cfg.retryMaxWait;
    forall i: nat
      ensures BaseWait(m, i, ReplyRetryAfter(c.Raw(i))) <= MAX_SAFE_CAP
              <==> MaxRetryWait(m) <= MAX_SAFE_CAP || (i < 30 && ReplyRetryAfter(c.Raw(i)) <= MAX_SAFE_CAP)
    {
      BaseWaitIsExact(m, i, ReplyRetryAfter(c.Raw(i)), MAX_SAFE_CAP + 1);
      BackoffBound(i);
    }
    if c.cfg.maxRetries > 30 {
      var i: nat := 30;
      assert BaseWait(m, i, ReplyRetryAfter(c.Raw(i))) <= MAX_SAFE_CAP <==> MaxRetryWait(m) <= MAX_SAFE_CAP;
    }
  }

  lemma WaitFollowsCurve(retryMaxWait: int64, i: nat, retryAfter: int64, draw: Draw)
    requires BaseWait(retryMaxWait, i, retryAfter) <= MAX_SAFE_CAP
    ensures Wait(retryMaxWait, i, retryAfter, draw) >= Curve(retryMaxWait, i)
    ensures retryAfter <= Backoff(i) ==>
              Wait(retryMaxWait, i, retryAfter, draw)
              < Curve(retryMaxWait, i) + Max(JitterWindow(Curve(retryMaxWait, i)), 1)
  {
    BaseWaitRange(retryMaxWait, i, retryAfter);
    WaitDoesNotWrap(retryMaxWait, i, retryAfter, draw);
  }

  lemma WaitsFollowCurve(c: Call)
    requires BasesAreSafe(c)
    ensures AboveCurve(c.ToScript(), c.cfg.retryMaxWait)
    ensures ModestHeaders(c, c.cfg.maxRetries) ==> WithinWindows(c.ToScript(), c.cfg.retryMaxWait)
  {
    hide Curve, Backoff, Wait, BaseWait;
    forall i: nat | i < c.cfg.maxRetries
      ensures c.WaitAfter(i) >= Curve(c.cfg.retryMaxWait, i)
      ensures ReplyRetryAfter(c.Raw(i)) <= Backoff(i) ==>
                c.WaitAfter(i) < Curve(c.cfg.retryMaxWait, i) + Max(JitterWindow(Curve(c.cfg.retryMaxWait, i)), 1)
    {
      WaitFollowsCurve(c.cfg.retryMaxWait, i, ReplyRetryAfter(c.Raw(i)), c.world.draws(c.start + i));
    }
  }

  /**
   * A call that spends its whole budget, none of its waits able to overflow, sleeps at least the capped exponential
   * curve, and, when no header it waits on asks for more than the curve, less than the curve plus its jitter windows.
   */
  lemma ExhaustedCallSleeps(c: Call)
    requires c.cfg.retryEnabled && 0 < c.cfg.maxRetries
    requires Outcome(c).attempts == c.cfg.maxRetries + 1
    requires BasesAreSafe(c)
    ensures var n, m := c.cfg.maxRetries, c.cfg.retryMaxWait;
            && CurveSum(m, 0, n) <= Sum(Outcome(c).slept)
            && (ModestHeaders(c, n) ==> Sum(Outcome(c).slept) < CurveSum(m, 0, n) + WindowSum(m, 0, n))
  {
    hide BasesAreSafe;
    LoopStops(c.ToScript(), 0);
    WaitsFollowCurve(c);
    LoopSleeps(c.ToScript(), c.cfg.retryMaxWait, 0);
  }

  lemma {:induction false} CurveTail(n: nat)
    requires n <= 5
    ensures CurveSum(0, 10 - n, n) == n * 30 * SECOND
    ensures WindowSum(0, 10 - n, n) == n * 2 * SECOND
  {
    if n > 0 {
      assert Backoff(5) == 32 * SECOND by { assert Pow2(5) == 32; }
      BackoffMonotone(5, 10 - n);
      CurveTail(n - 1);
    }
  }

  /** The patience of a client with default settings: 181 s, with up to 17.5 s of jitter. */
  lemma DefaultPatience()
    ensures CurveSum(0, 0, 10) == 181 * SECOND
    ensures 2 * WindowSum(0, 0, 10) == 35 * SECOND
  {
    assert Pow2(4) == 16;
    assert Pow2(5) == 32;
    assert Curve(0, 0) == 1 * SECOND && Curve(0, 1) == 2 * SECOND && Curve(0, 2) == 4 * SECOND;
    assert Curve(0, 3) == 8 * SECOND && Curve(0, 4) == 16 * SECOND;
    forall i: nat | i >= 5 ensures Curve(0, i) == 30 * SECOND {
      BackoffMonotone(5, i);
    }
    CurveTail(5);
    assert CurveSum(0, 4, 6) == 166 * SECOND;
    assert CurveSum(0, 3, 7) == 174 * SECOND;
    assert CurveSum(0, 2, 8) == 178 * SECOND;
    assert CurveSum(0, 1, 9) == 180 * SECOND;
    assert WindowSum(0, 4, 6) == 12 * SECOND;
    assert WindowSum(0, 3, 7) == 14 * SECOND;
    assert WindowSum(0, 2, 8) == 16 * SECOND;
    assert WindowSum(0, 1, 9) == 17 * SECOND;
  }

  /** Ten retries at the default cap: at least 181 s of waiting and, unless a header asks for more, under 198.5 s. */
  lemma DefaultCallSleeps(c: Call)
    requires c.cfg.retryEnabled && c.cfg.maxRetries == 10 && c.cfg.retryMaxWait == 0
    requires Outcome(c).attempts == 11
    ensures 181 * SECOND <= Sum(Outcome(c).slept)
    ensures ModestHeaders(c, 10) ==> 2 * Sum(Outcome(c).slept) < 397 * SECOND
  {
    hide Outcome, Sum, CurveSum, WindowSum;
    BasesAreSafeIff(c);
    ExhaustedCallSleeps(c);
    DefaultPatience();
  }
}
