/** The Client: its options, NewClient, and requestWithRetry as the loop that runs against the network. */
module SdkClient {
  import opened GoBase
  import opened RetryWait
  import opened Retry
  import opened UrlPath

  // ----- options

  /** The SDK's options. An HTTP client is known by a number; None is nil. */
  datatype ClientOption =
    | WithHTTPClient(hc: Option<nat>)
    | WithUserAgent(ua: bytes)
    | WithRequestTimeout(timeout: int64)
    | WithRetry(enabled: bool, maxRetries: int64)
    | WithRetryMaxWait(maxWait: int64)

  datatype ClientError = BadScheme | MissingHost | HasQuery | HasFragment
                       | NilHTTPClient | EmptyUserAgent | NegativeTimeout | NegativeBudget

  /** The error an option returns, if any. */
  function Rejects(o: ClientOption): Option<ClientError> {
    match o
    case WithHTTPClient(hc) => if hc.None? then Some(NilHTTPClient) else None
    case WithUserAgent(ua) => if ua == [] then Some(EmptyUserAgent) else None
    case WithRequestTimeout(d) => if d < 0 then Some(NegativeTimeout) else None
    case WithRetry(_, n) => if n < 0 then Some(NegativeBudget) else None
    case WithRetryMaxWait(_) => None
  }

  /** What an accepted option makes of the client's settings. */
  function Configure(cfg: Config, o: ClientOption): Config {
    match o
    case WithHTTPClient(hc) => cfg.(httpClient := hc)
    case WithUserAgent(ua) => cfg.(userAgent := ua)
    case WithRequestTimeout(d) => cfg.(requestTimeout := d)
    case WithRetry(e, n) => cfg.(retryEnabled := e, maxRetries := n)
    case WithRetryMaxWait(d) => cfg.(retryMaxWait := d)
  }

  function ConfigureAll(cfg: Config, opts: seq<ClientOption>): Config
    decreases opts
  {
    if opts == [] then cfg else ConfigureAll(Configure(cfg, opts[0]), opts[1..])
  }

  const DEFAULT_HTTP_CLIENT: nat := 0
  const DEFAULT_USER_AGENT: bytes := "firezone-sdk-go/0.1.1"
  const DEFAULT_CONFIG: Config := Config(Some(DEFAULT_HTTP_CLIENT), DEFAULT_USER_AGENT, 30 * SECOND, true, 10, 0)

  /** checkBaseURL. */
  function CheckBaseUrl(u: Origin): Option<ClientError> {
    if u.scheme != "http" && u.scheme != "https" then Some(BadScheme)
    else if u.host == [] then Some(MissingHost)
    else if u.rawQuery != [] || u.forceQuery then Some(HasQuery)
    else if u.fragment != [] then Some(HasFragment)
    else None
  }

  /** Settings a request can be made with. */
  predicate Sound(cfg: Config) {
    cfg.httpClient.Some? && cfg.userAgent != [] && 0 <= cfg.requestTimeout && 0 <= cfg.maxRetries
  }

  /** The settings are as an option asks. */
  predicate Obeys(cfg: Config, o: ClientOption) {
    match o
    case WithHTTPClient(hc) => cfg.httpClient == hc
    case WithUserAgent(ua) => cfg.userAgent == ua
    case WithRequestTimeout(d) => cfg.requestTimeout == d
    case WithRetry(enabled, n) => cfg.retryEnabled == enabled && cfg.maxRetries == n
    case WithRetryMaxWait(d) => cfg.retryMaxWait == d
  }

  /** An option is refused exactly when no sound settings are as it asks. */
  lemma RejectsTheUnsound(o: ClientOption)
    ensures Rejects(o).None? <==> exists cfg :: Sound(cfg) && Obeys(cfg, o)
  {
    if Rejects(o).None? {
      assert Sound(Configure(DEFAULT_CONFIG, o)) && Obeys(Configure(DEFAULT_CONFIG, o), o);
    }
  }

  ghost predicate AllAccepted(opts: seq<ClientOption>) {
    forall i :: 0 <= i < |opts| ==> Rejects(opts[i]).None?
  }

  lemma {:induction false} ConfigureKeepsSound(cfg: Config, opts: seq<ClientOption>)
    requires Sound(cfg) && AllAccepted(opts)
    ensures Sound(ConfigureAll(cfg, opts))
    decreases opts
  {
    if opts != [] {
      assert Rejects(opts[0]).None?;
      ConfigureKeepsSound(Configure(cfg, opts[0]), opts[1..]);
    }
  }

  /** Two settings agree on what an option of o's kind sets. */
  predicate AgreeOn(o: ClientOption, a: Config, b: Config) {
    match o
    case WithHTTPClient(_) => a.httpClient == b.httpClient
    case WithUserAgent(_) => a.userAgent == b.userAgent
    case WithRequestTimeout(_) => a.requestTimeout == b.requestTimeout
    case WithRetry(_, _) => a.retryEnabled == b.retryEnabled && a.maxRetries == b.maxRetries
    case WithRetryMaxWait(_) => a.retryMaxWait == b.retryMaxWait
  }

  predicate SameKind(a: ClientOption, b: ClientOption) {
    match a
    case WithHTTPClient(_) => b.WithHTTPClient?
    case WithUserAgent(_) => b.WithUserAgent?
    case WithRequestTimeout(_) => b.WithRequestTimeout?
    case WithRetry(_, _) => b.WithRetry?
    case WithRetryMaxWait(_) => b.WithRetryMaxWait?
  }

  /** A setting that no option of its kind touches keeps its value. */
  lemma {:induction false} UntouchedSettingsStay(o: ClientOption, cfg: Config, opts: seq<ClientOption>)
    requires forall i :: 0 <= i < |opts| ==> !SameKind(o, opts[i])
    ensures AgreeOn(o, ConfigureAll(cfg, opts), cfg)
    decreases opts
  {
    if opts != [] {
      assert !SameKind(o, opts[0]);
      UntouchedSettingsStay(o, Configure(cfg, opts[0]), opts[1..]);
    }
  }

  /** The last option of each kind decides, whatever came before it and wherever the client started. */
  lemma {:induction false} LastOptionWins(cfg: Config, opts: seq<ClientOption>, k: nat)
    requires k < |opts|
    requires forall i :: k < i < |opts| ==> !SameKind(opts[k], opts[i])
    ensures Obeys(ConfigureAll(cfg, opts), opts[k])
    decreases opts
  {
    if k == 0 {
      UntouchedSettingsStay(opts[0], Configure(cfg, opts[0]), opts[1..]);
    } else {
      LastOptionWins(Configure(cfg, opts[0]), opts[1..], k - 1);
    }
  }

  /** Settings no option touches are the documented defaults. */
  lemma DefaultsStand(opts: seq<ClientOption>)
    ensures var cfg := ConfigureAll(DEFAULT_CONFIG, opts);
            && ((forall i :: 0 <= i < |opts| ==> !opts[i].WithRetry?) ==> cfg.retryEnabled && cfg.maxRetries == 10)
            && ((forall i :: 0 <= i < |opts| ==> !opts[i].WithRetryMaxWait?) ==> cfg.retryMaxWait == 0)
            && ((forall i :: 0 <= i < |opts| ==> !opts[i].WithRequestTimeout?) ==> cfg.requestTimeout == 30 * SECOND)
            && ((forall i :: 0 <= i < |opts| ==> !opts[i].WithUserAgent?) ==> cfg.userAgent == "firezone-sdk-go/0.1.1")
  {
    if forall i :: 0 <= i < |opts| ==> !opts[i].WithRetry? {
      UntouchedSettingsStay(WithRetry(true, 10), DEFAULT_CONFIG, opts);
    }
    if forall i :: 0 <= i < |opts| ==> !opts[i].WithRetryMaxWait? {
      UntouchedSettingsStay(WithRetryMaxWait(0), DEFAULT_CONFIG, opts);
    }
    if forall i :: 0 <= i < |opts| ==> !opts[i].WithRequestTimeout? {
      UntouchedSettingsStay(WithRequestTimeout(0), DEFAULT_CONFIG, opts);
    }
    if forall i :: 0 <= i < |opts| ==> !opts[i].WithUserAgent? {
      UntouchedSettingsStay(WithUserAgent([]), DEFAULT_CONFIG, opts);
    }
  }

  /** A server that never stops rate limiting, asking for a second each time, and a caller who never gives up. */
  ghost predicate Throttled(c: Call) {
    forall k: nat :: c.Answer(k) == Http(429, SECOND, []) && !c.CutShort(k)
  }

  /** It spends the whole budget and comes back with the rate limit. */
  lemma ThrottledCallSpendsBudget(c: Call)
    requires c.cfg.retryEnabled && 0 <= c.cfg.maxRetries && c.target.Some? && Throttled(c)
    ensures var e := Outcome(c);
            && e.attempts == |e.sent| == c.cfg.maxRetries + 1 && |e.slept| == c.cfg.maxRetries
            && e.reply.err.Some? && IsRateLimited(e.reply.err.value)
  {
    hide Outcome, Wait;
    CallFollowsAnswers(c);
    assert c.Answer(Outcome(c).attempts - 1) == Http(429, SECOND, []);
  }

  lemma ThrottledHeadersAreModest(c: Call)
    requires c.target.Some? && Throttled(c)
    ensures ModestHeaders(c, 10)
  {
    forall i: nat | i < 10 ensures ReplyRetryAfter(c.Raw(i)) <= Backoff(i) {
      assert c.Answer(i) == Http(429, SECOND, []);
      BackoffMonotone(0, i);
    }
  }

  /**
   * What a client with no retry options does under sustained throttling: eleven requests, ten sleeps of at least
   * 181 s and under 198.5 s in all, and the rate limit for an answer.
   */
  lemma DefaultClientUnderThrottling(opts: seq<ClientOption>, c: Call)
    requires forall i :: 0 <= i < |opts| ==> !opts[i].WithRetry? && !opts[i].WithRetryMaxWait?
    requires c.cfg == ConfigureAll(DEFAULT_CONFIG, opts) && c.target.Some? && Throttled(c)
    ensures var e := Outcome(c);
            && e.attempts == |e.sent| == 11 && |e.slept| == 10
            && 181 * SECOND <= Sum(e.slept) && 2 * Sum(e.slept) < 397 * SECOND
            && e.reply.err.Some? && IsRateLimited(e.reply.err.value)
  {
    hide Outcome, Sum, Throttled, ModestHeaders;
    UntouchedSettingsStay(WithRetry(true, 10), DEFAULT_CONFIG, opts);
    UntouchedSettingsStay(WithRetryMaxWait(0), DEFAULT_CONFIG, opts);
    ThrottledCallSpendsBudget(c);
    ThrottledHeadersAreModest(c);
    DefaultCallSleeps(c);
  }

  /** checkBaseURL accepts a scheme and a host, and nothing that a request would carry or lose. */
  lemma CheckBaseUrlIff(u: Origin)
    ensures CheckBaseUrl(u).None?
            <==> u.scheme in {"http", "https"} && u.host != "" && u == Origin(u.scheme, u.host, "", false, "")
    ensures CheckBaseUrl(u) == Some(BadScheme) <==> u.scheme !in {"http", "https"}
    ensures CheckBaseUrl(u) == Some(MissingHost) <==> u.scheme in {"http", "https"} && u.host == ""
    ensures CheckBaseUrl(u) == Some(HasFragment) ==> u.fragment != ""
    ensures CheckBaseUrl(u) == Some(HasQuery) ==> u.rawQuery != "" || u.forceQuery
  {
  }

  /** What it is for: on an accepted base URL, a request's query is its own or none, and there is no fragment. */
  lemma AcceptedBaseAddsNoQuery(base: UrlValue, c: Call)
    requires CheckBaseUrl(base.origin).None? && c.target == Resolve(base, c.req.path) && c.target.Some?
    requires c.cfg.retryEnabled ==> 0 <= c.cfg.maxRetries
    ensures forall i :: 0 <= i < |Outcome(c).sent| ==>
              var o := Outcome(c).sent[i].url.origin;
              o == Origin(base.origin.scheme, base.origin.host,
                          if c.req.query.None? then "" else c.req.query.value, false, "")
  {
    hide Outcome;
    CallFollowsAnswers(c);
  }

  // ----- the outside world

  /** The network, the clock and the random source, with a record of what the client did to them. */
  class Wire {
    const world: World
    var sent: seq<Sent>
    var slept: seq<int64>

    constructor (world: World)
      ensures this.world == world && sent == [] && slept == []
    {
      this.world := world;
      sent, slept := [], [];
    }
  }

  /** A bytes.Reader: it can be drained once. */
  class BytesReader {
    var rest: bytes

    constructor (b: bytes)
      ensures rest == b
    {
      rest := b;
    }

    method ReadAll() returns (b: bytes)
      modifies this
      ensures b == old(rest) && rest == []
    {
      b, rest := rest, [];
    }
  }

  /** What n attempts send that share one reader of a body: the body once, and empty bodies after it. */
  function OneReader(body: bytes, n: nat): (bodies: seq<Option<bytes>>) {
    seq(n, i => Some(if i == 0 then body else []))
  }

  /** The source's reason for requestBody: attempts that drain one shared reader. */
  method DrainShared(body: bytes, n: nat) returns (bodies: seq<Option<bytes>>)
    ensures bodies == OneReader(body, n)
  {
    var reader := new BytesReader(body);
    bodies := [];
    for i := 0 to n
      invariant bodies == OneReader(body, n)[..i]
      invariant reader.rest == if i == 0 then body else []
    {
      var b := reader.ReadAll();
      bodies := bodies + [Some(b)];
    }
  }

  function Bodies(sent: seq<Sent>): (bodies: seq<Option<bytes>>)
    ensures |bodies| == |sent|
  {
    seq(|sent|, i requires 0 <= i < |sent| => sent[i].body)
  }

  /**
   * Every attempt of a call carries the whole body; one reader shared by the attempts would have sent the same
   * exactly when there was only one of them, or the body was empty anyway.
   */
  lemma FreshReadersAreNeeded(c: Call)
    requires c.target.Some? && c.req.body.Some?
    ensures var e := Outcome(c);
            && |e.sent| == e.attempts && (forall i :: 0 <= i < e.attempts ==> e.sent[i].body == c.req.body)
            && (Bodies(e.sent) == OneReader(c.req.body.value, e.attempts)
                <==> e.attempts <= 1 || c.req.body.value == [])
  {
    var e := Outcome(c);
    var body := c.req.body.value;
    if c.cfg.retryEnabled && 0 <= c.cfg.maxRetries { LoopStops(c.ToScript(), 0); }
    RepeatAt(c.OneSent()[0], e.attempts);
    assert e.attempts > 0 ==> e.sent == Repeat(c.OneSent(), e.attempts);
    if e.attempts > 1 {
      assert Bodies(e.sent)[1] == Some(body);
      assert OneReader(body, e.attempts)[1] == Some([]);
    }
  }

  // ----- the client

  class Client {
    var baseURL: Url
    var httpClient: Option<nat>
    var userAgent: bytes
    var requestTimeout: int64
    var retryEnabled: bool
    var maxRetries: int64
    var retryMaxWait: int64

    constructor Default(base: Url)
      ensures baseURL == base && Settings() == DEFAULT_CONFIG
    {
      baseURL := base;
      httpClient, userAgent := Some(DEFAULT_HTTP_CLIENT), DEFAULT_USER_AGENT;
      requestTimeout, retryEnabled, maxRetries, retryMaxWait := 30 * SECOND, true, 10, 0;
    }

    function Settings(): Config
      reads this
    {
      Config(httpClient, userAgent, requestTimeout, retryEnabled, maxRetries, retryMaxWait)
    }

    /** Runs one option against the client. */
    method Apply(o: ClientOption) returns (err: Option<ClientError>)
      modifies this
      ensures err == Rejects(o) && baseURL == old(baseURL)
      ensures Settings() == if err.None? then Configure(old(Settings()), o) else old(Settings())
    {
      err := None;
      match o {
        case WithHTTPClient(hc) =>
          if hc.None? { return Some(NilHTTPClient); }
          httpClient := hc;
        case WithUserAgent(ua) =>
          if ua == [] { return Some(EmptyUserAgent); }
          userAgent := ua;
        case WithRequestTimeout(d) =>
          if d < 0 { return Some(NegativeTimeout); }
          requestTimeout := d;
        case WithRetry(enabled, n) =>
          if n < 0 { return Some(NegativeBudget); }
          retryEnabled := enabled;
          maxRetries := n;
        case WithRetryMaxWait(d) =>
          retryMaxWait := d;
      }
    }

    /**
     * NewClient, on a parsed base URL: it runs the options in order and stops at the first that fails.
     * The ghost result counts the options that ran.
     */
    static method New(base: Url, opts: seq<ClientOption>) returns (c: Client?, err: Option<ClientError>, ghost ran: nat)
      ensures c == null <==> err.Some?
      ensures CheckBaseUrl(base.origin).Some? ==> err == CheckBaseUrl(base.origin) && ran == 0
      ensures CheckBaseUrl(base.origin).None? ==>
                && ran <= |opts|
                && (err.Some? ==> ran > 0 && AllAccepted(opts[..ran - 1]) && err == Rejects(opts[ran - 1]))
                && (err.None? ==> ran == |opts| && AllAccepted(opts))
      ensures c != null ==> fresh(c) && c.baseURL == base
                            && c.Settings() == ConfigureAll(DEFAULT_CONFIG, opts) && Sound(c.Settings())
    {
      err := CheckBaseUrl(base.origin);
      ran := 0;
      if err.Some? {
        return null, err, 0;
      }
      c := new Client.Default(base);
      for i := 0 to |opts|
        invariant fresh(c) && c.baseURL == base && AllAccepted(opts[..i]) && ran == i
        invariant ConfigureAll(DEFAULT_CONFIG, opts) == ConfigureAll(c.Settings(), opts[i..])
      {
        err := c.Apply(opts[i]);
        ran := i + 1;
        if err.Some? {
          return null, err, ran;
        }
        assert opts[i..][1..] == opts[i + 1..];
        assert opts[..i + 1] == opts[..i] + [opts[i]];
      }
      assert opts[..|opts|] == opts;
      ConfigureKeepsSound(DEFAULT_CONFIG, opts);
      err := None;
    }

    /** The call a request amounts to, in the wire's present state. */
    function CallOn(wire: Wire, req: Request): Call
      reads this, baseURL, wire
    {
      Call(Settings(), Resolve(baseURL.Value(), req.path), req, wire.world, |wire.sent|)
    }

    /** rawRequest: a URL and a body reader of its own for every attempt. */
    method RawRequest(wire: Wire, req: Request) returns (reply: Reply)
      modifies wire`sent
      ensures wire.sent == old(wire.sent) + old(CallOn(wire, req)).OneSent()
      ensures reply == old(CallOn(wire, req)).Raw(0)
    {
      var u := ResolvePath(baseURL, req.path);
      if u == null {
        return Reply(None, Some(BadPath));
      }
      if req.query.Some? {
        u.SetQuery(req.query.value);
      }
      var payload := None;
      if req.body.Some? {
        var reader := new BytesReader(req.body.value);
        var b := reader.ReadAll();
        payload := Some(b);
      }
      reply := ToReply(wire.world.responses(|wire.sent|));
      wire.sent := wire.sent + [Sent(req.verb, u.Value(), userAgent, payload)];
    }

    /** requestWithRetry. */
    method RequestWithRetry(wire: Wire, req: Request) returns (reply: Reply)
      modifies wire`sent, wire`slept
      ensures var e := Outcome(old(CallOn(wire, req)));
              && reply == e.reply
              && wire.sent == old(wire.sent) + e.sent
              && wire.slept == old(wire.slept) + e.slept
    {
      hide Wait, ToReply, Loop, Resolve;
      if !retryEnabled {
        reply := RawRequest(wire, req);
        return;
      }
      ghost var c := CallOn(wire, req);
      ghost var s := c.ToScript();
      var lastErr: Option<Err> := None;
      var attempt: int64 := 0;
      while attempt <= maxRetries
        invariant 0 <= attempt && (attempt == 0 || attempt <= maxRetries)
        invariant attempt > maxRetries ==> lastErr.None? && wire.sent == old(wire.sent) && wire.slept == old(wire.slept)
        invariant |wire.sent| == c.start + attempt
        invariant attempt <= maxRetries ==> OnTrack(s, attempt, old(wire.sent), wire.sent, old(wire.slept), wire.slept)
        decreases maxRetries - attempt
      {
        AtAttempt(c, attempt);
        StayOnTrack(s, attempt, old(wire.sent), wire.sent, old(wire.slept), wire.slept);
        assert CallOn(wire, req) == c.(start := c.start + attempt);
        var rep := RawRequest(wire, req);
        assert rep == s.replies(attempt);
        if rep.err.None? {
          return rep;
        }
        var err := rep.err.value;
        if AsApi(err).None? || !IsRateLimited(err) || attempt == maxRetries {
          return rep;
        }
        lastErr := Some(err);
        var wait := Wait(retryMaxWait, attempt, AsApi(err).value.retryAfter, wire.world.draws(|wire.sent| - 1));
        if wire.world.cancelled(|wire.sent| - 1) {
          return Reply(None, Some(ContextDone));
        }
        wire.slept := wire.slept + [wait];
        attempt := attempt + 1;
      }
      reply := Reply(None, if lastErr.None? then Some(NoAttempts) else lastErr);
    }
  }

  /** A client NewClient returned always makes an attempt and never trips the guard after the loop. */
  lemma NewClientNeverTripsGuard(opts: seq<ClientOption>, c: Call)
    requires AllAccepted(opts) && c.cfg == ConfigureAll(DEFAULT_CONFIG, opts)
    ensures 1 <= Outcome(c).attempts <= c.cfg.maxRetries + 1
    ensures Outcome(c).reply.err != Some(NoAttempts)
  {
    ConfigureKeepsSound(DEFAULT_CONFIG, opts);
    NeverSilent(c);
    if c.cfg.retryEnabled { LoopIsFirstStop(c.ToScript(), 0); }
  }
}
