/**
 * Many calls on one Client. A call is a state machine driven by what the scheduler, the network and the clock
 * do to it; calls interleave in any order. The Client documentation promises that this is safe.
 */
module Concurrent {
  import opened GoBase
  import opened RetryWait
  import opened Retry
  import opened UrlPath
  import opened SdkClient

  /** What can happen to one call: it is scheduled to send, its response arrives, its timer fires, its context ends. */
  datatype Event = Send | Receive(response: Response, draw: Draw) | Elapse | Cancel

  datatype Phase = Ready(attempt: nat) | InFlight(attempt: nat) | Sleeping(attempt: nat) | Done(reply: Reply)

  /** One answer a call received, and the random draw made for the wait after it. */
  datatype Answer = Answer(response: Response, draw: Draw)
  {
    function Reply(): Reply { ToReply(response) }

    /** The wait retryWait gives if this answers attempt k. */
    function WaitAfter(cfg: Config, k: nat): int64 { Wait(cfg.retryMaxWait, k, ReplyRetryAfter(Reply()), draw) }
  }

  /** The local state of one call, with the history of its answers and whether its last wait was cut short. */
  datatype CallState = CallState(phase: Phase, sent: seq<Sent>, slept: seq<int64>, got: seq<Answer>, cut: bool)

  /** What is fixed about a call: the client's settings, the URL its path resolves to, and the request. */
  datatype Job = Job(cfg: Config, target: Option<UrlValue>, req: Request)
  {
    /** Retries the call may make; with retrying disabled, none. */
    function Budget(): int64 { if cfg.retryEnabled then cfg.maxRetries else 0 }

    function One(): seq<Sent> { SentOnce(cfg, target, req) }
  }

  const BAD_PATH: Reply := Reply(None, Some(BadPath))
  const CONTEXT_DONE: Reply := Reply(None, Some(ContextDone))
  const NO_ATTEMPTS: Reply := Reply(None, Some(NoAttempts))

  function Start(j: Job): CallState {
    CallState(if j.Budget() < 0 then Done(NO_ATTEMPTS) else Ready(0), [], [], [], false)
  }

  /** One step of one call. An event the call is not waiting for does nothing. */
  function Step(j: Job, s: CallState, e: Event): CallState {
    match (s.phase, e)
    case (Ready(a), Send) =>
      if j.target.None? then s.(phase := Done(BAD_PATH))
      else s.(phase := InFlight(a), sent := s.sent + j.One())
    case (InFlight(a), Receive(response, draw)) =>
      var reply := ToReply(response);
      s.(phase := if Limited(reply) && a < j.Budget() then Sleeping(a) else Done(reply),
         got := s.got + [Answer(response, draw)])
    case (Sleeping(a), Elapse) =>
      if a < |s.got| then s.(phase := Ready(a + 1), slept := s.slept + [s.got[a].WaitAfter(j.cfg, a)]) else s
    case (Sleeping(_), Cancel) => s.(phase := Done(CONTEXT_DONE), cut := true)
    case _ => s
  }

  function Steps(j: Job, s: CallState, es: seq<Event>): CallState
    decreases |es|
  {
    if es == [] then s else Step(j, Steps(j, s, es[..|es| - 1]), es[|es| - 1])
  }

  /** The world as one call saw it: its own answers, each in its turn. */
  function OwnWorld(s: CallState): World {
    var got, cut := s.got, s.cut;
    World((k: nat) => if k < |got| then got[k].response else Broken(BadPath),
          (k: nat) => if k < |got| then got[k].draw else None,
          (k: nat) => cut && k == |got| - 1)
  }

  /** The call of requestWithRetry that meets that world from its first attempt on. */
  function SoloCall(j: Job, s: CallState): Call { Call(j.cfg, j.target, j.req, OwnWorld(s), 0) }

  ghost predicate AllLimited(got: seq<Answer>, n: nat)
    requires n <= |got|
  {
    forall i :: 0 <= i < n ==> Limited(got[i].Reply())
  }

  /** The call's waits after its first n answers. */
  function WaitsOf(cfg: Config, got: seq<Answer>, n: nat): (w: seq<int64>)
    requires n <= |got|
    ensures |w| == n && forall i :: 0 <= i < n ==> w[i] == got[i].WaitAfter(cfg, i)
  {
    seq(n, i requires 0 <= i < n => got[i].WaitAfter(cfg, i))
  }

  /** How many times a call has tried. */
  function Tries(s: CallState): nat { if s.phase.InFlight? then |s.got| + 1 else |s.got| }

  /** The first a answers were all rate limits, and each was waited out. */
  ghost predicate Retried(j: Job, s: CallState, a: nat)
    requires a <= |s.got|
  {
    AllLimited(s.got, a) && s.slept == WaitsOf(j.cfg, s.got, a)
  }

  /** What every step of a call keeps. */
  ghost predicate Inv(j: Job, s: CallState) {
    && s.sent == Repeat(j.One(), Tries(s))
    && (s.cut ==> s.phase == Done(CONTEXT_DONE))
    && match s.phase
       case Ready(a) => |s.got| == a <= j.Budget() && Retried(j, s, a) && (a > 0 ==> j.target.Some?)
       case InFlight(a) => |s.got| == a <= j.Budget() && Retried(j, s, a) && j.target.Some?
       case Sleeping(a) =>
         |s.got| == a + 1 <= j.Budget() && Retried(j, s, a) && Limited(s.got[a].Reply()) && j.target.Some?
       case Done(reply) =>
         if s.got == [] then
           && s.slept == [] && !s.cut
           && (if j.Budget() < 0 then reply == NO_ATTEMPTS else j.target.None? && reply == BAD_PATH)
         else
           var a := |s.got| - 1;
           && a <= j.Budget() && Retried(j, s, a) && j.target.Some?
           && (if s.cut then Limited(s.got[a].Reply()) && a < j.Budget() && reply == CONTEXT_DONE
               else (!Limited(s.got[a].Reply()) || a == j.Budget()) && reply == s.got[a].Reply())
  }

  lemma RepeatOnceMore<T>(xs: seq<T>, n: nat)
    ensures Repeat(xs, n) + xs == Repeat(xs, n + 1)
  {
    if n > 0 {
      RepeatOnceMore(xs, n - 1);
      assert xs + Repeat(xs, n - 1) + xs == xs + (Repeat(xs, n - 1) + xs);
    } else {
      assert Repeat(xs, 1) == xs + Repeat(xs, 0);
    }
  }

  lemma SendKeepsInv(j: Job, s: CallState)
    requires Inv(j, s) && s.phase.Ready?
    ensures Inv(j, Step(j, s, Send))
  {
    hide Wait, ToReply;
    RepeatOnceMore(j.One(), |s.got|);
  }

  lemma ReceiveKeepsInv(j: Job, s: CallState, response: Response, draw: Draw)
    requires Inv(j, s) && s.phase.InFlight?
    ensures Inv(j, Step(j, s, Receive(response, draw)))
  {
    hide Wait, ToReply;
    var t := Step(j, s, Receive(response, draw));
    assert forall i :: 0 <= i < |s.got| ==> t.got[i] == s.got[i];
    assert WaitsOf(j.cfg, t.got, |s.got|) == WaitsOf(j.cfg, s.got, |s.got|);
  }

  lemma SleepKeepsInv(j: Job, s: CallState, e: Event)
    requires Inv(j, s) && s.phase.Sleeping?
    ensures Inv(j, Step(j, s, e))
  {
    hide Wait, ToReply;
    var a := s.phase.attempt;
    assert WaitsOf(j.cfg, s.got, a + 1) == WaitsOf(j.cfg, s.got, a) + [s.got[a].WaitAfter(j.cfg, a)];
  }

  lemma StepKeepsInv(j: Job, s: CallState, e: Event)
    requires Inv(j, s)
    ensures Inv(j, Step(j, s, e))
  {
    hide Inv;
    if s.phase.Ready? && e.Send? {
      SendKeepsInv(j, s);
    } else if s.phase.InFlight? && e.Receive? {
      ReceiveKeepsInv(j, s, e.response, e.draw);
    } else if s.phase.Sleeping? {
      SleepKeepsInv(j, s, e);
    }
  }

  lemma {:induction false} StepsKeepInv(j: Job, es: seq<Event>)
    ensures Inv(j, Steps(j, Start(j), es))
    decreases |es|
  {
    if es != [] {
      StepsKeepInv(j, es[..|es| - 1]);
      StepKeepsInv(j, Steps(j, Start(j), es[..|es| - 1]), es[|es| - 1]);
    }
  }

  /** The call returned, sent and slept what requestWithRetry does alone on the answers the call received. */
  ghost predicate EndsAsSolo(j: Job, s: CallState)
    requires s.phase.Done?
  {
    var solo := Outcome(SoloCall(j, s));
    solo.reply == s.phase.reply && solo.sent == s.sent && solo.slept == s.slept
  }

  /** A finished call that got answers is its solo call's loop run. */
  lemma SoloLoop(j: Job, s: CallState)
    requires Inv(j, s) && s.phase.Done? && s.got != []
    ensures EndsAsSolo(j, s)
  {
    hide Wait, ToReply, Loop;
    var c, h, a := SoloCall(j, s), SoloCall(j, s).ToScript(), |s.got| - 1;
    forall k | 0 <= k <= a
      ensures h.replies(k) == s.got[k].Reply() && h.waits(k) == s.got[k].WaitAfter(j.cfg, k)
    {
    }
    if j.cfg.retryEnabled {
      assert forall k :: 0 <= k < a ==> h.Retries(k);
      assert StopsAt(h, 0, a);
      LoopIsFirstStop(h, a);
      assert Loop(h, 0).slept == s.slept;
    } else {
      assert Repeat(j.One(), 1) == j.One() + Repeat(j.One(), 0);
    }
  }

  /**
   * Whatever happens to a call, once it is done it has returned, sent and slept exactly what requestWithRetry
   * does on the answers that call itself received.
   */
  lemma DoneCallIsASoloCall(j: Job, es: seq<Event>)
    requires Steps(j, Start(j), es).phase.Done?
    ensures EndsAsSolo(j, Steps(j, Start(j), es))
  {
    hide Step, Wait, ToReply;
    var s := Steps(j, Start(j), es);
    StepsKeepInv(j, es);
    if s.got != [] {
      SoloLoop(j, s);
    } else if 0 <= j.Budget() {
      assert !Limited(BAD_PATH);
      assert Loop(SoloCall(j, s).ToScript(), 0) == End(BAD_PATH, 1, [], []);
    }
  }

  lemma {:induction false} RepeatOfAtMostOne<T>(xs: seq<T>, n: nat)
    requires |xs| <= 1
    ensures |Repeat(xs, n)| <= n
    ensures forall i :: 0 <= i < |Repeat(xs, n)| ==> [Repeat(xs, n)[i]] == xs
  {
    if n > 0 {
      RepeatOfAtMostOne(xs, n - 1);
    }
  }

  /** At every moment a call has sent at most budget + 1 requests, all of them the same bytes to the same URL. */
  lemma CallTraffic(j: Job, es: seq<Event>)
    requires 0 <= j.Budget()
    ensures var s := Steps(j, Start(j), es);
            |s.sent| <= j.Budget() + 1 && forall i :: 0 <= i < |s.sent| ==> [s.sent[i]] == j.One()
  {
    var s := Steps(j, Start(j), es);
    StepsKeepInv(j, es);
    RepeatOfAtMostOne(j.One(), Tries(s));
  }

  /** How far a call is from its end, in steps. */
  function Remaining(j: Job, s: CallState): int {
    match s.phase
    case Ready(a) => 3 * (j.Budget() - a) + 2
    case InFlight(a) => 3 * (j.Budget() - a) + 1
    case Sleeping(a) => 3 * (j.Budget() - a)
    case Done(_) => 0
  }

  /** How many of the events moved the call. */
  function Moves(j: Job, s: CallState, es: seq<Event>): nat
    decreases |es|
  {
    if es == [] then 0
    else
      var before := Steps(j, s, es[..|es| - 1]);
      Moves(j, s, es[..|es| - 1]) + if Step(j, before, es[|es| - 1]) == before then 0 else 1
  }

  /** No call goes on for ever: whatever happens to it, it moves at most 3 * budget + 2 times. */
  lemma {:induction false} CallTerminates(j: Job, es: seq<Event>)
    requires 0 <= j.Budget()
    ensures Moves(j, Start(j), es) + Remaining(j, Steps(j, Start(j), es)) <= 3 * j.Budget() + 2
    ensures 0 <= Remaining(j, Steps(j, Start(j), es))
    decreases |es|
  {
    hide Wait, ToReply;
    StepsKeepInv(j, es);
    if es != [] {
      CallTerminates(j, es[..|es| - 1]);
      StepsKeepInv(j, es[..|es| - 1]);
    }
  }

  /** And no call is ever stuck: until it is done, there is an event that moves it. */
  lemma CallIsNeverStuck(j: Job, es: seq<Event>)
    requires !Steps(j, Start(j), es).phase.Done?
    ensures exists e :: Step(j, Steps(j, Start(j), es), e) != Steps(j, Start(j), es)
  {
    hide Wait, ToReply;
    var s := Steps(j, Start(j), es);
    match s.phase
    case Ready(_) => assert Step(j, s, Send).phase != s.phase;
    case InFlight(_) => assert Step(j, s, Receive(Broken(BadPath), None)).phase != s.phase;
    case Sleeping(_) => assert Step(j, s, Cancel).phase != s.phase;
  }

  // ----- calls sharing a client

  /** The events of a schedule that concern call i, in their order. */
  function Project(schedule: seq<(nat, Event)>, i: nat): seq<Event>
    decreases |schedule|
  {
    if schedule == [] then []
    else
      var (n, e) := schedule[|schedule| - 1];
      Project(schedule[..|schedule| - 1], i) + if n == i then [e] else []
  }

  /** A call in progress: it shares the client and keeps everything else to itself. */
  class Flight {
    const client: Client
    const req: Request
    var state: CallState

    constructor (client: Client, req: Request)
      ensures this.client == client && this.req == req
      ensures state == Start(JobNow())
    {
      this.client, this.req := client, req;
      new;
      state := Start(JobNow());
    }

    /** The job as the client's present settings define it. */
    function JobNow(): Job
      reads this, client, client.baseURL
    {
      Job(client.Settings(), Resolve(client.baseURL.Value(), req.path), req)
    }

    /** Lets one event happen to this call; a send resolves a URL of its own from the shared base. */
    method Advance(e: Event)
      modifies this
      ensures state == Step(old(JobNow()), old(state), e)
    {
      if state.phase.Ready? && e.Send? {
        var u := ResolvePath(client.baseURL, req.path);
        if u == null {
          state := state.(phase := Done(BAD_PATH));
        } else {
          if req.query.Some? {
            u.SetQuery(req.query.value);
          }
          var sent := Sent(req.verb, u.Value(), client.userAgent, req.body);
          state := state.(phase := InFlight(state.phase.attempt), sent := state.sent + [sent]);
        }
      } else {
        state := Step(JobNow(), state, e);
      }
    }
  }

  /** One more event in a schedule is one more step for the call it names, and none for the others. */
  lemma ScheduleSnoc(j: Job, s: CallState, schedule: seq<(nat, Event)>, n: nat, e: Event, i: nat)
    ensures var was := Steps(j, s, Project(schedule, i));
            Steps(j, s, Project(schedule + [(n, e)], i)) == if n == i then Step(j, was, e) else was
  {
    hide Step;
    var es := Project(schedule, i);
    assert (schedule + [(n, e)])[..|schedule|] == schedule;
    if n == i {
      assert (es + [e])[..|es|] == es;
    } else {
      assert es + [] == es;
    }
  }

  lemma NoEvents(j: Job, s: CallState, i: nat)
    ensures Steps(j, s, Project([], i)) == s
  {
  }

  /**
   * Runs any schedule of events over any number of calls on one client. Each call ends up exactly where its own
   * events alone would have taken it; the client and its base URL are not in the frame, so they cannot change.
   */
  method Interleave(client: Client, flights: seq<Flight>, schedule: seq<(nat, Event)>)
    requires forall i :: 0 <= i < |flights| ==> flights[i].client == client
    requires forall i, k :: 0 <= i < k < |flights| ==> flights[i] != flights[k]
    modifies set f | f in flights
    ensures forall i :: 0 <= i < |flights| ==>
              flights[i].state == Steps(old(flights[i].JobNow()), old(flights[i].state), Project(schedule, i))
    ensures client.Settings() == old(client.Settings()) && client.baseURL.Value() == old(client.baseURL.Value())
  {
    hide Step, Resolve, Steps, Project;
    forall i | 0 <= i < |flights|
      ensures flights[i].state == Steps(flights[i].JobNow(), flights[i].state, Project(schedule[..0], i))
    {
      NoEvents(flights[i].JobNow(), flights[i].state, i);
    }
    for n := 0 to |schedule|
      invariant forall i :: 0 <= i < |flights| ==>
                  flights[i].state
                  == Steps(old(flights[i].JobNow()), old(flights[i].state), Project(schedule[..n], i))
    {
      var (i, e) := schedule[n];
      label before:
      if i < |flights| {
        assert flights[i].JobNow() == old(flights[i].JobNow());
        flights[i].Advance(e);
      }
      forall k | 0 <= k < |flights|
        ensures flights[k].state
                == Steps(old(flights[k].JobNow()), old(flights[k].state), Project(schedule[..n + 1], k))
      {
        assert flights[k].state ==
               if k == i then Step(old(flights[k].JobNow()), old@before(flights[k].state), e)
               else old@before(flights[k].state);
        assert schedule[..n + 1] == schedule[..n] + [(i, e)];
        ScheduleSnoc(old(flights[k].JobNow()), old(flights[k].state), schedule[..n], i, e, k);
      }
    }
    assert schedule[..|schedule|] == schedule;
  }

  /** Requests sent by the first n of the calls under a schedule. */
  function TotalSent(jobs: seq<Job>, schedule: seq<(nat, Event)>, n: nat): nat
    requires n <= |jobs|
  {
    if n == 0 then 0
    else TotalSent(jobs, schedule, n - 1) + |Steps(jobs[n - 1], Start(jobs[n - 1]), Project(schedule, n - 1)).sent|
  }

  lemma OneMoreTime(n: nat, m: int)
    requires n > 0
    ensures n * m == (n - 1) * m + m
  {
  }

  /** Under every schedule, calls on one client send at most (budget + 1) requests each. */
  lemma {:induction false} TotalTraffic(cfg: Config, jobs: seq<Job>, schedule: seq<(nat, Event)>, n: nat)
    requires n <= |jobs| && cfg.maxRetries >= 0
    requires forall i :: 0 <= i < |jobs| ==> jobs[i].cfg == cfg
    ensures TotalSent(jobs, schedule, n) <= n * (cfg.maxRetries + 1)
  {
    if n > 0 {
      hide Steps, Start, Project;
      TotalTraffic(cfg, jobs, schedule, n - 1);
      CallTraffic(jobs[n - 1], Project(schedule, n - 1));
      OneMoreTime(n, cfg.maxRetries + 1);
    }
  }

  /** Requests the first n flights have sent. */
  function SentBy(flights: seq<Flight>, n: nat): nat
    requires n <= |flights|
    reads flights
  {
    if n == 0 then 0 else SentBy(flights, n - 1) + |flights[n - 1].state.sent|
  }

  lemma {:induction false} SentByAtMost(flights: seq<Flight>, n: nat, each: nat)
    requires n <= |flights|
    requires forall i :: 0 <= i < |flights| ==> |flights[i].state.sent| <= each
    ensures SentBy(flights, n) <= n * each
  {
    if n > 0 {
      SentByAtMost(flights, n - 1, each);
      OneMoreTime(n, each);
    }
  }

  /**
   * The promise that a Client is safe for concurrent use, whole: whatever the schedule, every call that is done
   * has ended as it would have alone, the requests sent add up to at most budget + 1 for each call, and the client
   * and its base URL are as they were.
   */
  method ShareClient(client: Client, flights: seq<Flight>, schedule: seq<(nat, Event)>)
    requires forall i :: 0 <= i < |flights| ==> flights[i].client == client
    requires forall i, k :: 0 <= i < k < |flights| ==> flights[i] != flights[k]
    requires forall i :: 0 <= i < |flights| ==> flights[i].state == Start(flights[i].JobNow())
    requires Sound(client.Settings())
    modifies set f | f in flights
    ensures forall i :: 0 <= i < |flights| && flights[i].state.phase.Done? ==>
              EndsAsSolo(old(flights[i].JobNow()), flights[i].state)
    ensures SentBy(flights, |flights|) <= |flights| * (old(client.maxRetries) + 1)
    ensures client.Settings() == old(client.Settings()) && client.baseURL.Value() == old(client.baseURL.Value())
  {
    hide Start, Steps, EndsAsSolo;
    Interleave(client, flights, schedule);
    forall i | 0 <= i < |flights|
      ensures flights[i].state.phase.Done? ==> EndsAsSolo(old(flights[i].JobNow()), flights[i].state)
      ensures |flights[i].state.sent| <= client.maxRetries + 1
    {
      var job := old(flights[i].JobNow());
      assert flights[i].state == Steps(job, Start(job), Project(schedule, i));
      CallTraffic(job, Project(schedule, i));
      if flights[i].state.phase.Done? { DoneCallIsASoloCall(job, Project(schedule, i)); }
    }
    SentByAtMost(flights, |flights|, client.maxRetries + 1);
  }
}
