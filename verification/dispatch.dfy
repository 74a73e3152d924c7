/**
 `BaseClient` as a sequential state machine. In asynchronous mode callers put
 `(id, call)` requests on a FIFO queue and poll a results map; one worker
 takes the head of the queue, calls the transport, and stores the outcome
 under the request's id. Threads become interleavings of explicit events,
 `uuid4` becomes a freshness precondition on the id, and wall-clock time
 becomes an abstract clock that only moves forward.

 The worker's transport call is split into two events, `StartCall` (the
 transport is entered) and `Publish` (it returns), so that "at most one call
 is in flight" is a property of the observable transport log rather than of
 the shape of the model.
 */
module Dispatch {
  import opened Types

  /** The opaque correlation id (`uuid4` in the source). */
  type Id = nat

  datatype Request = Request(id: Id, call: Call)

  /** What an instrumented transport observes: a call begins, a call ends. */
  datatype TransportEvent = Enter(request: Request) | Exit(id: Id, outcome: Outcome)

  /** An asynchronous client and its worker.
      `waiting` maps the id of every caller still inside `make_request` to the
      time it started polling; `issued`, `history` and `log` record what has
      happened so far (every id handed out, every request in submission order,
      and every transport entry and exit). */
  datatype Client = Client(
    timeout: int,
    now: int,
    queue: seq<Request>,
    results: map<Id, Outcome>,
    inFlight: Option<Request>,
    waiting: map<Id, int>,
    issued: set<Id>,
    history: seq<Request>,
    log: seq<TransportEvent>)

  /** A client just constructed with `async_timeout = timeout` at time `now`. */
  function Init(timeout: int, now: int): Client {
    Client(timeout, now, [], map[], None, map[], {}, [], [])
  }

  /* ---------- transitions ---------- */

  /** `make_request`, first half: enqueue a request under a fresh id and start
      the caller's timer. */
  function Enqueue(c: Client, id: Id, call: Call): Client
    requires id !in c.issued
  {
    var r := Request(id, call);
    c.(queue := c.queue + [r], waiting := c.waiting[id := c.now],
       issued := c.issued + {id}, history := c.history + [r])
  }

  /** The worker is between calls and the queue is not empty. */
  predicate CanStart(c: Client) {
    c.inFlight.None? && |c.queue| > 0
  }

  /** `process_requests`: take the head of the queue and enter the transport.
      With the worker busy or the queue empty, nothing happens. */
  function StartCall(c: Client): Client {
    if !CanStart(c) then c
    else c.(queue := c.queue[1..], inFlight := Some(c.queue[0]), log := c.log + [Enter(c.queue[0])])
  }

  /** `process_requests`: the transport returned or raised `outcome`; store it
      under the id of the request being served. */
  function Publish(c: Client, outcome: Outcome): Client {
    match c.inFlight
    case None => c
    case Some(r) =>
      c.(results := c.results[r.id := outcome], inFlight := None, log := c.log + [Exit(r.id, outcome)])
  }

  /** One full iteration of the worker loop with a deterministic transport. */
  function WorkerStep(c: Client, transport: Call -> Outcome): Client {
    if !CanStart(c) then c else Publish(StartCall(c), transport(c.queue[0].call))
  }

  /** `make_request`, one iteration of the polling loop of the caller waiting
      on `id`: time out when the timer has run out, otherwise pop the outcome
      if it is there. `None` means the caller keeps polling; `Some(o)` ends
      `make_request` with `o` (a success is returned, a failure raised). */
  function Poll(c: Client, id: Id): (r: (Client, Option<Outcome>))
    requires id in c.waiting
  {
    if !(c.now - c.waiting[id] < c.timeout) then
      (c.(waiting := c.waiting - {id}), Some(Failure(RequestTimeout(id))))
    else if id in c.results then
      (c.(results := c.results - {id}, waiting := c.waiting - {id}), Some(c.results[id]))
    else
      (c, None)
  }

  /** Time passes. */
  function Advance(c: Client, elapsed: nat): Client {
    c.(now := c.now + elapsed)
  }

  /** `make_request` in synchronous mode: the transport is called directly,
      with no queue, worker or results map. */
  function MakeRequestSync(transport: Call -> Outcome, call: Call): Outcome {
    transport(call)
  }

  /** Everything that can happen to an asynchronous client. */
  datatype Event =
    | Submit(id: Id, call: Call)
    | Take
    | Finish(outcome: Outcome)
    | Check(id: Id)
    | Tick(elapsed: nat)

  /** One event. An event that cannot happen in the source (a reused id, a
      poll by a caller that is not waiting) leaves the client unchanged. */
  function Next(c: Client, e: Event): Client {
    match e
    case Submit(id, call) => if id in c.issued then c else Enqueue(c, id, call)
    case Take => StartCall(c)
    case Finish(o) => Publish(c, o)
    case Check(id) => if id in c.waiting then Poll(c, id).0 else c
    case Tick(d) => Advance(c, d)
  }

  function Replay(c: Client, events: seq<Event>): Client
    decreases |events|
  {
    if |events| == 0 then c else Replay(Next(c, events[0]), events[1..])
  }

  /* ---------- observations ---------- */

  function Ids(q: seq<Request>): set<Id> {
    set r | r in q :: r.id
  }

  function ExitIds(log: seq<TransportEvent>): set<Id> {
    set e | e in log && e.Exit? :: e.id
  }

  /** The requests the transport was entered with, in order. */
  function Entered(log: seq<TransportEvent>): seq<Request>
    decreases |log|
  {
    if |log| == 0 then []
    else Entered(log[..|log| - 1]) + (if log[|log| - 1].Enter? then [log[|log| - 1].request] else [])
  }

  /** The re-entrancy flag of an instrumented transport after `log`: set on
      entry, cleared on exit. */
  predicate InProgress(log: seq<TransportEvent>) {
    |log| > 0 && log[|log| - 1].Enter?
  }

  /** The instrumented transport never sees an entry while its flag is set,
      i.e. never more than one call in flight. */
  ghost predicate ReentryFree(log: seq<TransportEvent>) {
    forall i :: 0 <= i < |log| && log[i].Enter? ==> !InProgress(log[..i])
  }

  /** Entries and exits alternate, starting with an entry, and every exit
      belongs to the request entered just before it. */
  ghost predicate Alternating(log: seq<TransportEvent>) {
    && (forall i :: 0 <= i < |log| ==> (log[i].Enter? <==> i % 2 == 0))
    && (forall i :: 1 <= i < |log| && log[i].Exit? ==> log[i - 1].Enter? && log[i].id == log[i - 1].request.id)
  }

  ghost predicate DistinctIds(q: seq<Request>) {
    forall i, j :: 0 <= i < j < |q| ==> q[i].id != q[j].id
  }

  /** No id is published twice. */
  ghost predicate ExitsDistinct(log: seq<TransportEvent>) {
    forall i, j :: 0 <= i < j < |log| && log[i].Exit? && log[j].Exit? ==> log[i].id != log[j].id
  }

  /** Whatever the results map holds for an id is what the transport answered
      for it. */
  ghost predicate ResultsMatchLog(results: map<Id, Outcome>, log: seq<TransportEvent>) {
    forall i :: 0 <= i < |log| && log[i].Exit? && log[i].id in results ==> results[log[i].id] == log[i].outcome
  }

  /** At most one request in flight, and it is the last one entered. */
  ghost predicate LogShape(c: Client) {
    && Alternating(c.log)
    && (c.inFlight.Some? <==> |c.log| % 2 == 1)
    && (c.inFlight.Some? ==> c.log[|c.log| - 1] == Enter(c.inFlight.value))
  }

  /** Ids are handed out once: every id in use was issued, queued ids are
      distinct, and a pending request has no outcome yet and was never
      published. */
  ghost predicate Fresh(c: Client) {
    && DistinctIds(c.queue)
    && Ids(c.queue) <= c.issued && ExitIds(c.log) <= c.issued
    && c.results.Keys <= c.issued && c.waiting.Keys <= c.issued
    && (c.inFlight.Some? ==> c.inFlight.value.id in c.issued)
    && (c.inFlight.Some? ==> c.inFlight.value.id !in Ids(c.queue))
    && Ids(c.queue) !! ExitIds(c.log)
    && Ids(c.queue) !! c.results.Keys
    && (c.inFlight.Some? ==> c.inFlight.value.id !in ExitIds(c.log))
    && (c.inFlight.Some? ==> c.inFlight.value.id !in c.results)
  }

  /** The registry holds only published outcomes, each published once. */
  ghost predicate Registry(c: Client) {
    && c.results.Keys <= ExitIds(c.log)
    && ExitsDistinct(c.log)
    && ResultsMatchLog(c.results, c.log)
  }

  /** The invariant every reachable client satisfies; the third conjunct is
      FIFO order: the transport sees requests in submission order. */
  ghost predicate Inv(c: Client) {
    && LogShape(c)
    && Fresh(c)
    && Entered(c.log) + c.queue == c.history
    && Registry(c)
  }

  /* ---------- helper facts ---------- */

  lemma EnteredAppend(log: seq<TransportEvent>, e: TransportEvent)
    ensures Entered(log + [e]) == Entered(log) + (if e.Enter? then [e.request] else [])
  {
    assert (log + [e])[..|log|] == log;
  }

  lemma IdsAppend(q: seq<Request>, r: Request)
    ensures Ids(q + [r]) == Ids(q) + {r.id}
  {
    assert forall x :: x in q + [r] <==> x in q || x == r;
  }

  lemma IdsTail(q: seq<Request>)
    requires |q| > 0 && DistinctIds(q)
    ensures Ids(q[1..]) == Ids(q) - {q[0].id}
  {
    assert q == [q[0]] + q[1..];
    assert forall x :: x in q <==> x == q[0] || x in q[1..];
    forall x | x in q[1..]
      ensures x.id != q[0].id
    {
      var j :| 0 <= j < |q[1..]| && q[1..][j] == x;
      assert q[j + 1] == x;
    }
  }

  lemma ExitIdsAppend(log: seq<TransportEvent>, e: TransportEvent)
    ensures ExitIds(log + [e]) == ExitIds(log) + (if e.Exit? then {e.id} else {})
  {
    assert forall x :: x in log + [e] <==> x in log || x == e;
  }

  /* ---------- the invariant holds initially and is preserved ---------- */

  lemma InitInv(timeout: int, now: int)
    ensures Inv(Init(timeout, now))
  {
  }

  lemma EnqueuePreservesInv(c: Client, id: Id, call: Call)
    requires Inv(c) && id !in c.issued
    ensures Inv(Enqueue(c, id, call))
  {
    var r := Request(id, call);
    var c' := Enqueue(c, id, call);
    IdsAppend(c.queue, r);
    assert Entered(c'.log) + c'.queue == (Entered(c.log) + c.queue) + [r];
    forall i, j | 0 <= i < j < |c'.queue|
      ensures c'.queue[i].id != c'.queue[j].id
    {
      if j == |c.queue| {
        assert c'.queue[i] in c.queue;
      }
    }
  }

  lemma StartCallPreservesInv(c: Client)
    requires Inv(c)
    ensures Inv(StartCall(c))
  {
    if CanStart(c) {
      var h := c.queue[0];
      var c' := StartCall(c);
      EnteredAppend(c.log, Enter(h));
      assert c.queue == [h] + c.queue[1..];
      assert Entered(c'.log) + c'.queue == Entered(c.log) + c.queue;
      StartCallKeepsShape(c);
      StartCallKeepsFresh(c);
      StartCallKeepsRegistry(c);
    }
  }

  lemma StartCallKeepsShape(c: Client)
    requires LogShape(c) && CanStart(c)
    ensures LogShape(StartCall(c))
  {
    var c' := StartCall(c);
    assert c'.log[|c.log|] == Enter(c.queue[0]);
  }

  lemma StartCallKeepsFresh(c: Client)
    requires Fresh(c) && CanStart(c)
    ensures Fresh(StartCall(c))
  {
    var h := c.queue[0];
    ExitIdsAppend(c.log, Enter(h));
    IdsTail(c.queue);
    assert h in c.queue;
  }

  lemma StartCallKeepsRegistry(c: Client)
    requires Registry(c) && CanStart(c)
    ensures Registry(StartCall(c))
  {
    var c' := StartCall(c);
    ExitIdsAppend(c.log, Enter(c.queue[0]));
    assert forall i :: 0 <= i < |c.log| ==> c'.log[i] == c.log[i];
  }

  lemma PublishPreservesInv(c: Client, o: Outcome)
    requires Inv(c)
    ensures Inv(Publish(c, o))
  {
    if c.inFlight.Some? {
      PublishKeepsShape(c, o);
      PublishKeepsRegistry(c, o);
      PublishKeepsFresh(c, o);
      PublishKeepsOrder(c, o);
    }
  }

  lemma PublishKeepsOrder(c: Client, o: Outcome)
    requires Entered(c.log) + c.queue == c.history && c.inFlight.Some?
    ensures var c' := Publish(c, o); Entered(c'.log) + c'.queue == c'.history
  {
    EnteredAppend(c.log, Exit(c.inFlight.value.id, o));
  }

  lemma PublishKeepsFresh(c: Client, o: Outcome)
    requires Fresh(c) && c.inFlight.Some?
    ensures Fresh(Publish(c, o))
  {
    ExitIdsAppend(c.log, Exit(c.inFlight.value.id, o));
  }

  lemma PublishKeepsShape(c: Client, o: Outcome)
    requires LogShape(c) && c.inFlight.Some?
    ensures LogShape(Publish(c, o))
  {
    var r := c.inFlight.value;
    var c' := Publish(c, o);
    assert c'.log[|c.log|] == Exit(r.id, o);
  }

  lemma PublishKeepsRegistry(c: Client, o: Outcome)
    requires Registry(c) && c.inFlight.Some? && c.inFlight.value.id !in ExitIds(c.log)
    ensures Registry(Publish(c, o))
  {
    var r := c.inFlight.value;
    var c' := Publish(c, o);
    var n := |c.log|;
    ExitIdsAppend(c.log, Exit(r.id, o));
    {
      forall i, j | 0 <= i < j < |c'.log| && c'.log[i].Exit? && c'.log[j].Exit?
        ensures c'.log[i].id != c'.log[j].id
      {
        if j == n {
          assert c.log[i] in c.log;
        }
      }
      forall i | 0 <= i < |c'.log| && c'.log[i].Exit? && c'.log[i].id in c'.results
        ensures c'.results[c'.log[i].id] == c'.log[i].outcome
      {
        if i < n {
          assert c.log[i] in c.log;
        }
      }
    }
  }

  lemma PollPreservesInv(c: Client, id: Id)
    requires Inv(c) && id in c.waiting
    ensures Inv(Poll(c, id).0)
  {
    var c' := Poll(c, id).0;
    assert c'.log == c.log && c'.queue == c.queue && c'.history == c.history;
    assert c'.inFlight == c.inFlight && c'.issued == c.issued;
    assert c'.results.Keys <= c.results.Keys;
    assert forall k :: k in c'.results ==> c'.results[k] == c.results[k];
  }

  lemma NextPreservesInv(c: Client, e: Event)
    requires Inv(c)
    ensures Inv(Next(c, e))
  {
    match e
    case Submit(id, call) => if id !in c.issued { EnqueuePreservesInv(c, id, call); }
    case Take => StartCallPreservesInv(c);
    case Finish(o) => PublishPreservesInv(c, o);
    case Check(id) => if id in c.waiting { PollPreservesInv(c, id); }
    case Tick(d) =>
  }

  lemma {:induction false} ReplayPreservesInv(c: Client, events: seq<Event>)
    requires Inv(c)
    ensures Inv(Replay(c, events))
    decreases |events|
  {
    if |events| > 0 {
      NextPreservesInv(c, events[0]);
      ReplayPreservesInv(Next(c, events[0]), events[1..]);
    }
  }

  lemma AlternatingIsReentryFree(log: seq<TransportEvent>)
    requires Alternating(log)
    ensures ReentryFree(log)
  {
    forall i | 0 <= i < |log| && log[i].Enter?
      ensures !InProgress(log[..i])
    {
      if i > 0 {
        assert log[..i][i - 1] == log[i - 1];
      }
    }
  }

  /** Under any interleaving of callers, worker and clock, the transport is
      entered in submission order, one call at a time, each exit belonging to
      the call entered before it; and every id is published at most once. */
  lemma Reachable(timeout: int, now: int, events: seq<Event>)
    ensures var c := Replay(Init(timeout, now), events);
      && ReentryFree(c.log)
      && Alternating(c.log)
      && Entered(c.log) + c.queue == c.history
      && ExitsDistinct(c.log)
      && ResultsMatchLog(c.results, c.log)
  {
    InitInv(timeout, now);
    ReplayPreservesInv(Init(timeout, now), events);
    AlternatingIsReentryFree(Replay(Init(timeout, now), events).log);
  }

  /* ---------- the worker ---------- */

  /** The worker serves the head of the queue and stores the transport's
      answer, success or failure, under that request's id, which had no
      outcome before; afterwards it is ready for the next request. */
  lemma WorkerStepServesHead(c: Client, transport: Call -> Outcome)
    requires Inv(c) && CanStart(c)
    ensures var h := c.queue[0];
      var c' := WorkerStep(c, transport);
      && h.id !in c.results
      && c'.queue == c.queue[1..]
      && c'.results == c.results[h.id := transport(h.call)]
      && c'.inFlight.None?
      && c'.log == c.log + [Enter(h), Exit(h.id, transport(h.call))]
      && c'.waiting == c.waiting
  {
  }

  /** A transport failure does not stop the worker: the failure is stored for
      its caller and the next request is served by the very next step. */
  lemma FailureDoesNotStopWorker(c: Client, transport: Call -> Outcome)
    requires Inv(c) && CanStart(c) && |c.queue| >= 2
    requires transport(c.queue[0].call).Failure?
    ensures var c2 := WorkerStep(WorkerStep(c, transport), transport);
      && c2.queue == c.queue[2..]
      && c2.results[c.queue[0].id] == transport(c.queue[0].call)
      && c2.results[c.queue[1].id] == transport(c.queue[1].call)
  {
    var c1 := WorkerStep(c, transport);
    WorkerStepServesHead(c, transport);
    StartCallPreservesInv(c);
    PublishPreservesInv(StartCall(c), transport(c.queue[0].call));
    assert c1.queue[0] == c.queue[1];
    assert c.queue[0].id != c.queue[1].id;
    WorkerStepServesHead(c1, transport);
  }

  /** `n` worker steps with a deterministic transport. */
  function Drain(c: Client, transport: Call -> Outcome, n: nat): Client
    decreases n
  {
    if n == 0 then c else WorkerStep(Drain(c, transport, n - 1), transport)
  }

  /** Draining `k` requests serves exactly the first `k` of the queue, in
      order, each under its own id, and leaves the invariant intact. */
  lemma DrainServesPrefix(c: Client, transport: Call -> Outcome, k: nat)
    requires Inv(c) && c.inFlight.None? && k <= |c.queue|
    ensures var d := Drain(c, transport, k);
      && Inv(d)
      && d.inFlight.None?
      && d.queue == c.queue[k..]
      && d.waiting == c.waiting && d.now == c.now && d.timeout == c.timeout
      && (forall i :: 0 <= i < k ==> c.queue[i].id in d.results && d.results[c.queue[i].id] == transport(c.queue[i].call))
  {
    DrainKeepsInv(c, transport, k);
    DrainServes(c, transport, k);
  }

  lemma {:induction false} DrainKeepsInv(c: Client, transport: Call -> Outcome, k: nat)
    requires Inv(c)
    ensures Inv(Drain(c, transport, k))
    decreases k
  {
    if k > 0 {
      DrainKeepsInv(c, transport, k - 1);
      WorkerStepPreservesInv(Drain(c, transport, k - 1), transport);
    }
  }

  lemma {:induction false} DrainServes(c: Client, transport: Call -> Outcome, k: nat)
    requires DistinctIds(c.queue) && c.inFlight.None? && k <= |c.queue|
    ensures var d := Drain(c, transport, k);
      && d.inFlight.None?
      && d.queue == c.queue[k..]
      && d.waiting == c.waiting && d.now == c.now && d.timeout == c.timeout
      && (forall i :: 0 <= i < k ==> c.queue[i].id in d.results && d.results[c.queue[i].id] == transport(c.queue[i].call))
    decreases k
  {
    if k > 0 {
      DrainServes(c, transport, k - 1);
      var d := Drain(c, transport, k - 1);
      var h := c.queue[k - 1];
      assert d.queue[0] == h;
      var d' := WorkerStep(d, transport);
      assert d'.results == d.results[h.id := transport(h.call)];
      assert d'.queue == c.queue[k..];
      assert forall i :: 0 <= i < k - 1 ==> c.queue[i].id != h.id;
    }
  }

  lemma WorkerStepPreservesInv(c: Client, transport: Call -> Outcome)
    requires Inv(c)
    ensures Inv(WorkerStep(c, transport))
  {
    if CanStart(c) {
      StartCallPreservesInv(c);
      PublishPreservesInv(StartCall(c), transport(c.queue[0].call));
    }
  }

  /** Asynchronous mode answers what synchronous mode would: a caller that
      enqueues a call behind an idle worker gets the transport's own outcome
      for it once the worker has drained the queue, provided the timeout has
      not run out. */
  lemma AsyncMatchesSync(c: Client, id: Id, call: Call, transport: Call -> Outcome)
    requires Inv(c) && c.inFlight.None? && id !in c.issued && c.timeout > 0
    ensures var c1 := Enqueue(c, id, call);
      var d := Drain(c1, transport, |c1.queue|);
      id in d.waiting && Poll(d, id).1 == Some(MakeRequestSync(transport, call))
  {
    var c1 := Enqueue(c, id, call);
    EnqueuePreservesInv(c, id, call);
    DrainServesPrefix(c1, transport, |c1.queue|);
    assert c1.queue[|c.queue|] == Request(id, call);
  }

  /* ---------- the caller ---------- */

  /** A poll that finds the outcome in time hands it over and removes it, and
      nothing else: a success is returned and a failure re-raised exactly as
      stored. */
  lemma PollConsumesOnce(c: Client, id: Id)
    requires id in c.waiting && id in c.results
    requires c.now - c.waiting[id] < c.timeout
    ensures var (c', answer) := Poll(c, id);
      && answer == Some(c.results[id])
      && c'.results == c.results - {id}
      && c'.waiting == c.waiting - {id}
      && c'.queue == c.queue && c'.log == c.log && c'.inFlight == c.inFlight
  {
  }

  /** The caller gives up exactly when its timer has run out, with an error
      naming the id, and leaves the registry untouched; before then a missing
      outcome means another poll. */
  lemma PollTimeout(c: Client, id: Id)
    requires id in c.waiting
    ensures var (c', answer) := Poll(c, id);
      && (!(c.now - c.waiting[id] < c.timeout) ==>
            && answer == Some(Failure(RequestTimeout(id))) && c'.results == c.results
            && c'.waiting == c.waiting - {id}
            && c'.queue == c.queue && c'.log == c.log && c'.inFlight == c.inFlight)
      && (c.now - c.waiting[id] < c.timeout && id !in c.results ==> answer.None? && c' == c)
  {
  }

  /** A consumed outcome never reappears: once an id has been published and
      taken, no later event stores anything under it again. */
  lemma {:induction false} ConsumedStaysAbsent(c: Client, events: seq<Event>, id: Id)
    requires Inv(c) && id in ExitIds(c.log) && id !in c.results
    ensures id !in Replay(c, events).results
    decreases |events|
  {
    if |events| > 0 {
      NextPreservesInv(c, events[0]);
      ConsumedStep(c, events[0], id);
      ConsumedStaysAbsent(Next(c, events[0]), events[1..], id);
    }
  }

  lemma ConsumedStep(c: Client, e: Event, id: Id)
    requires Fresh(c) && id in ExitIds(c.log) && id !in c.results
    ensures id in ExitIds(Next(c, e).log) && id !in Next(c, e).results
  {
    match e {
      case Finish(o) =>
        if c.inFlight.Some? {
          ExitIdsAppend(c.log, Exit(c.inFlight.value.id, o));
        }
      case Take =>
        if CanStart(c) {
          ExitIdsAppend(c.log, Enter(c.queue[0]));
        }
      case _ =>
    }
  }

  /** An outcome whose caller is no longer waiting (it timed out) stays in the
      registry, unchanged, whatever happens next. */
  lemma {:induction false} AbandonedOutcomeStays(c: Client, events: seq<Event>, id: Id)
    requires Inv(c) && id in c.results && id !in c.waiting
    ensures id in Replay(c, events).results
    ensures Replay(c, events).results[id] == c.results[id]
    decreases |events|
  {
    if |events| > 0 {
      NextPreservesInv(c, events[0]);
      AbandonedStep(c, events[0], id);
      AbandonedOutcomeStays(Next(c, events[0]), events[1..], id);
    }
  }

  lemma AbandonedStep(c: Client, e: Event, id: Id)
    requires Fresh(c) && id in c.results && id !in c.waiting
    ensures var c' := Next(c, e);
      id in c'.results && c'.results[id] == c.results[id] && id !in c'.waiting
  {
  }

  /** Each event removes at most one registry entry: a poll removes its own
      id, every other event removes nothing. */
  lemma OnlyPollsRemove(c: Client, e: Event)
    requires Inv(c)
    ensures e.Check? ==> c.results.Keys - {e.id} <= Next(c, e).results.Keys
    ensures !e.Check? ==> c.results.Keys <= Next(c, e).results.Keys
  {
  }
}
