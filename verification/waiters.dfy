/**
 The polling helpers of `utils.py` as functions of what the client observes.
 A trace lists, one probe per loop iteration, the clock reading the loop makes
 in that iteration and what `make_request` answered to the query it issues.
 The result is the verdict (`Undecided` when the trace runs out before the loop
 ends) and the queries and sleeps the waiter performed, in order.

 The two waiters read the clock at different points:
 `wait_for_transaction` queries first and then compares `now > start + max_wait`;
 `wait_for_block` compares `now < start + max_wait` before it queries. In a
 probe of `wait_for_block` whose clock reading ends the loop, the response is
 never looked at.
 */
module Waiters {
  import opened Types
  import JsonRpc
  import Hex

  datatype Probe = Probe(now: int, response: Outcome)

  datatype Action = Query(call: Call) | Sleep(seconds: nat)

  datatype Verdict = Done(value: Json) | Raised(error: Error) | Undecided

  datatype Run = Run(verdict: Verdict, actions: seq<Action>)

  const ReceiptTimeoutMessage := "Could not get transaction receipt"
  const BlockTimeoutMessage := "Did not reach block"

  /** `k` failed attempts: each query followed by exactly one sleep. */
  function Attempts(call: Call, sleepTime: nat, k: nat): (a: seq<Action>)
    ensures |a| == 2 * k
    ensures forall i :: 0 <= i < |a| ==> a[i] == (if i % 2 == 0 then Query(call) else Sleep(sleepTime))
    decreases k
  {
    if k == 0 then [] else [Query(call), Sleep(sleepTime)] + Attempts(call, sleepTime, k - 1)
  }

  function CountQueries(actions: seq<Action>): nat
    decreases |actions|
  {
    if |actions| == 0 then 0
    else (if actions[0].Query? then 1 else 0) + CountQueries(actions[1..])
  }

  lemma {:induction false} CountQueriesAppend(a: seq<Action>, b: seq<Action>)
    ensures CountQueries(a + b) == CountQueries(a) + CountQueries(b)
    decreases |a|
  {
    if |a| > 0 {
      assert (a + b)[1..] == a[1..] + b;
      CountQueriesAppend(a[1..], b);
    } else {
      assert a + b == b;
    }
  }

  lemma {:induction false} AttemptsQueries(call: Call, sleepTime: nat, k: nat)
    ensures CountQueries(Attempts(call, sleepTime, k)) == k
    decreases k
  {
    if k > 0 {
      AttemptsQueries(call, sleepTime, k - 1);
      CountQueriesAppend([Query(call), Sleep(sleepTime)], Attempts(call, sleepTime, k - 1));
    }
  }

  /** After the first probe, the clock advances by at least `sleepTime` per
      iteration, as `time.sleep(sleep_time)` guarantees. */
  ghost predicate Paced(trace: seq<Probe>, sleepTime: nat) {
    forall j :: 1 <= j < |trace| ==> trace[j].now >= trace[j - 1].now + sleepTime
  }

  /** How many iterations can pass with the clock at most `maxWait` past the
      start, when each takes at least `sleepTime > 0`. */
  function Patience(maxWait: int, sleepTime: nat): nat
    requires sleepTime > 0
  {
    if maxWait < 0 then 0 else maxWait / sleepTime + 1
  }

  lemma {:induction false} PacedClock(trace: seq<Probe>, sleepTime: nat, j: nat)
    requires Paced(trace, sleepTime) && j < |trace|
    ensures trace[j].now >= trace[0].now + j * sleepTime
    decreases j
  {
    if j > 0 {
      PacedClock(trace, sleepTime, j - 1);
    }
  }

  /** Once the iteration count reaches `Patience`, the clock is past the deadline. */
  lemma PatienceExceedsDeadline(trace: seq<Probe>, start: int, maxWait: int, sleepTime: nat)
    requires sleepTime > 0 && Paced(trace, sleepTime)
    requires |trace| > Patience(maxWait, sleepTime) && trace[0].now >= start
    ensures trace[Patience(maxWait, sleepTime)].now > start + maxWait
  {
    var p := Patience(maxWait, sleepTime);
    PacedClock(trace, sleepTime, p);
    if maxWait >= 0 {
      var q := maxWait / sleepTime;
      assert maxWait == q * sleepTime + maxWait % sleepTime;
      assert p * sleepTime == q * sleepTime + sleepTime;
    }
  }

  /* ---------- wait_for_transaction ---------- */

  /** The receipt `get_transaction_receipt` returns, or what it raised. */
  function ReceiptOf(p: Probe): Outcome {
    JsonRpc.ResultOf(p.response)
  }

  /** A probe after which `wait_for_transaction` sleeps and tries again: no
      receipt yet, and the clock not past the deadline. */
  predicate TxRetries(p: Probe, deadline: int) {
    ReceiptOf(p) == Success(JNull) && p.now <= deadline
  }

  /** How a probe that does not retry ends `wait_for_transaction`. */
  function TxSettle(p: Probe): Verdict {
    match ReceiptOf(p)
    case Failure(e) => Raised(e)
    case Success(receipt) =>
      if receipt != JNull then Done(receipt) else Raised(DeadlineExceeded(ReceiptTimeoutMessage))
  }

  function TxLoop(call: Call, deadline: int, sleepTime: nat, trace: seq<Probe>): Run
    decreases |trace|
  {
    if |trace| == 0 then Run(Undecided, [])
    else
      var p := trace[0];
      match ReceiptOf(p)
      case Failure(e) => Run(Raised(e), [Query(call)])
      case Success(receipt) =>
        if receipt != JNull then Run(Done(receipt), [Query(call)])
        else if p.now > deadline then Run(Raised(DeadlineExceeded(ReceiptTimeoutMessage)), [Query(call)])
        else
          var rest := TxLoop(call, deadline, sleepTime, trace[1..]);
          Run(rest.verdict, [Query(call), Sleep(sleepTime)] + rest.actions)
  }

  /** `wait_for_transaction(client, txn_hash, max_wait, sleep_time)` started at
      time `start`. */
  function WaitForTransaction(hash: Json, start: int, maxWait: int, sleepTime: nat, trace: seq<Probe>): Run {
    TxLoop(JsonRpc.TransactionReceiptCall(hash), start + maxWait, sleepTime, trace)
  }

  /** The loop is decided by the first probe that does not retry: every probe
      before it costs one query and one sleep, that probe one final query, and
      its verdict is the waiter's. In particular the first receipt seen is
      returned with no query after it, and the deadline error is raised only
      for a probe that saw no receipt at a time strictly past the deadline. */
  lemma {:induction false} TxFirstDecisive(call: Call, deadline: int, sleepTime: nat, trace: seq<Probe>, k: nat)
    requires k < |trace|
    requires forall j :: 0 <= j < k ==> TxRetries(trace[j], deadline)
    requires !TxRetries(trace[k], deadline)
    ensures TxLoop(call, deadline, sleepTime, trace) == Run(TxSettle(trace[k]), Attempts(call, sleepTime, k) + [Query(call)])
    decreases k
  {
    if k > 0 {
      assert TxRetries(trace[0], deadline);
      TxFirstDecisive(call, deadline, sleepTime, trace[1..], k - 1);
      assert trace[1..][k - 1] == trace[k];
      assert Attempts(call, sleepTime, k) == [Query(call), Sleep(sleepTime)] + Attempts(call, sleepTime, k - 1);
      assert [Query(call), Sleep(sleepTime)] + (Attempts(call, sleepTime, k - 1) + [Query(call)])
          == Attempts(call, sleepTime, k) + [Query(call)];
    }
  }

  /** A trace of retrying probes leaves the loop undecided: it never gives up
      before the deadline. */
  lemma {:induction false} TxAllRetry(call: Call, deadline: int, sleepTime: nat, trace: seq<Probe>)
    requires forall j :: 0 <= j < |trace| ==> TxRetries(trace[j], deadline)
    ensures TxLoop(call, deadline, sleepTime, trace) == Run(Undecided, Attempts(call, sleepTime, |trace|))
    decreases |trace|
  {
    if |trace| > 0 {
      assert TxRetries(trace[0], deadline);
      TxAllRetry(call, deadline, sleepTime, trace[1..]);
    }
  }

  /** The first action is always a receipt query: the loop queries before it
      looks at the clock. */
  lemma TxQueriesFirst(hash: Json, start: int, maxWait: int, sleepTime: nat, trace: seq<Probe>)
    requires |trace| > 0
    ensures var r := WaitForTransaction(hash, start, maxWait, sleepTime, trace);
      && |r.actions| > 0 && r.actions[0] == Query(JsonRpc.TransactionReceiptCall(hash))
      && (r.verdict != Undecided ==> r.actions[|r.actions| - 1] == Query(JsonRpc.TransactionReceiptCall(hash)))
  {
    var call := JsonRpc.TransactionReceiptCall(hash);
    TxEndsWithQuery(call, start + maxWait, sleepTime, trace);
  }

  lemma {:induction false} TxEndsWithQuery(call: Call, deadline: int, sleepTime: nat, trace: seq<Probe>)
    requires |trace| > 0
    ensures var r := TxLoop(call, deadline, sleepTime, trace);
      |r.actions| > 0 && r.actions[0] == Query(call)
      && (r.verdict != Undecided ==> r.actions[|r.actions| - 1] == Query(call))
    decreases |trace|
  {
    if |trace| > 1 {
      TxEndsWithQuery(call, deadline, sleepTime, trace[1..]);
    }
  }

  lemma {:induction false} TxSettlesBy(call: Call, deadline: int, sleepTime: nat, trace: seq<Probe>, j: nat)
    requires j < |trace| && !TxRetries(trace[j], deadline)
    ensures var r := TxLoop(call, deadline, sleepTime, trace);
      r.verdict != Undecided && CountQueries(r.actions) <= j + 1
    decreases j
  {
    if !TxRetries(trace[0], deadline) {
      TxFirstDecisive(call, deadline, sleepTime, trace, 0);
      assert TxLoop(call, deadline, sleepTime, trace).actions == [Query(call)];
      assert CountQueries([Query(call)]) == 1;
    } else {
      assert j > 0;
      TxSettlesBy(call, deadline, sleepTime, trace[1..], j - 1);
      var rest := TxLoop(call, deadline, sleepTime, trace[1..]);
      CountQueriesAppend([Query(call), Sleep(sleepTime)], rest.actions);
      assert CountQueries([Query(call), Sleep(sleepTime)]) == 1;
    }
  }

  lemma {:induction false} TxAbsentRaises(call: Call, deadline: int, sleepTime: nat, trace: seq<Probe>, j: nat)
    requires j < |trace| && !TxRetries(trace[j], deadline)
    requires forall i :: 0 <= i <= j ==> ReceiptOf(trace[i]) == Success(JNull)
    ensures TxLoop(call, deadline, sleepTime, trace).verdict == Raised(DeadlineExceeded(ReceiptTimeoutMessage))
    decreases j
  {
    assert ReceiptOf(trace[0]) == Success(JNull);
    if TxRetries(trace[0], deadline) {
      assert j > 0;
      assert forall i :: 0 <= i <= j - 1 ==> trace[1..][i] == trace[i + 1];
      TxAbsentRaises(call, deadline, sleepTime, trace[1..], j - 1);
    }
  }

  /** Against a node that never has the receipt, with a clock paced by the
      sleeps, `wait_for_transaction` raises "Could not get transaction
      receipt". */
  lemma TxAlwaysAbsentTimesOut(hash: Json, start: int, maxWait: int, sleepTime: nat, trace: seq<Probe>)
    requires sleepTime > 0 && Paced(trace, sleepTime)
    requires |trace| > Patience(maxWait, sleepTime) && trace[0].now >= start
    requires forall i :: 0 <= i < |trace| ==> ReceiptOf(trace[i]) == Success(JNull)
    ensures WaitForTransaction(hash, start, maxWait, sleepTime, trace).verdict
      == Raised(DeadlineExceeded(ReceiptTimeoutMessage))
  {
    var p := Patience(maxWait, sleepTime);
    PatienceExceedsDeadline(trace, start, maxWait, sleepTime);
    TxAbsentRaises(JsonRpc.TransactionReceiptCall(hash), start + maxWait, sleepTime, trace, p);
  }

  /** With `sleep_time > 0` and a clock that advances at least `sleep_time` per
      iteration, `wait_for_transaction` ends within `Patience + 1` queries. */
  lemma TxTerminates(hash: Json, start: int, maxWait: int, sleepTime: nat, trace: seq<Probe>)
    requires sleepTime > 0 && Paced(trace, sleepTime)
    requires |trace| > Patience(maxWait, sleepTime) && trace[0].now >= start
    ensures var r := WaitForTransaction(hash, start, maxWait, sleepTime, trace);
      r.verdict != Undecided && CountQueries(r.actions) <= Patience(maxWait, sleepTime) + 1
  {
    var p := Patience(maxWait, sleepTime);
    PatienceExceedsDeadline(trace, start, maxWait, sleepTime);
    assert !TxRetries(trace[p], start + maxWait);
    TxSettlesBy(JsonRpc.TransactionReceiptCall(hash), start + maxWait, sleepTime, trace, p);
  }

  /* ---------- wait_for_block ---------- */

  /** The height `get_block_number` returns, or what it raised. */
  function HeightOf(p: Probe): Result<nat> {
    JsonRpc.QuantityOf(p.response)
  }

  /** A probe after which `wait_for_block` sleeps and tries again: the deadline
      had not passed when the loop was entered, and the height is below target. */
  predicate BlockRetries(p: Probe, target: nat, deadline: int) {
    p.now < deadline && HeightOf(p).Success? && HeightOf(p).value < target
  }

  /** The final `get_block_by_number(block_number)`. */
  function FetchTarget(target: nat): Call {
    JsonRpc.BlockByNumberCall(JsonRpc.Number(target), true)
  }

  function FetchVerdict(fetched: Outcome): Verdict {
    match JsonRpc.ResultOf(fetched)
    case Failure(e) => Raised(e)
    case Success(block) => Done(block)
  }

  /** How a probe that does not retry ends `wait_for_block`, with the actions
      of that last iteration. */
  function BlockSettle(p: Probe, target: nat, deadline: int, fetched: Outcome): Run {
    if p.now >= deadline then Run(Raised(DeadlineExceeded(BlockTimeoutMessage)), [])
    else
      match HeightOf(p)
      case Failure(e) => Run(Raised(e), [Query(JsonRpc.BlockNumberCall())])
      case Success(_) => Run(FetchVerdict(fetched), [Query(JsonRpc.BlockNumberCall()), Query(FetchTarget(target))])
  }

  function BlockLoop(target: nat, deadline: int, sleepTime: nat, trace: seq<Probe>, fetched: Outcome): Run
    decreases |trace|
  {
    if |trace| == 0 then Run(Undecided, [])
    else
      var p := trace[0];
      if !(p.now < deadline) then Run(Raised(DeadlineExceeded(BlockTimeoutMessage)), [])
      else
        match HeightOf(p)
        case Failure(e) => Run(Raised(e), [Query(JsonRpc.BlockNumberCall())])
        case Success(height) =>
          if height >= target then
            Run(FetchVerdict(fetched), [Query(JsonRpc.BlockNumberCall()), Query(FetchTarget(target))])
          else
            var rest := BlockLoop(target, deadline, sleepTime, trace[1..], fetched);
            Run(rest.verdict, [Query(JsonRpc.BlockNumberCall()), Sleep(sleepTime)] + rest.actions)
  }

  /** `wait_for_block(client, block_number, max_wait, sleep_time)` started at
      time `start`; `fetched` is what the final `get_block_by_number` request
      answers. */
  function WaitForBlock(target: nat, start: int, maxWait: int, sleepTime: nat, trace: seq<Probe>, fetched: Outcome): Run {
    BlockLoop(target, start + maxWait, sleepTime, trace, fetched)
  }

  /** One iteration of `wait_for_block`: retry, or settle. */
  lemma BlockStep(target: nat, deadline: int, sleepTime: nat, trace: seq<Probe>, fetched: Outcome)
    requires |trace| > 0
    ensures BlockRetries(trace[0], target, deadline) ==>
      var rest := BlockLoop(target, deadline, sleepTime, trace[1..], fetched);
      BlockLoop(target, deadline, sleepTime, trace, fetched)
        == Run(rest.verdict, [Query(JsonRpc.BlockNumberCall()), Sleep(sleepTime)] + rest.actions)
    ensures !BlockRetries(trace[0], target, deadline) ==>
      BlockLoop(target, deadline, sleepTime, trace, fetched) == BlockSettle(trace[0], target, deadline, fetched)
  {
  }

  /** The loop is decided by the first probe that does not retry: every probe
      before it costs one height query and one sleep. That probe ends the loop
      by the deadline with no query, or by an error, or by a height at or above
      the target, after which the target block (not the latest) is fetched. */
  lemma {:induction false} BlockFirstDecisive(target: nat, deadline: int, sleepTime: nat, trace: seq<Probe>, fetched: Outcome, k: nat)
    requires k < |trace|
    requires forall j :: 0 <= j < k ==> BlockRetries(trace[j], target, deadline)
    requires !BlockRetries(trace[k], target, deadline)
    ensures var settle := BlockSettle(trace[k], target, deadline, fetched);
      BlockLoop(target, deadline, sleepTime, trace, fetched)
        == Run(settle.verdict, Attempts(JsonRpc.BlockNumberCall(), sleepTime, k) + settle.actions)
    decreases k
  {
    BlockStep(target, deadline, sleepTime, trace, fetched);
    if k > 0 {
      assert BlockRetries(trace[0], target, deadline);
      BlockFirstDecisive(target, deadline, sleepTime, trace[1..], fetched, k - 1);
      var bn := JsonRpc.BlockNumberCall();
      var settle := BlockSettle(trace[k], target, deadline, fetched);
      var rest := BlockLoop(target, deadline, sleepTime, trace[1..], fetched);
      assert trace[1..][k - 1] == trace[k];
      assert rest == Run(settle.verdict, Attempts(bn, sleepTime, k - 1) + settle.actions);
      PrependAttempt(bn, sleepTime, k, settle.actions);
    }
  }

  lemma PrependAttempt(call: Call, sleepTime: nat, k: nat, tail: seq<Action>)
    requires k > 0
    ensures [Query(call), Sleep(sleepTime)] + (Attempts(call, sleepTime, k - 1) + tail)
      == Attempts(call, sleepTime, k) + tail
  {
  }

  /** A trace of retrying probes leaves the loop undecided. */
  lemma {:induction false} BlockAllRetry(target: nat, deadline: int, sleepTime: nat, trace: seq<Probe>, fetched: Outcome)
    requires forall j :: 0 <= j < |trace| ==> BlockRetries(trace[j], target, deadline)
    ensures BlockLoop(target, deadline, sleepTime, trace, fetched)
      == Run(Undecided, Attempts(JsonRpc.BlockNumberCall(), sleepTime, |trace|))
    decreases |trace|
  {
    if |trace| > 0 {
      BlockStep(target, deadline, sleepTime, trace, fetched);
      assert BlockRetries(trace[0], target, deadline);
      BlockAllRetry(target, deadline, sleepTime, trace[1..], fetched);
    }
  }

  /** With the deadline already passed at loop entry (for instance
      `max_wait <= 0`), `wait_for_block` raises without a single query. */
  lemma BlockExpiredAtEntry(target: nat, start: int, maxWait: int, sleepTime: nat, trace: seq<Probe>, fetched: Outcome)
    requires |trace| > 0 && trace[0].now >= start + maxWait
    ensures WaitForBlock(target, start, maxWait, sleepTime, trace, fetched)
      == Run(Raised(DeadlineExceeded(BlockTimeoutMessage)), [])
  {
  }

  /** Whenever `wait_for_block` returns a block, it is the answer to a request
      for the target block, the last action it took. */
  lemma {:induction false} BlockDoneFetchesTarget(target: nat, deadline: int, sleepTime: nat, trace: seq<Probe>, fetched: Outcome)
    ensures var r := BlockLoop(target, deadline, sleepTime, trace, fetched);
      r.verdict.Done? ==>
        && JsonRpc.ResultOf(fetched) == Success(r.verdict.value)
        && |r.actions| >= 2
        && r.actions[|r.actions| - 1] == Query(FetchTarget(target))
        && r.actions[|r.actions| - 2] == Query(JsonRpc.BlockNumberCall())
    decreases |trace|
  {
    if |trace| > 0 {
      BlockStep(target, deadline, sleepTime, trace, fetched);
      var r := BlockLoop(target, deadline, sleepTime, trace, fetched);
      if BlockRetries(trace[0], target, deadline) {
        BlockDoneFetchesTarget(target, deadline, sleepTime, trace[1..], fetched);
        var rest := BlockLoop(target, deadline, sleepTime, trace[1..], fetched);
        var head := [Query(JsonRpc.BlockNumberCall()), Sleep(sleepTime)];
        assert r.actions == head + rest.actions;
        if r.verdict.Done? {
          assert r.actions[|r.actions| - 1] == rest.actions[|rest.actions| - 1];
          assert r.actions[|r.actions| - 2] == rest.actions[|rest.actions| - 2];
        }
      } else {
        SettleDone(trace[0], target, deadline, fetched);
      }
    }
  }

  lemma SettleDone(p: Probe, target: nat, deadline: int, fetched: Outcome)
    ensures var r := BlockSettle(p, target, deadline, fetched);
      r.verdict.Done? ==>
        && JsonRpc.ResultOf(fetched) == Success(r.verdict.value)
        && r.actions == [Query(JsonRpc.BlockNumberCall()), Query(FetchTarget(target))]
  {
  }

  /** `wait_for_block` raises "Did not reach block" exactly when the loop ends
      by the deadline: the deciding probe reads the clock at or past the
      deadline, after every earlier probe saw a height below the target. The
      only inputs excluded are a height query or target fetch that itself
      fails with that very error, which a caller could not tell apart. */
  lemma BlockDeadlineIff(target: nat, deadline: int, sleepTime: nat, trace: seq<Probe>, fetched: Outcome, k: nat)
    requires k < |trace|
    requires forall j :: 0 <= j < k ==> BlockRetries(trace[j], target, deadline)
    requires !BlockRetries(trace[k], target, deadline)
    requires trace[k].response != Failure(DeadlineExceeded(BlockTimeoutMessage))
    requires fetched != Failure(DeadlineExceeded(BlockTimeoutMessage))
    ensures var r := BlockLoop(target, deadline, sleepTime, trace, fetched);
      r.verdict == Raised(DeadlineExceeded(BlockTimeoutMessage)) <==> trace[k].now >= deadline
  {
    BlockFirstDecisive(target, deadline, sleepTime, trace, fetched, k);
  }

  lemma {:induction false} BlockSettlesBy(target: nat, deadline: int, sleepTime: nat, trace: seq<Probe>, fetched: Outcome, j: nat)
    requires j < |trace| && !BlockRetries(trace[j], target, deadline)
    ensures var r := BlockLoop(target, deadline, sleepTime, trace, fetched);
      r.verdict != Undecided && CountQueries(r.actions) <= j + 2
    decreases j
  {
    BlockStep(target, deadline, sleepTime, trace, fetched);
    if !BlockRetries(trace[0], target, deadline) {
      SettleQueries(trace[0], target, deadline, fetched);
    } else {
      assert j > 0;
      BlockSettlesBy(target, deadline, sleepTime, trace[1..], fetched, j - 1);
      var rest := BlockLoop(target, deadline, sleepTime, trace[1..], fetched);
      CountQueriesAppend([Query(JsonRpc.BlockNumberCall()), Sleep(sleepTime)], rest.actions);
      assert CountQueries([Query(JsonRpc.BlockNumberCall()), Sleep(sleepTime)]) == 1;
    }
  }

  lemma SettleQueries(p: Probe, target: nat, deadline: int, fetched: Outcome)
    ensures BlockSettle(p, target, deadline, fetched).verdict != Undecided
    ensures CountQueries(BlockSettle(p, target, deadline, fetched).actions) <= 2
  {
    assert CountQueries([Query(FetchTarget(target))]) == 1;
    assert CountQueries([Query(JsonRpc.BlockNumberCall())]) == 1;
  }

  /** With `sleep_time > 0` and a clock that advances at least `sleep_time` per
      iteration, `wait_for_block` ends within `Patience + 2` queries (the last
      one being the fetch of the target block). */
  lemma BlockTerminates(target: nat, start: int, maxWait: int, sleepTime: nat, trace: seq<Probe>, fetched: Outcome)
    requires sleepTime > 0 && Paced(trace, sleepTime)
    requires |trace| > Patience(maxWait, sleepTime) && trace[0].now >= start
    ensures var r := WaitForBlock(target, start, maxWait, sleepTime, trace, fetched);
      r.verdict != Undecided && CountQueries(r.actions) <= Patience(maxWait, sleepTime) + 1
  {
    var p := Patience(maxWait, sleepTime);
    PatienceExceedsDeadline(trace, start, maxWait, sleepTime);
    BlockSettlesByDeadline(target, start + maxWait, sleepTime, trace, fetched, p);
  }

  /** If probe `j` reads the clock at or past the deadline, the waiter is
      decided after at most `j + 1` queries: that probe itself makes none. */
  lemma {:induction false} BlockSettlesByDeadline(target: nat, deadline: int, sleepTime: nat, trace: seq<Probe>, fetched: Outcome, j: nat)
    requires j < |trace| && trace[j].now >= deadline
    ensures var r := BlockLoop(target, deadline, sleepTime, trace, fetched);
      r.verdict != Undecided && CountQueries(r.actions) <= j + 1
    decreases j
  {
    BlockStep(target, deadline, sleepTime, trace, fetched);
    if trace[0].now >= deadline {
      assert !BlockRetries(trace[0], target, deadline);
      assert BlockSettle(trace[0], target, deadline, fetched).actions == [];
    } else if !BlockRetries(trace[0], target, deadline) {
      assert j > 0;
      SettleQueries(trace[0], target, deadline, fetched);
    } else {
      assert j > 0;
      assert trace[1..][j - 1] == trace[j];
      BlockSettlesByDeadline(target, deadline, sleepTime, trace[1..], fetched, j - 1);
      var rest := BlockLoop(target, deadline, sleepTime, trace[1..], fetched);
      CountQueriesAppend([Query(JsonRpc.BlockNumberCall()), Sleep(sleepTime)], rest.actions);
      assert CountQueries([Query(JsonRpc.BlockNumberCall()), Sleep(sleepTime)]) == 1;
    }
  }

  lemma {:induction false} BlockBelowRaises(target: nat, deadline: int, sleepTime: nat, trace: seq<Probe>, fetched: Outcome, j: nat)
    requires j < |trace| && trace[j].now >= deadline
    requires forall i :: 0 <= i <= j ==> HeightOf(trace[i]).Success? && HeightOf(trace[i]).value < target
    ensures BlockLoop(target, deadline, sleepTime, trace, fetched).verdict == Raised(DeadlineExceeded(BlockTimeoutMessage))
    decreases j
  {
    BlockStep(target, deadline, sleepTime, trace, fetched);
    var h := HeightOf(trace[0]);
    assert h.Success? && h.value < target;
    if trace[0].now < deadline {
      assert BlockRetries(trace[0], target, deadline);
      assert j > 0;
      var rest := trace[1..];
      assert rest[j - 1] == trace[j];
      forall i | 0 <= i <= j - 1
        ensures HeightOf(rest[i]).Success? && HeightOf(rest[i]).value < target
      {
        assert rest[i] == trace[i + 1];
      }
      BlockBelowRaises(target, deadline, sleepTime, rest, fetched, j - 1);
    } else {
      assert !BlockRetries(trace[0], target, deadline);
    }
  }

  /** Against a node whose height never reaches the target, with a clock
      paced by the sleeps, `wait_for_block` raises "Did not reach block". */
  lemma BlockNeverReachedTimesOut(target: nat, start: int, maxWait: int, sleepTime: nat, trace: seq<Probe>, fetched: Outcome)
    requires sleepTime > 0 && Paced(trace, sleepTime)
    requires |trace| > Patience(maxWait, sleepTime) && trace[0].now >= start
    requires forall i :: 0 <= i < |trace| ==> HeightOf(trace[i]).Success? && HeightOf(trace[i]).value < target
    ensures WaitForBlock(target, start, maxWait, sleepTime, trace, fetched).verdict
      == Raised(DeadlineExceeded(BlockTimeoutMessage))
  {
    var p := Patience(maxWait, sleepTime);
    PatienceExceedsDeadline(trace, start, maxWait, sleepTime);
    BlockBelowRaises(target, start + maxWait, sleepTime, trace, fetched, p);
  }

  /* ---------- get_max_gas ---------- */

  /** The request `get_max_gas` makes: the block "latest", sent as the string
      itself. */
  function MaxGasCall(): Call {
    JsonRpc.BlockByNumberCall(JsonRpc.Tag("latest"), true)
  }

  /** `int(latest_block['gasLimit'], 16)` for what the node answered. */
  function GetMaxGas(response: Outcome): Result<nat> {
    match JsonRpc.ResultOf(response)
    case Failure(e) => Failure(e)
    case Success(block) =>
      match Lookup(block, "gasLimit")
      case Failure(e) => Failure(e)
      case Success(limit) => JsonRpc.ParseQuantity(limit)
  }

  /** `get_max_gas` asks for "latest" unencoded, and returns the gas limit the
      node wrote with `hex()`. */
  lemma MaxGasDecodes(g: nat, response: Outcome, block: map<string, Json>)
    requires JsonRpc.Answers(response, JObject(block))
    requires "gasLimit" in block && block["gasLimit"] == JString(Hex.Encode(g))
    ensures MaxGasCall().params[0] == JString("latest")
    ensures GetMaxGas(response) == Success(g)
  {
    assert JsonRpc.Marshal(JsonRpc.Tag("latest")) == "latest";
    assert JsonRpc.ResultOf(response) == Success(JObject(block));
    assert Lookup(JObject(block), "gasLimit") == Success(JString(Hex.Encode(g)));
    Hex.EncodeRoundTrip(g);
    assert JsonRpc.ParseQuantity(JString(Hex.Encode(g))) == Success(g);
  }

  /* ---------- two concrete runs ---------- */

  /** A height the node writes with `hex()`, in any response object, is read
      back as the same number. */
  lemma HexReplyHeight(p: Probe, n: nat)
    ensures JsonRpc.Answers(p.response, JString(Hex.Encode(n))) ==> HeightOf(p) == Success(n)
  {
    Hex.EncodeRoundTrip(n);
  }

  /** Two heights below the target and then one at or above it (for example
      heights 90, 95, 100 against target 100), with max wait 60 and sleep
      5: the target block is fetched after the third height query and there is
      no fourth. */
  lemma BlockScenario(block: Json, start: int, target: nat, r0: Outcome, r1: Outcome, r2: Outcome, r3: Outcome)
    requires JsonRpc.QuantityOf(r0).Success? && JsonRpc.QuantityOf(r0).value < target
    requires JsonRpc.QuantityOf(r1).Success? && JsonRpc.QuantityOf(r1).value < target
    requires JsonRpc.QuantityOf(r2).Success? && JsonRpc.QuantityOf(r2).value >= target
    ensures var trace := [Probe(start, r0), Probe(start + 5, r1), Probe(start + 10, r2), Probe(start + 15, r3)];
      var bn := Query(JsonRpc.BlockNumberCall());
      WaitForBlock(target, start, 60, 5, trace, JsonRpc.Reply(block))
        == Run(Done(block), [bn, Sleep(5), bn, Sleep(5), bn, Query(FetchTarget(target))])
  {
    var trace := [Probe(start, r0), Probe(start + 5, r1), Probe(start + 10, r2), Probe(start + 15, r3)];
    var fetched := JsonRpc.Reply(block);
    var deadline := start + 60;
    var bn := JsonRpc.BlockNumberCall();
    assert JsonRpc.ResultOf(fetched) == Success(block);
    BlockStep(target, deadline, 5, trace, fetched);
    BlockStep(target, deadline, 5, trace[1..], fetched);
    BlockStep(target, deadline, 5, trace[2..], fetched);
    assert trace[1..][1..] == trace[2..];
    assert BlockRetries(trace[0], target, deadline);
    assert BlockRetries(trace[1..][0], target, deadline);
    assert !BlockRetries(trace[2..][0], target, deadline);
    assert BlockSettle(trace[2], target, deadline, fetched) == Run(Done(block), [Query(bn), Query(FetchTarget(target))]);
  }

  /** No receipt three times, then a receipt: the receipt is returned after
      the fourth query. */
  lemma TransactionScenario(hash: Json, receipt: Json)
    requires receipt != JNull
    ensures var none := JsonRpc.Reply(JNull);
      var trace := [Probe(1, none), Probe(6, none), Probe(11, none), Probe(16, JsonRpc.Reply(receipt))];
      var q := Query(JsonRpc.TransactionReceiptCall(hash));
      WaitForTransaction(hash, 0, 60, 5, trace)
        == Run(Done(receipt), [q, Sleep(5), q, Sleep(5), q, Sleep(5), q])
  {
    var none := JsonRpc.Reply(JNull);
    var trace := [Probe(1, none), Probe(6, none), Probe(11, none), Probe(16, JsonRpc.Reply(receipt))];
    assert JsonRpc.ResultOf(none) == Success(JNull);
    assert JsonRpc.ResultOf(JsonRpc.Reply(receipt)) == Success(receipt);
    var call := JsonRpc.TransactionReceiptCall(hash);
    TxFirstDecisive(call, 60, 5, trace, 3);
    assert Attempts(call, 5, 3) == [Query(call), Sleep(5), Query(call), Sleep(5), Query(call), Sleep(5)];
  }
}
