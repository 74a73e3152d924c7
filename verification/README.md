# ethereum-client-utils core in Dafny

A model of the request machinery of `eth_client_utils`. It has three parts.

- **`BaseClient` as a state machine** (`dispatch.dfy`, module `Dispatch`).
  - Callers put `(id, call)` requests on a FIFO queue.
  - A single worker takes the head of the queue, calls the transport, and stores the outcome under the request's id.
  - The caller's polling loop pops that outcome, or gives up after `async_timeout`.
  - Threads are replaced by an explicit sequence of events: `Submit`, `Take`, `Finish`, `Check` and `Tick`.
  - The worker's transport call is split into entering the transport (`StartCall`) and returning from it (`Publish`). The transport log of entries and exits therefore shows directly that no second call starts while one is in flight.
  - The invariant `Inv` is preserved by every event. Together with FIFO order (`Entered(log) + queue == history`), it gives these properties for every reachable client:
    - no re-entry into the transport;
    - alternating entries and exits;
    - each id published at most once;
    - results that agree with the log.
- **The polling helpers of `utils.py`** (`waiters.dfy`, module `Waiters`).
  - Each helper is a function of a trace with one entry per loop iteration: the clock reading the iteration makes, and what the query answered.
  - It returns the verdict and the exact sequence of queries and sleeps.
  - `wait_for_transaction` queries first and then tests `now > start + max_wait`. `wait_for_block` tests `now < start + max_wait` before it queries.
  - `get_max_gas` is a function of the response to its single request.
- **The pure JSON-RPC pieces** (`jsonrpc.dfy`, `hex.dfy`, `types.dfy`):
  - the nonce counter;
  - the JSON-RPC 2.0 request object (section 4 of the JSON-RPC 2.0 Specification);
  - the number-or-string designator of blocks and filters;
  - Python's `hex()` and `int(s, 16)`;
  - the quantity wrappers;
  - the coinbase cache.

The model follows Python 3 semantics of `hex()` and `int(s, 16)`.

Outcomes are a tagged union, `Result<Json>`. Where the source stores an exception object as a value and sorts it out later with `isinstance`, the model stores `Failure(error)`.

The expiry branch at eth_client_utils/client.py:77-80 compares against 30, but `_coinbase_cache_til` is never assigned, so it never runs. The model follows the code: once the cache is filled, it stays filled. Because `None` marks the cache as empty, a node that answers `null` leaves the cache empty, and the next read asks again.

## Model

| member | source | states |
|---|---|---|
| Dispatch.InitInv | eth_client_utils/client.py:22-28 | A freshly constructed async client (empty queue, empty results, idle worker) satisfies the client invariant |
| Dispatch.EnqueuePreservesInv | eth_client_utils/client.py:44-45 | Enqueuing under a never-issued id keeps FIFO order, id freshness and the registry invariant; the request joins the queue's tail and the history |
| Dispatch.StartCallPreservesInv | eth_client_utils/client.py:34-37 | The worker taking the queue head and entering the transport keeps the invariant: the entered requests followed by the queue are still the submission history |
| Dispatch.PublishPreservesInv | eth_client_utils/client.py:36-40 | Storing the transport's answer (success or failure) under the served id keeps the invariant: that id had no outcome and was never published before |
| Dispatch.PollPreservesInv | eth_client_utils/client.py:46-53 | A caller's poll, whether it times out, pops, or keeps waiting, keeps the invariant |
| Dispatch.NextPreservesInv | eth_client_utils/client.py:30-53 | Every event of callers, worker and clock preserves the invariant |
| Dispatch.ReplayPreservesInv | eth_client_utils/client.py:30-53 | Any finite interleaving of events preserves the invariant |
| Dispatch.AlternatingIsReentryFree | tests/base-client/test_base_client.py:14-25 | A log whose entries and exits alternate never shows an entry while the re-entrancy flag of the test transport is set |
| Dispatch.Reachable | tests/base-client/test_base_client.py:55-77 | Under every interleaving the transport is entered one call at a time in submission order, each exit matching the entry before it, no id is published twice, and every stored outcome is what the transport answered for that id |
| Dispatch.WorkerStepServesHead | eth_client_utils/client.py:34-40 | One worker iteration serves exactly the queue head, stores the transport's outcome under its id (which had none), leaves the rest of the queue and the waiting callers alone, and leaves the worker idle |
| Dispatch.FailureDoesNotStopWorker | eth_client_utils/client.py:36-40 | After a transport failure the failure is stored for its caller and the very next step serves the next request |
| Dispatch.DrainServes | eth_client_utils/client.py:34-40 | `k` worker iterations on a queue of distinct ids serve exactly the first `k` queued requests in order, each outcome under its own id, leaving the rest of the queue, the waiting callers and the clock alone |
| Dispatch.DrainKeepsInv | eth_client_utils/client.py:30-40 | Any number of worker iterations keep the client invariant |
| Dispatch.AsyncMatchesSync | eth_client_utils/client.py:42-55 | A request enqueued behind an idle worker is answered, once the queue has drained and before the timeout, with exactly what a synchronous call to the transport would return |
| Dispatch.PollConsumesOnce | eth_client_utils/client.py:48-52 | A poll in time that finds the outcome returns it exactly as stored (success or failure). It removes that one registry entry and that caller's timer, and leaves the other callers' timers, the queue, the worker and the transport log unchanged |
| Dispatch.PollTimeout | eth_client_utils/client.py:47-53 | A poll raises a timeout naming the id exactly when the timer has run out. It leaves the registry, the other callers' timers, the queue, the worker and the transport log untouched. Before then an absent outcome changes nothing |
| Dispatch.ConsumedStaysAbsent | eth_client_utils/client.py:48-49 | An id whose outcome was published and consumed never has an outcome again, whatever happens next |
| Dispatch.AbandonedOutcomeStays | eth_client_utils/client.py:47-53 | An outcome whose caller has stopped waiting stays in the registry unchanged forever |
| Dispatch.OnlyPollsRemove | eth_client_utils/client.py:40-49 | A poll removes at most its own id from the registry; no other event removes anything |
| JsonRpc.Nonces | eth_client_utils/client.py:62-66 | Starting from counter `c`, `k` calls return `c+1, c+2, …, c+k` |
| JsonRpc.ConstructAll | eth_client_utils/client.py:87-94 | The `i`-th request built on a client carries version "2.0", the call's method and params, and id `counter+i+1`; the counter advances by the number of requests |
| JsonRpc.EnvelopeIdsIncrease | eth_client_utils/client.py:87-94 | Envelopes built later on the same client have strictly larger ids, so no two share one |
| JsonRpc.EnvelopeJson | eth_client_utils/client.py:88-93 | An envelope with version "2.0" becomes a JSON-RPC 2.0 request object: exactly the members jsonrpc, method, params and id, the version "2.0", a string method, an array of params and a numeric id. Reading the object back gives the envelope unchanged |
| JsonRpc.EnvelopeWellFormed | eth_client_utils/client.py:87-94 | A request object is a well-formed JSON-RPC 2.0 request and carries "2.0", the given method and params, and the next nonce as its id |
| JsonRpc.DesignatorMarshalling | eth_client_utils/client.py:190-201 | All four designator-taking calls send the same first parameter; a number is sent as text that base-16 decodes back to it, and a string such as "latest" is sent unchanged |
| JsonRpc.ParseQuantity | eth_client_utils/client.py:118 | The parse succeeds exactly on a string that base-16 decodes, and then yields its decoded value; anything else fails |
| JsonRpc.ResultOf | eth_client_utils/client.py:110-111 | Taking `response['result']` of a failed request re-raises that failure unchanged. On a response, it succeeds exactly when the response is an object with a "result" member, and yields that member; otherwise it fails as Python's KeyError or TypeError would |
| JsonRpc.QuantityRoundTrip | eth_client_utils/client.py:176-181 | A response object of any shape whose "result" is a quantity written with `hex()` decodes to the same number; a failed request propagates |
| JsonRpc.AnswersIsResult | eth_client_utils/client.py:110-111 | A response answers `x` exactly when `response['result']` yields `x`, whatever other members (jsonrpc, id) it carries |
| JsonRpc.QuantityWrappersDecode | eth_client_utils/client.py:113-125 | `get_gas_price` and `get_balance` (lines 113-125) and `get_block_number` (lines 176-181) return exactly the number the node sent in hex as the response's "result", for any transport and whatever other members the response carries |
| JsonRpc.DefaultFromAddress | eth_client_utils/client.py:82-85 | A filled cache is returned with no request; an empty one issues exactly one `eth_coinbase` and answers its result; a successful answer is what the cache then holds; a failed `eth_coinbase` leaves the cache as it was, empty, so the next read asks again |
| JsonRpc.CachedReads | eth_client_utils/client.py:82-85 | Reads against a filled cache all return it, keep it, and issue no request |
| JsonRpc.CoinbaseCachedAfterFirstUse | eth_client_utils/client.py:68-85 | After the first non-null coinbase is read, every later read returns it without asking the node, whatever the node would answer |
| JsonRpc.NullCoinbaseAskedAgain | eth_client_utils/client.py:82-83 | A node answering `null` leaves the cache empty, so the next read issues `eth_coinbase` again |
| Hex.Digits | eth_client_utils/client.py:195 | `hex()` digits are lower case, never empty, with no leading zero unless the number is zero |
| Hex.Decode | eth_client_utils/client.py:181 | `int(s, 16)` succeeds exactly when, after an optional 0x/0X prefix, the text is a non-empty run of hex digits |
| Hex.EncodeRoundTrip | eth_client_utils/client.py:194-197 | Decoding what `hex(n)` writes gives `n` back |
| Hex.EncodeInjective | eth_client_utils/client.py:241-244 | Different numbers are sent as different hex strings |
| Hex.CanonicalDigits | eth_client_utils/client.py:253-256 | Every canonical digit string is exactly the `hex()` digits of its value |
| Hex.DecodeCanonicalRoundTrip | eth_client_utils/client.py:264-267 | Encoding the decoded value of `"0x"` + canonical digits gives the same text back |
| Waiters.Attempts | eth_client_utils/utils.py:12 | `k` failed attempts are `k` queries, each followed by exactly one sleep of `sleep_time` |
| Waiters.AttemptsQueries | eth_client_utils/utils.py:7-12 | `k` failed attempts contain exactly `k` queries |
| Waiters.PatienceExceedsDeadline | eth_client_utils/utils.py:10 | If the clock advances at least `sleep_time > 0` per iteration, the iteration numbered `max_wait / sleep_time + 1` reads a time past `start + max_wait` |
| Waiters.TxFirstDecisive | eth_client_utils/utils.py:6-13 | `wait_for_transaction` is decided by the first probe that is not "no receipt, not yet past the deadline"; every earlier probe costs one query and one sleep; the deciding probe costs one query; the first receipt is returned with nothing after it; a deadline error needs "no receipt" at a time strictly past the deadline |
| Waiters.TxAllRetry | eth_client_utils/utils.py:6-12 | While no receipt appears and the clock is not past the deadline, the waiter neither returns nor raises |
| Waiters.TxQueriesFirst | eth_client_utils/utils.py:6-9 | The first action is always a receipt query, and a decided run ends with a query, never a sleep |
| Waiters.TxSettlesBy | eth_client_utils/utils.py:6-12 | If probe `j` is decisive, the waiter is decided after at most `j+1` queries |
| Waiters.TxTerminates | eth_client_utils/utils.py:4-13 | With a clock paced by the sleeps and `sleep_time > 0`, `wait_for_transaction` ends within `max_wait / sleep_time + 2` queries |
| Waiters.TxAbsentRaises | eth_client_utils/utils.py:10-11 | When every probe up to the decisive one saw no receipt, the waiter raises "Could not get transaction receipt" |
| Waiters.TxAlwaysAbsentTimesOut | eth_client_utils/utils.py:4-13 | Against a node that never has the receipt and a clock paced by the sleeps, the waiter raises the deadline error |
| Waiters.BlockStep | eth_client_utils/utils.py:18-24 | One iteration of `wait_for_block` either retries (query, sleep, continue) or ends exactly as the deciding probe dictates |
| Waiters.BlockFirstDecisive | eth_client_utils/utils.py:18-25 | `wait_for_block` is decided by the first probe that is not "before the deadline with a height below target"; every earlier probe costs one height query and one sleep; the deciding probe ends the loop by the deadline with no query, by an error, or by fetching the target block |
| Waiters.BlockAllRetry | eth_client_utils/utils.py:18-22 | While the clock is before the deadline and heights stay below target, the waiter keeps polling undecided |
| Waiters.BlockExpiredAtEntry | eth_client_utils/utils.py:17-24 | With the deadline already passed when the loop is entered, the waiter raises "Did not reach block" without a single query |
| Waiters.BlockDoneFetchesTarget | eth_client_utils/utils.py:19-25 | Whenever the waiter returns a block, it is the answer to a request for the target block, preceded by the height query that reached the target |
| Waiters.BlockDeadlineIff | eth_client_utils/utils.py:18-24 | The waiter raises "Did not reach block" exactly when the deciding probe reads the clock at or past the deadline. This holds for failing height queries and failing target fetches too. The only cases excluded are a query or fetch that itself fails with that very error, which a caller could not tell apart from the waiter's own |
| Waiters.BlockSettlesBy | eth_client_utils/utils.py:18-25 | If probe `j` is decisive, the waiter is decided after at most `j+2` queries (the last is the target fetch) |
| Waiters.BlockTerminates | eth_client_utils/utils.py:16-25 | With a clock paced by the sleeps and `sleep_time > 0`, `wait_for_block` ends within `max_wait / sleep_time + 2` requests, counting the final target fetch |
| Waiters.BlockSettlesByDeadline | eth_client_utils/utils.py:18-24 | If probe `j` reads the clock at or past the deadline, the waiter is decided after at most `j + 1` requests, since that probe makes none |
| Waiters.BlockBelowRaises | eth_client_utils/utils.py:18-24 | When every height up to the first probe at or past the deadline is below the target, the waiter raises "Did not reach block" |
| Waiters.BlockNeverReachedTimesOut | eth_client_utils/utils.py:16-25 | Against a node whose height never reaches the target and a clock paced by the sleeps, the waiter raises "Did not reach block" |
| Waiters.MaxGasDecodes | eth_client_utils/utils.py:28-32 | `get_max_gas` asks for "latest" as a plain string. For any response object whose "result" is a block with a hex `gasLimit`, it returns that limit decoded |
| Waiters.HexReplyHeight | eth_client_utils/client.py:176-181 | A height the node writes with `hex()` as the "result" of any response object is read back as the same number |
| Waiters.BlockScenario | eth_client_utils/utils.py:16-25 | Heights below, below, at-or-above the target with max wait 60 and sleep 5: the waiter makes three height queries with two sleeps, fetches the target block, and makes no fourth query |
| Waiters.TransactionScenario | eth_client_utils/utils.py:4-13 | No receipt three times, then a receipt: the waiter returns it after four queries and three sleeps |
| Types.Lookup | eth_client_utils/client.py:111 | `response[key]` succeeds exactly on an object that has the key, and yields that key's value |

## Left out

- Threads, the daemon worker thread and the blocking `Queue.get`. They are replaced by explicit events in any interleaving. A `Take` on an empty queue or a busy worker is a no-op.
- `uuid4` randomness. It is replaced by the precondition that a submitted id was never issued before; `Next` ignores a `Submit` with a reused id.
- `time.time()` and `time.sleep()`.
  - The client clock is an integer that `Tick` advances by a natural amount.
  - The waiters take the clock readings from the trace.
  - Fractional seconds are not modelled.
  - `sleep_time` is a natural number, so negative sleeps are left out.
- `Waiters.TxLoop`, `Waiters.BlockLoop`: a finite trace can run out before the loop ends, which gives the verdict `Undecided`. In the source that case is simply a longer execution.
- The synchronous-mode race test (tests/base-client/test_base_client.py:31-52). Its point is a nondeterministic data race, which a sequential model cannot reproduce. Synchronous mode is `MakeRequestSync`, a direct transport call.
- `json.dumps` serialisation. The request object is the record `Envelope` and its JSON object `EnvelopeJson`, not a string.
- The transport `_make_request`. It is abstract in the source, so the model takes it as a parameter: a function from calls to outcomes, or an arbitrary outcome in `Finish`.
- The coinbase TTL branch (eth_client_utils/client.py:77-80). It is unreachable because `_coinbase_cache_til` is never assigned. Line 78 subtracts from the function `time.time` rather than from a call, which would raise `TypeError` if it ever ran.
- `get_transaction_params` and `construct_filter_args`. eth_client_utils/client.py:8-10 imports them from `utils.py`, but their definitions are not available, so their behaviour is not part of this model.
- The remaining RPC wrappers (`get_code`, `call`, `send_transaction`, `new_filter`, `get_logs` and others). They only pass `response['result']` through. The arguments of `call`, `send_transaction`, `new_filter` and `get_logs` are built by `get_transaction_params` and `construct_filter_args`, so that marshalling is not modelled either.
- Negative numbers and floats passed to `hex()`. `Designator` is restricted to naturals and strings.
- Booleans passed as designators: Python treats `True` as the number 1.
- Hex.Decode: does not model the whitespace, `+`/`-` sign, `_` digit separators or non-ASCII Unicode decimal digits that Python's `int(s, 16)` also accepts.
- Python 2 semantics. `async=` as a parameter name (eth_client_utils/client.py:18) means the code ran on Python 2 or Python 3.6 and earlier. Under Python 2, `hex()` of a `long` appends `L`. The model uses Python 3's `hex()` and `int()`.
- A `BaseException` that is not an `Exception` (for example `KeyboardInterrupt`) would kill the worker thread. The model's worker stores every failure.
- The registry leak: an outcome published after its caller timed out is never removed. This is source behaviour, and `Dispatch.AbandonedOutcomeStays` states it rather than repairing it.
