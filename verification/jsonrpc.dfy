/**
 The pure parts of `JSONRPCBaseClient`: the per-client nonce, the JSON-RPC 2.0
 request object (section 4 of the JSON-RPC 2.0 Specification), the
 number-or-string designator of blocks and filters, the calls the RPC wrappers
 issue and how they decode what comes back, and the coinbase cache.

 A wrapper hands its call to `make_request`; here the answer of
 `make_request` is an `Outcome`: the parsed response object, or the error it
 raised.
 */
module JsonRpc {
  import opened Types
  import Hex

  /* ---------- nonce and request envelope ---------- */

  /** `get_nonce`: bump the counter and return its new value, which is also
      the new counter. */
  function GetNonce(counter: nat): (nonce: nat)
    ensures nonce > counter
  {
    counter + 1
  }

  /** The nonces returned by `k` successive calls starting from `counter`. */
  function Nonces(counter: nat, k: nat): (r: seq<nat>)
    ensures |r| == k
    ensures forall i :: 0 <= i < k ==> r[i] == counter + i + 1
    decreases k
  {
    if k == 0 then [] else [GetNonce(counter)] + Nonces(GetNonce(counter), k - 1)
  }

  /** A JSON-RPC 2.0 request object. */
  datatype Envelope = Envelope(jsonrpc: string, name: string, params: seq<Json>, id: nat)

  /** `construct_json_request`: the envelope and the counter after it. */
  function ConstructJsonRequest(counter: nat, call: Call): (r: (Envelope, nat))
  {
    var nonce := GetNonce(counter);
    (Envelope("2.0", call.name, call.params, nonce), nonce)
  }

  /** The envelopes built for a series of calls on one client, in order, and
      the counter afterwards. */
  function ConstructAll(counter: nat, calls: seq<Call>): (r: (seq<Envelope>, nat))
    ensures |r.0| == |calls| && r.1 == counter + |calls|
    ensures forall i :: 0 <= i < |calls| ==>
      r.0[i] == Envelope("2.0", calls[i].name, calls[i].params, counter + i + 1)
    decreases |calls|
  {
    if |calls| == 0 then ([], counter)
    else
      var (first, next) := ConstructJsonRequest(counter, calls[0]);
      var (rest, last) := ConstructAll(next, calls[1..]);
      ([first] + rest, last)
  }

  /** Every envelope of one client carries a different id, later ones larger. */
  lemma EnvelopeIdsIncrease(counter: nat, calls: seq<Call>, i: nat, j: nat)
    requires i < j < |calls|
    ensures ConstructAll(counter, calls).0[i].id < ConstructAll(counter, calls).0[j].id
  {
  }

  /** A JSON-RPC 2.0 request object as section 4 of the JSON-RPC 2.0
      Specification describes it: exactly the members jsonrpc, method, params
      and id, the version "2.0", a string method, structured (array)
      parameters and a numeric id. */
  predicate IsRequestObject(j: Json) {
    && j.JObject?
    && j.fields.Keys == {"jsonrpc", "method", "params", "id"}
    && j.fields["jsonrpc"] == JString("2.0")
    && j.fields["method"].JString?
    && j.fields["params"].JArray?
    && j.fields["id"].JNumber?
  }

  /** Reads a request object back into an envelope; `None` for anything that
      is not an object with the four members of the right kinds. */
  function EnvelopeOf(j: Json): Option<Envelope> {
    if !j.JObject? || j.fields.Keys != {"jsonrpc", "method", "params", "id"} then None
    else
      match (j.fields["jsonrpc"], j.fields["method"], j.fields["params"], j.fields["id"])
      case (JString(v), JString(m), JArray(ps), JNumber(n)) =>
        if n >= 0 then Some(Envelope(v, m, ps, n)) else None
      case _ => None
  }

  /** The envelope as the JSON object that gets serialised: a well-formed
      request object whenever the version is "2.0", from which the envelope
      can be read back unchanged. */
  function EnvelopeJson(e: Envelope): (j: Json)
    ensures e.jsonrpc == "2.0" ==> IsRequestObject(j)
    ensures EnvelopeOf(j) == Some(e)
  {
    JObject(map["jsonrpc" := JString(e.jsonrpc), "method" := JString(e.name),
                "params" := JArray(e.params), "id" := JNumber(e.id)])
  }

  /** Each request object carries the protocol version "2.0", the method and
      parameters asked for, and the next nonce as its id. */
  lemma EnvelopeWellFormed(counter: nat, call: Call)
    ensures var (e, next) := ConstructJsonRequest(counter, call);
      && IsRequestObject(EnvelopeJson(e))
      && EnvelopeJson(e).fields["jsonrpc"] == JString("2.0")
      && EnvelopeJson(e).fields["method"] == JString(call.name)
      && EnvelopeJson(e).fields["params"] == JArray(call.params)
      && EnvelopeJson(e).fields["id"] == JNumber(counter + 1)
      && next == counter + 1
  {
  }

  /* ---------- block and filter designators ---------- */

  /** A block number or filter id: a number, or a string such as "latest". */
  datatype Designator = Number(n: nat) | Tag(text: string)

  /** Numbers go out as `hex(n)`, strings unchanged. */
  function Marshal(d: Designator): string {
    match d
    case Number(n) => Hex.Encode(n)
    case Tag(t) => t
  }

  function CoinbaseCall(): Call { Call("eth_coinbase", []) }
  function GasPriceCall(): Call { Call("eth_gasPrice", []) }
  function BlockNumberCall(): Call { Call("eth_blockNumber", []) }

  /** `get_balance` passes its block argument through without encoding it. */
  function BalanceCall(address: Json, block: Json): Call {
    Call("eth_getBalance", [address, block])
  }

  function TransactionReceiptCall(hash: Json): Call {
    Call("eth_getTransactionReceipt", [hash])
  }

  function BlockByNumberCall(block: Designator, fullTransactions: bool): Call {
    Call("eth_getBlockByNumber", [JString(Marshal(block)), JBool(fullTransactions)])
  }

  function UninstallFilterCall(filter: Designator): Call {
    Call("eth_uninstallFilter", [JString(Marshal(filter))])
  }

  function FilterChangesCall(filter: Designator): Call {
    Call("eth_getFilterChanges", [JString(Marshal(filter))])
  }

  function FilterLogsCall(filter: Designator): Call {
    Call("eth_getFilterLogs", [JString(Marshal(filter))])
  }

  /** The designator each designator-taking wrapper sends as its first
      parameter: a number reads back as itself, a string is sent verbatim. */
  lemma DesignatorMarshalling(d: Designator, full: bool)
    ensures var sent := BlockByNumberCall(d, full).params[0];
      && sent == UninstallFilterCall(d).params[0]
      && sent == FilterChangesCall(d).params[0]
      && sent == FilterLogsCall(d).params[0]
      && sent.JString?
      && (d.Number? ==> Hex.Decode(sent.s) == Some(d.n))
      && (d.Tag? ==> sent.s == d.text)
  {
    if d.Number? {
      Hex.EncodeRoundTrip(d.n);
    }
  }

  /* ---------- decoding responses ---------- */

  /** `response['result']` on what `make_request` answered. */
  function ResultOf(response: Outcome): (r: Outcome)
    ensures response.Failure? ==> r == response
    ensures response.Success? ==> (r.Success? <==> response.value.JObject? && "result" in response.value.fields)
    ensures r.Success? ==> response.Success? && r.value == response.value.fields["result"]
  {
    match response
    case Failure(e) => Failure(e)
    case Success(body) => Lookup(body, "result")
  }

  /** `int(value, 16)`. */
  function ParseQuantity(value: Json): (r: Result<nat>)
    ensures r.Success? ==> value.JString? && Hex.Decode(value.s) == Some(r.value)
    ensures value.JString? && Hex.Decode(value.s).Some? ==> r == Success(Hex.Decode(value.s).value)
  {
    match value
    case JString(s) =>
      (match Hex.Decode(s)
       case Some(n) => Success(n)
       case None => Failure(NotHex(value)))
    case _ => Failure(NotHex(value))
  }

  /** `int(response['result'], 16)`, as in `get_gas_price`, `get_balance` and
      `get_block_number`. */
  function QuantityOf(response: Outcome): Result<nat> {
    match ResultOf(response)
    case Failure(e) => Failure(e)
    case Success(v) => ParseQuantity(v)
  }

  /** The response object a node sends for a successful call. */
  function Reply(result: Json): Outcome {
    Success(JObject(map["result" := result]))
  }

  /** A response object whose "result" member is `result`, whatever other
      members (such as "jsonrpc" and "id") it carries. */
  predicate Answers(response: Outcome, result: Json) {
    && response.Success?
    && response.value.JObject?
    && "result" in response.value.fields
    && response.value.fields["result"] == result
  }

  /** `response['result']` yields exactly what the response answers. */
  lemma AnswersIsResult(response: Outcome, result: Json)
    ensures Answers(response, result) <==> ResultOf(response) == Success(result)
    ensures Answers(Reply(result), result)
  {
  }

  /** A quantity the node encodes with `hex()` decodes to the same number;
      a failed request propagates unchanged. */
  lemma QuantityRoundTrip(n: nat, response: Outcome, e: Error)
    ensures Answers(response, JString(Hex.Encode(n))) ==> QuantityOf(response) == Success(n)
    ensures QuantityOf(Failure(e)) == Failure(e)
  {
    Hex.EncodeRoundTrip(n);
  }

  /** A wrapper over a transport: the transport is any function from calls to
      outcomes (the abstract `_make_request`). */
  function GetGasPrice(transport: Call -> Outcome): Result<nat> {
    QuantityOf(transport(GasPriceCall()))
  }

  function GetBalance(transport: Call -> Outcome, address: Json, block: Json): Result<nat> {
    QuantityOf(transport(BalanceCall(address, block)))
  }

  function GetBlockNumber(transport: Call -> Outcome): Result<nat> {
    QuantityOf(transport(BlockNumberCall()))
  }

  /** The three quantity wrappers return exactly the number the node sent in
      hex, whatever the node is. */
  lemma QuantityWrappersDecode(transport: Call -> Outcome, address: Json, block: Json, n: nat)
    ensures Answers(transport(GasPriceCall()), JString(Hex.Encode(n))) ==> GetGasPrice(transport) == Success(n)
    ensures Answers(transport(BalanceCall(address, block)), JString(Hex.Encode(n))) ==>
      GetBalance(transport, address, block) == Success(n)
    ensures Answers(transport(BlockNumberCall()), JString(Hex.Encode(n))) ==> GetBlockNumber(transport) == Success(n)
  {
    Hex.EncodeRoundTrip(n);
  }

  /* ---------- coinbase cache ---------- */

  /** One read of `default_from_address`: what it answers, the cache afterwards
      (`JNull` is Python's `None`, i.e. empty), and the calls it issued. */
  datatype CoinbaseRead = CoinbaseRead(answer: Outcome, cache: Json, calls: seq<Call>)

  /** `default_from_address` with cache `cache`; `response` is what the node
      answers if it is asked. */
  function DefaultFromAddress(cache: Json, response: Outcome): (r: CoinbaseRead)
    ensures cache != JNull ==> r == CoinbaseRead(Success(cache), cache, [])
    ensures cache == JNull ==> r.calls == [CoinbaseCall()] && r.answer == ResultOf(response)
    ensures r.answer.Success? ==> r.cache == r.answer.value
    ensures r.answer.Failure? ==> r.cache == cache
  {
    if cache != JNull then CoinbaseRead(Success(cache), cache, [])
    else
      match ResultOf(response)
      case Failure(e) => CoinbaseRead(Failure(e), JNull, [CoinbaseCall()])
      case Success(address) => CoinbaseRead(Success(address), address, [CoinbaseCall()])
  }

  /** Once a non-null coinbase has been read, every later read returns it
      without asking the node, whatever the node would say. */
  lemma {:induction false} CoinbaseCachedAfterFirstUse(first: Outcome, later: seq<Outcome>)
    requires DefaultFromAddress(JNull, first).answer.Success?
    requires DefaultFromAddress(JNull, first).answer.value != JNull
    ensures var read := DefaultFromAddress(JNull, first);
      var (answers, cache, asked) := ReadAll(read.cache, later);
      && (forall i :: 0 <= i < |later| ==> answers[i] == read.answer)
      && cache == read.cache && asked == 0
  {
    var read := DefaultFromAddress(JNull, first);
    CachedReads(read.cache, later);
  }

  /** Successive reads: the answers, the final cache and how many `eth_coinbase`
      calls were issued. */
  function ReadAll(cache: Json, responses: seq<Outcome>): (r: (seq<Outcome>, Json, nat))
    ensures |r.0| == |responses|
    ensures r.2 <= |responses|
    decreases |responses|
  {
    if |responses| == 0 then ([], cache, 0)
    else
      var read := DefaultFromAddress(cache, responses[0]);
      var (answers, last, asked) := ReadAll(read.cache, responses[1..]);
      ([read.answer] + answers, last, |read.calls| + asked)
  }

  lemma {:induction false} CachedReads(cache: Json, responses: seq<Outcome>)
    requires cache != JNull
    ensures forall i :: 0 <= i < |responses| ==> ReadAll(cache, responses).0[i] == Success(cache)
    ensures ReadAll(cache, responses).1 == cache && ReadAll(cache, responses).2 == 0
    decreases |responses|
  {
    if |responses| > 0 {
      CachedReads(cache, responses[1..]);
    }
  }

  /** A node that reports no coinbase (`null`) leaves the cache empty, so the
      next read asks again. */
  lemma NullCoinbaseAskedAgain(first: Outcome, second: Outcome)
    requires ResultOf(first) == Success(JNull)
    ensures DefaultFromAddress(DefaultFromAddress(JNull, first).cache, second).calls == [CoinbaseCall()]
  {
  }
}
