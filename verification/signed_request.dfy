/**
 The signed REST request helper (`binanceRequest`) and the two fixed calls
 built on it (`setLeverage` and the account query behind
 `getAccountPositions`). The model stops at the request handed to the HTTP
 client: the network call itself and its response are not part of it.
 */
module SignedRequest {
  import opened Wrappers
  import opened Utf8
  import opened JsObject
  import Numerals
  import FormUrlEncoded

  const SpotApiUrl := "https://api.binance.com"
  const FuturesApiUrl := "https://fapi.binance.com"
  const SignatureKey := "signature"

  /** The two environment variables the helper reads; an unset variable is `None`. */
  datatype Environment = Environment(apiKey: Option<string>, secretKey: Option<string>)

  /** HMAC-SHA256 keyed by the first argument over the second; left uninterpreted. */
  type Hmac = (seq<byte>, seq<byte>) -> seq<byte>

  datatype RequestError = CredentialsNotConfigured

  /**
   What is handed to the HTTP client: the HTTP verb, the full URL, the
   `X-MBX-APIKEY` header value, the query string after `?`, and, for the
   statement of the signing invariant, the string that was signed and the
   signature.
   */
  datatype Request = Request(
    verb: string,
    url: string,
    apiKeyHeader: string,
    query: string,
    signedPayload: string,
    signature: string)

  /**
   `{...params, timestamp}`: the caller's properties in their order, then
   `timestamp`; a caller-supplied `timestamp` keeps its place and takes the
   new value.
   */
  function WithTimestamp(params: Obj, timestamp: nat): (r: Obj)
    ensures "timestamp" !in Keys(params) ==> r == params + [("timestamp", Numerals.DecimalString(timestamp))]
    ensures "timestamp" in Keys(params) ==> Keys(r) == Keys(params)
  {
    Assign(params, "timestamp", Numerals.DecimalString(timestamp))
  }

  /** Reading the stamped object: `timestamp` is the decimal time, every other key is the caller's. */
  lemma TimestampLookup(params: Obj, timestamp: nat)
    ensures Lookup(WithTimestamp(params, timestamp), "timestamp") == Some(Numerals.DecimalString(timestamp))
    ensures forall k :: k != "timestamp" ==> Lookup(WithTimestamp(params, timestamp), k) == Lookup(params, k)
  {
    AssignLookup(params, "timestamp", Numerals.DecimalString(timestamp));
  }

  /** For an object with distinct keys, `timestamp` ends up listed exactly once. */
  lemma TimestampOnce(params: Obj, timestamp: nat)
    requires DistinctKeys(params)
    ensures DistinctKeys(WithTimestamp(params, timestamp))
    ensures Occurrences(WithTimestamp(params, timestamp), "timestamp") == 1
  {
    var r := WithTimestamp(params, timestamp);
    AssignDistinct(params, "timestamp", Numerals.DecimalString(timestamp));
    TimestampLookup(params, timestamp);
    LookupFindsListed(r, "timestamp");
    OccursOnce(r, "timestamp");
  }

  /** `createHmac('sha256', secretKey).update(payload).digest('hex')`. */
  function Signature(hmac: Hmac, secretKey: string, payload: string): (sig: string)
    ensures |sig| == 2 * |hmac(Utf8.Encode(secretKey), Utf8.Encode(payload))|
    ensures forall i :: 0 <= i < |sig| ==> Numerals.IsLowerHex(sig[i])
    ensures var digest := hmac(Utf8.Encode(secretKey), Utf8.Encode(payload));
            forall i :: 0 <= i < |digest| ==>
              Numerals.HexDigitValue(sig[2 * i]) * 16 + Numerals.HexDigitValue(sig[2 * i + 1]) == digest[i]
  {
    Numerals.HexLower(hmac(Utf8.Encode(secretKey), Utf8.Encode(payload)))
  }

  /**
   The signing invariant: the string signed is `toString()` of `pairs` and
   the query sent is `toString()` of `pairs` with the signature appended,
   which is the signed string followed by `&signature=<sig>`; the signature
   is the HMAC of the signed string under the secret; and a receiver reads
   back `pairs` from the signed string and `pairs` followed by the
   signature from the query.
   */
  predicate SignedOver(req: Request, hmac: Hmac, secretKey: string, pairs: seq<Pair>) {
    && req.signedPayload == FormUrlEncoded.Serialize(pairs)
    && req.query == FormUrlEncoded.Serialize(pairs + [(SignatureKey, req.signature)])
    && req.query == req.signedPayload + "&" + SignatureKey + "=" + req.signature
    && req.signature == Signature(hmac, secretKey, req.signedPayload)
    && FormUrlEncoded.Parse(req.signedPayload) == Some(pairs)
    && FormUrlEncoded.Parse(req.query) == Some(pairs + [(SignatureKey, req.signature)])
  }

  /**
   `binanceRequest(method, endpoint, params, isFutures)` (with `method` as `verb`) at wall-clock time
   `now`: fails before building anything when either credential is missing or
   empty; otherwise signs the serialized parameters and appends `signature`.
   */
  function Build(env: Environment, hmac: Hmac, verb: string, endpoint: string,
                 params: Obj, isFutures: bool, now: nat): (r: Result<Request, RequestError>)
    ensures r.Err? <==> !Truthy(env.apiKey) || !Truthy(env.secretKey)
    ensures r.Ok? ==> r.value.verb == verb && r.value.apiKeyHeader == env.apiKey.value
    ensures r.Ok? ==> r.value.url == (if isFutures then FuturesApiUrl else SpotApiUrl) + endpoint + "?" + r.value.query
    ensures r.Ok? ==> SignedOver(r.value, hmac, env.secretKey.value, WithTimestamp(params, now))
  {
    if !Truthy(env.apiKey) || !Truthy(env.secretKey) then
      Err(CredentialsNotConfigured)
    else
      var baseUrl := if isFutures then FuturesApiUrl else SpotApiUrl;
      var queryParams := WithTimestamp(params, now);
      var signed := FormUrlEncoded.Serialize(queryParams);
      var signature := Signature(hmac, env.secretKey.value, signed);
      var sent := queryParams + [(SignatureKey, signature)];
      var query := FormUrlEncoded.Serialize(sent);
      SignedQueryIsPayloadPlusSignature(queryParams, signature);
      FormUrlEncoded.ParseSerialize(queryParams);
      FormUrlEncoded.ParseSerialize(sent);
      Ok(Request(verb, baseUrl + endpoint + "?" + query, env.apiKey.value, query, signed, signature))
  }

  /**
   Appending the signature pair to a list that already holds `timestamp`
   extends its serialization by exactly `&signature=<sig>`.
   */
  lemma SignedQueryIsPayloadPlusSignature(queryParams: Obj, signature: string)
    requires "timestamp" in Keys(queryParams)
    requires forall i :: 0 <= i < |signature| ==> Numerals.IsLowerHex(signature[i])
    ensures FormUrlEncoded.Serialize(queryParams + [(SignatureKey, signature)])
         == FormUrlEncoded.Serialize(queryParams) + "&" + SignatureKey + "=" + signature
  {
    assert Keys(queryParams) != [];
    SignatureKeyUnreserved();
    HexUnreserved(signature);
    FormUrlEncoded.SerializeSnocUnreserved(queryParams, SignatureKey, signature);
  }

  /** A lowercase hex digest needs no escaping. */
  lemma HexUnreserved(signature: string)
    requires forall i :: 0 <= i < |signature| ==> Numerals.IsLowerHex(signature[i])
    ensures FormUrlEncoded.AllUnreserved(signature)
  {
    forall i | 0 <= i < |signature| ensures FormUrlEncoded.IsUnreservedChar(signature[i]) {
      assert Numerals.IsLowerHex(signature[i]);
    }
  }

  lemma SignatureKeyUnreserved()
    ensures FormUrlEncoded.AllUnreserved(SignatureKey)
  {
    var k := SignatureKey;
    assert forall i :: 0 <= i < |k| ==> 'a' <= k[i] <= 'z';
  }

  /**
   The transmitted pairs end with `signature`; when the caller did not pass a
   `signature` of their own it occurs exactly once, as does `timestamp`, and
   the caller's keys lead in their original order.
   */
  lemma SignatureLastAndOnce(env: Environment, hmac: Hmac, verb: string, endpoint: string,
                             params: Obj, isFutures: bool, now: nat)
    requires Truthy(env.apiKey) && Truthy(env.secretKey)
    requires DistinctKeys(params)
    requires SignatureKey !in Keys(params)
    ensures var req := Build(env, hmac, verb, endpoint, params, isFutures, now).value;
            var sent := FormUrlEncoded.Parse(req.query).value;
            && sent[|sent| - 1] == (SignatureKey, req.signature)
            && Occurrences(sent, SignatureKey) == 1
            && Occurrences(sent, "timestamp") == 1
            && Keys(sent)[..|params|] == Keys(params)
  {
    var req := Build(env, hmac, verb, endpoint, params, isFutures, now).value;
    SentPairsShape(params, now, req.signature);
  }

  lemma SentPairsShape(params: Obj, now: nat, signature: string)
    requires DistinctKeys(params)
    requires SignatureKey !in Keys(params)
    ensures var sent := WithTimestamp(params, now) + [(SignatureKey, signature)];
            sent[|sent| - 1] == (SignatureKey, signature)
    ensures Occurrences(WithTimestamp(params, now) + [(SignatureKey, signature)], SignatureKey) == 1
    ensures Occurrences(WithTimestamp(params, now) + [(SignatureKey, signature)], "timestamp") == 1
    ensures Keys(WithTimestamp(params, now) + [(SignatureKey, signature)])[..|params|] == Keys(params)
  {
    SentOccurrences(params, now, signature);
    SentKeysPrefix(params, now, signature);
  }

  lemma SentOccurrences(params: Obj, now: nat, signature: string)
    requires DistinctKeys(params)
    requires SignatureKey !in Keys(params)
    ensures Occurrences(WithTimestamp(params, now) + [(SignatureKey, signature)], SignatureKey) == 1
    ensures Occurrences(WithTimestamp(params, now) + [(SignatureKey, signature)], "timestamp") == 1
  {
    var qp := WithTimestamp(params, now);
    var tail := [(SignatureKey, signature)];
    TimestampOnce(params, now);
    assert Occurrences(qp, SignatureKey) == 0 by {
      LookupFindsListed(params, SignatureKey);
      LookupFindsListed(qp, SignatureKey);
      NotListed(qp, SignatureKey);
    }
    OccurrencesAppend(qp, tail, SignatureKey);
    OccurrencesAppend(qp, tail, "timestamp");
  }

  lemma SentKeysPrefix(params: Obj, now: nat, signature: string)
    ensures Keys(WithTimestamp(params, now) + [(SignatureKey, signature)])[..|params|] == Keys(params)
  {
    AssignKeysLead(params, "timestamp", Numerals.DecimalString(now), [(SignatureKey, signature)]);
  }

  /** `setLeverage(symbol, leverage)`: a signed POST to the futures leverage endpoint. */
  function LeverageRequest(env: Environment, hmac: Hmac, symbol: string, leverage: string, now: nat)
    : (r: Result<Request, RequestError>)
    ensures r.Err? <==> !Truthy(env.apiKey) || !Truthy(env.secretKey)
    ensures r.Ok? ==> r.value.verb == "POST"
    ensures r.Ok? ==> r.value.url == FuturesApiUrl + "/fapi/v1/leverage" + "?" + r.value.query
    ensures r.Ok? ==> SignedOver(r.value, hmac, env.secretKey.value,
                                 [("symbol", symbol), ("leverage", leverage), ("timestamp", Numerals.DecimalString(now))])
  {
    var params: Obj := [("symbol", symbol), ("leverage", leverage)];
    var ts := Numerals.DecimalString(now);
    assert "timestamp" !in Keys(params);
    assert WithTimestamp(params, now) == params + [("timestamp", ts)];
    assert params + [("timestamp", ts)] == [("symbol", symbol), ("leverage", leverage), ("timestamp", ts)];
    Build(env, hmac, "POST", "/fapi/v1/leverage", params, true, now)
  }

  /** The account query behind `getAccountPositions`: a signed GET with only `timestamp`. */
  function AccountRequest(env: Environment, hmac: Hmac, now: nat): (r: Result<Request, RequestError>)
    ensures r.Err? <==> !Truthy(env.apiKey) || !Truthy(env.secretKey)
    ensures r.Ok? ==> r.value.verb == "GET"
    ensures r.Ok? ==> r.value.url == FuturesApiUrl + "/fapi/v2/account" + "?" + r.value.query
    ensures r.Ok? ==> SignedOver(r.value, hmac, env.secretKey.value, [("timestamp", Numerals.DecimalString(now))])
  {
    var params: Obj := [];
    var ts := Numerals.DecimalString(now);
    assert WithTimestamp(params, now) == [("timestamp", ts)];
    Build(env, hmac, "GET", "/fapi/v2/account", params, true, now)
  }
}
