# botrade `server.js` core, modelled in Dafny

The trading relay's server talks to the Binance REST and streaming APIs. This
project models the three parts of `server.js` that carry logic, and proves
what they promise:

- **Signed requests.** `binanceRequest`, with `setLeverage`, the account
  query and `placeOrder` built on it.
  - The credentials check and the base URL choice.
  - The ordered parameter object `{...params, timestamp}`.
  - Its `URLSearchParams` serialization, following the
    application/x-www-form-urlencoded serializer of the WHATWG URL Standard,
    section 5.2, over UTF-8 (RFC 3629).
  - The HMAC-SHA256 signature in lowercase hex, with the HMAC left
    uninterpreted.
  - The appended `signature` pair.
- **Order parameters.** `placeOrder`: which keys appear, in which order,
  and which `type` wins when both prices are given.
- **Position filter.** `getAccountPositions`: the
  `parseFloat(p.positionAmt) !== 0` filter over the account's positions.
  This includes a model of `parseFloat` on decimal text.
- **Price-stream registry.** `wsConnections` with `startPriceWebSockets`
  and `stopPriceWebSockets`. It is a state machine: socket events arrive
  one at a time, in an order chosen by the network.

The central invariant is `SignedRequest.SignedOver`. The signed string is
the serialization of the stamped parameters, and the query string sent is
the serialization with the signature pair appended, which is exactly the
signed string followed by `&signature=<hmac>`. A receiver
that parses either string gets back the parameter list in order, with the
signature last.

## Layout

| file | module | contents |
|---|---|---|
| `wrappers.dfy` | `Wrappers` | `Option`, `Result` |
| `js_object.dfy` | `JsObject` | a plain object as the ordered list of its properties; property assignment |
| `utf8.dfy` | `Utf8` | UTF-8 encoder and strict decoder |
| `numerals.dfy` | `Numerals` | `String(n)` for a natural number; lowercase hex of a digest |
| `form_urlencoded.dfy` | `FormUrlEncoded` | the form-urlencoded serializer, and a strict parser that reads it back (malformed UTF-8 yields no result) |
| `signed_request.dfy` | `SignedRequest` | `binanceRequest`, `setLeverage`, the account request |
| `orders.dfy` | `Orders` | `placeOrder` |
| `js_number.dfy` | `JsNumber` | `parseFloat` |
| `positions.dfy` | `Positions` | `getAccountPositions` |
| `price_streams.dfy` | `PriceStreams` | the stream registry and its handlers |

Inputs that the program reads from its surroundings become parameters:

- `Date.now()` is `now`.
- `process.env` is `Environment`.
- `crypto.createHmac('sha256', …)` is a function value `hmac`.
- The `positions` array of the exchange's reply is an argument.
- Socket events are `Event` values.

## Model

| member | source | states |
|---|---|---|
| `SignedRequest.Build` | server.js:70-95 | Fails exactly when the API key or the secret is missing or empty. Otherwise the URL is the futures base when `isFutures` holds and the spot base when it does not, then the endpoint, `?` and the query. The verb and API-key header are passed through. The signed string is the serialization of the stamped parameters. The query is the serialization with the signature appended, equal to the signed string plus `&signature=<hmac of that string under the secret>`, and both strings parse back to the stamped parameters, the second with the signature last |
| `SignedRequest.WithTimestamp` | server.js:82-85 | Without a caller `timestamp`, the stamped object is the caller's properties in order followed by `timestamp`. With one, the key list is unchanged, so the caller's `timestamp` keeps its position |
| `SignedRequest.TimestampLookup` | server.js:82-85 | `timestamp` reads as the decimal millisecond time; every other key reads as the caller gave it |
| `SignedRequest.TimestampOnce` | server.js:82-85 | Given distinct caller keys, the stamped object has distinct keys and lists `timestamp` exactly once |
| `SignedRequest.Signature` | server.js:88-91 | Two lowercase hex digits per digest byte of the HMAC of the UTF-8 payload under the UTF-8 secret |
| `SignedRequest.SignedQueryIsPayloadPlusSignature` | server.js:90-95 | Appending the signature pair extends the serialization by exactly `&signature=<sig>` |
| `SignedRequest.SignatureLastAndOnce` | server.js:82-95 | With credentials configured and a caller object that has distinct keys and no `signature` key: the parsed sent list ends with the signature pair, `signature` and `timestamp` occur once each, and the caller's keys lead in their order |
| `SignedRequest.SentPairsShape` | server.js:82-93 | The same three facts about the stamped list with the signature appended |
| `SignedRequest.LeverageRequest` | server.js:108-114 | Fails exactly without credentials. Otherwise it is a POST to the futures `/fapi/v1/leverage`, signed over the serialization of `symbol`, `leverage`, `timestamp` in that order |
| `SignedRequest.AccountRequest` | server.js:121-123 | Fails exactly without credentials. Otherwise it is a GET of the futures `/fapi/v2/account`, signed over the serialization of `timestamp` alone |
| `SignedRequest.HexUnreserved` | server.js:91-95 | A hex digest needs no percent-escaping in the query |
| `FormUrlEncoded.Serialize` | server.js:90-95 | `toString()` of the parameters: empty exactly when there are no pairs |
| `FormUrlEncoded.ParseSerialize` | server.js:82-95 | Parsing the serialization of any pair list gives back that list, in order |
| `FormUrlEncoded.SerializeIsJoin` | server.js:90 | The serializer's output is the `&`-join of the encoded `name=value` pieces |
| `FormUrlEncoded.SerializeSnoc` | server.js:93-95 | Appending a pair to a non-empty list appends `&name=value` to the serialization |
| `FormUrlEncoded.EncodedHasNoSeparators` | server.js:90 | An encoded name or value never contains `&` or `=` |
| `FormUrlEncoded.DecodeEncodeComponent` | server.js:90 | Percent-decoding the encoding of a string gives the string back |
| `FormUrlEncoded.EncodeUnreserved` | server.js:90 | A string of ASCII alphanumerics and `*-._` is written as it is |
| `Utf8.DecodeEncode` | server.js:89-90 | Strict UTF-8 decoding inverts encoding for every string |
| `Numerals.DecimalString` | server.js:79-85 | `String(n)` of the timestamp is non-empty, all digits, has a leading `0` only for 0, and denotes `n` |
| `Numerals.HexLower` | server.js:91 | `digest('hex')` has two lowercase hex digits per byte, high nibble first, denoting that byte |
| `JsObject.Assign` | server.js:140-148 | `obj[k] = v` appends a new key and keeps the key list when `k` is already present |
| `JsObject.AssignLookup` | server.js:140-148 | After `obj[k] = v`, `k` reads `v` and every other key reads as before |
| `JsObject.AssignExisting` | server.js:146-147 | Assigning an existing key rewrites that entry in place and nothing else |
| `JsObject.AssignDistinct` | server.js:82-85 | Assignment keeps the keys distinct |
| `JsObject.LookupAt` | server.js:82-85 | With distinct keys, the key of entry `i` reads that entry's value |
| `Orders.OrderParams` | server.js:133-148 | The four parameter lists, key order included. MARKET has symbol, side, type and quantity. LIMIT adds `price` and `timeInForce=GTC`. STOP_MARKET adds `stopPrice` last and keeps `price` and GTC when a price was also given |
| `Orders.OrderFields` | server.js:133-149 | `type` is STOP_MARKET when `stopPrice` is truthy, else LIMIT when `price` is truthy, else MARKET. Symbol, side and quantity pass through. `price` and GTC are present exactly when `price` is truthy, and `stopPrice` exactly when `stopPrice` is truthy. No key is sent twice |
| `Orders.StopStep` | server.js:145-148 | The stop branch rewrites `type` in its place, keeps every other entry, and appends `stopPrice` last |
| `Orders.LimitStep` | server.js:140-143 | The price branch appends `price` and then `timeInForce` |
| `Orders.NoTimestampKey` | server.js:133-151 | No order parameter is named `timestamp`, so the stamp goes after all of them |
| `Orders.PlaceOrderRequest` | server.js:131-151 | Fails exactly without credentials. Otherwise it is a POST to the futures `/fapi/v1/order`, signed over the serialization of the order parameters followed by `timestamp` |
| `JsNumber.ParseFloat` | server.js:124 | NaN exactly when no numeric literal starts the text after white space; a signed infinity exactly when `Infinity` does; a finite value otherwise |
| `JsNumber.ParseFloatZero` | server.js:124 | `parseFloat(s) === 0` exactly when, after leading white space, `s` starts with a decimal literal all of whose digits are `0`, whatever its sign and exponent |
| `JsNumber.LiteralZero` | server.js:124 | A scanned literal is zero exactly when it is decimal with only `0` digits |
| `JsNumber.DecimalValueZero` | server.js:124 | A digit string denotes 0 exactly when every digit is `0` |
| `JsNumber.ParseDecimalString` | server.js:124 | `parseFloat(String(n))` is `n` |
| `JsNumber.ParseNegativeDecimalString` | server.js:124 | `parseFloat("-" + String(n))` is `-n` |
| `JsNumber.ParseZeroFraction` | server.js:124 | `parseFloat("0." + zeros)` is 0 |
| `Positions.FilterLoop` | server.js:124 | `filter` walked left to right with one callback per entry is the recursive filter |
| `Positions.FilterMembers` | server.js:124 | An entry is kept exactly when it is listed and the callback accepts it |
| `Positions.FilterInOrder` | server.js:124 | The kept entries are a subsequence of the input, in order |
| `Positions.FilterSnoc` | server.js:124 | Filtering one more entry keeps it exactly when the callback accepts it |
| `Positions.FilterCounts` | server.js:124 | The filter keeps each accepted entry exactly as often as it is listed and drops every other entry |
| `Positions.IsOpen` | server.js:124 | A position without a `positionAmt` passes the test, since `parseFloat` of `undefined` is NaN |
| `Positions.OpenPositions` | server.js:124 | Every open position as often as it is listed, none other, in the listed order |
| `Positions.DroppedExactlyWhenZeroText` | server.js:124 | A position is dropped exactly when its `positionAmt` is present and starts with a decimal literal of zeros. A missing amount reads as NaN and is kept |
| `Positions.FlatPositionDropped` | server.js:124 | An amount written `0.` followed by zeros is dropped |
| `Positions.WholePositionKept` | server.js:124 | A whole amount, long or short, is kept exactly when it is not 0 |
| `Positions.AccountPositions` | server.js:121-129 | Fails exactly without credentials. Otherwise the result holds exactly the open positions of the account's list, each as often as it is listed, as an order-preserving subsequence |
| `PriceStreams.ToLowerAsciiMeaning` | server.js:165 | Lowering leaves no ASCII capital, changes nothing but capitals, and is idempotent |
| `PriceStreams.ChannelUrlSameStream` | server.js:165 | Two symbols dial the same stream exactly when they agree up to ASCII case |
| `PriceStreams.InitialConsistent` | server.js:159 | The empty registry is consistent, and no socket is live at start-up |
| `PriceStreams.StopAll` | server.js:203-205 | One more `close()` call on each registered socket and none on any other; sockets, registry and socket states unchanged |
| `PriceStreams.StartAll` | server.js:161-165 | First the stop's `close()` calls on the registered sockets, then the new sockets appended after the earlier ones; the registry and every earlier socket's opened and closed state are unchanged |
| `PriceStreams.Deliver` | server.js:167-199 | A handler creates no socket and calls no `close()`; sockets once opened or closed stay so; a new registry entry can only be the firing socket. A `message` changes nothing; an `error` leaves every socket's opened and closed state as it was, an `open` finishes no socket and marks at most the firing socket opened; a `close` leaves the opened sockets as they were and marks only the firing socket closed; an event of a socket that does not exist or has closed changes nothing |
| `PriceStreams.StopAllCloses` | server.js:203-205 | Stopping adds exactly one `close()` call per registered socket and none for any other socket. It leaves the registry and the sockets as they were, and it changes nothing on an empty registry |
| `PriceStreams.StopAllTwice` | server.js:203-205 | Two stops call `close()` twice on every registered socket |
| `PriceStreams.StartAllCreates` | server.js:161-165 | Starting first adds one `close()` call on each registered socket and none on any other. It keeps the earlier sockets and adds one socket per symbol, in order, dialling that symbol's stream. None of the new sockets is registered or asked to close yet |
| `PriceStreams.DeliverConsistent` | server.js:167-199 | Every handler keeps the registry consistent. Only opened, unclosed sockets are registered, each under its own symbol |
| `PriceStreams.DeliverFrame` | server.js:167-199 | An event changes no registry entry except its own socket's symbol |
| `PriceStreams.OpenRegisters` | server.js:167-170 | `open` of a socket that exists and has not yet opened, closed or been asked to close sets its symbol's entry to it, overwriting any earlier entry |
| `PriceStreams.CloseUnregistersSymbol` | server.js:191-199 | `close` and `error` remove the symbol's entry whoever is registered there, and `close` ends the socket |
| `PriceStreams.DeliverAllConsistent` | server.js:167-199 | Any sequence of events keeps the registry consistent and the sockets unchanged |
| `PriceStreams.UnopenedSocketSurvivesStop` | server.js:161-205 | The restart race below as written: socket 0 stays live and is never asked to close |
| `PriceStreams.StaleCloseSurvivesStop` | server.js:161-205 | The stale-close race below as written: socket 1 stays live and is never asked to close |
| `PriceStreams.StopAllLiveLeavesNoneAbandoned` | server.js:203-205 | The corrected stop leaves no live socket unasked, asks every registered socket, and asks none twice |
| `PriceStreams.StartAllLiveAbandonsOnlyNew` | server.js:161-165 | After a corrected restart, the only unasked live sockets are the ones the restart created |
| `PriceStreams.DeliverOwnedKeepsEntry` | server.js:191-199 | With owned handlers, a registered socket keeps its entry through every other socket's `close`, `error` or message |
| `PriceStreams.StaleCloseHandledWhenOwned` | server.js:161-205 | With owned handlers, the stale-close race leaves the new socket registered, so the stop asks it to close |

## Behaviour worth noting

Three facts about `server.js` that a reader might not expect:

- **`stopPriceWebSockets` does not clear the registry.** It only calls
  `close()` on the registered sockets. Entries go when their `close` events
  arrive. A second stop before then calls `close()` again on the same
  sockets (`StopAllTwice`).
- **The stop does not reach every connection.** It closes only registered
  sockets, that is, sockets whose `open` has fired and whose entry has not
  since been overwritten by a newer socket of the same symbol or deleted by
  a stale `close` or `error`. A socket that is still connecting is not
  closed either. See Findings.
- **A stop price keeps the limit fields.** With both a price and a stop
  price, the order is STOP_MARKET and still carries `price` and
  `timeInForce=GTC` (server.js:140-148).

## Left out

- HTTP and the server around the core are not modelled:
  - the axios call, its reply and its error propagation (server.js:97-105 and the `try`/`catch` blocks);
  - Express routing, CORS, static files and `app.listen`;
  - the `/api/bot/start` presence check and its leverage-then-start sequence;
  - the other routes.
- SHA-256 and HMAC are not modelled. `hmac` is any function from key bytes
  and message bytes to digest bytes.
- `Date.now()` is the parameter `now`. `String(now)` is modelled for the
  natural numbers; the exponent form used from 10^21 up is not modelled.
- Argument types are modelled as strings only. Parameters that arrive as
  numbers or other JSON values (`leverage`, `quantity`, `price` from a
  request body) are not converted by `String()`. Truthiness is that of a
  string: a numeric `0` price, which is falsy, is not distinguished.
- Some JavaScript object-order rules are not modelled. Keys that are array
  indices (`"1"`, `"2"`) are enumerated first in numeric order. A
  `__proto__` key is special. Both are left out; caller keys are assumed
  to be ordinary names.
- The binary64 rounding in `parseFloat` is not modelled. Values are exact
  reals. A literal too small for binary64 would read as 0 in JavaScript but
  non-zero here. One too large reads as Infinity there and as a large
  finite value here; that makes no difference to the filter.
- Only ASCII letters are lowered in `toLowerCase`, since exchange symbols
  are ASCII. Full Unicode case mapping is not modelled.
- The WebSocket transport is not modelled: connection, framing, and the
  `JSON.parse` and logging in the `message` handler. A message changes no
  state.
- The ordering of events is an input. Concurrency, and when the network
  delivers an event, are not modelled.
- `PriceStreams.StopAllCloses`: it states which sockets are asked to close,
  not when their `close` events arrive, since the network decides that.

## Findings

| source | as written | input that shows it | evidently intended | confidence | as-written member | corrected member |
|---|---|---|---|---|---|---|
| server.js:203-205 | The stop calls `close()` only on sockets in `wsConnections`, and a socket enters it only on `open` | `startPriceWebSockets([S])` twice before the first socket opens, then both sockets open, then `stopPriceWebSockets()`: socket 0 is live, unregistered, and never asked to close | Stopping (and so restarting) closes every socket a start created | medium, not executed | `PriceStreams.UnopenedSocketSurvivesStop` | `PriceStreams.StopAllLiveLeavesNoneAbandoned` |
| server.js:191-199 | `close` and `error` delete the entry under the socket's symbol, even when a newer socket is registered there | `startPriceWebSockets([S])`, socket 0 opens, `startPriceWebSockets([S])` asks 0 to close, socket 1 opens, then 0's `close` arrives and `stopPriceWebSockets()` runs: socket 1 is live and never asked to close | A handler removes only its own socket's entry | medium, not executed | `PriceStreams.StaleCloseSurvivesStop` | `PriceStreams.DeliverOwnedKeepsEntry` |

In the first row, `StopAllLive` is the corrected stop: it calls `close()` on
every live socket not yet asked. `StartAllLive` restarts on top of it
(`StartAllLiveAbandonsOnlyNew`). In the second row, `DeliverOwned` is the
corrected handler. `StaleCloseHandledWhenOwned` replays the race with it:
the new socket stays registered and the stop asks it to close.
