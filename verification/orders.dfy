/**
 `placeOrder(symbol, side, quantity, price, stopPrice)`: the order
 parameters are built as an object whose `type` and extra keys depend on
 which of the optional prices are truthy, then sent through the signed
 request helper.
 */
module Orders {
  import opened Wrappers
  import opened JsObject
  import Numerals
  import SignedRequest

  /**
   The order type the exchange is asked for, by precedence: a stop price
   makes it STOP_MARKET whatever else is given; otherwise a price makes it
   LIMIT; otherwise MARKET.
   */
  function OrderType(price: Option<string>, stopPrice: Option<string>): string {
    if Truthy(stopPrice) then "STOP_MARKET"
    else if Truthy(price) then "LIMIT"
    else "MARKET"
  }

  /** The object literal the source starts from, with `type` already chosen. */
  function InitialParams(symbol: string, side: string, quantity: string, orderType: string): Obj {
    [("symbol", symbol), ("side", side), ("type", orderType), ("quantity", quantity)]
  }

  /** The price branch: `price` is added, then `timeInForce = 'GTC'`. */
  function WithLimitPrice(o: Obj, price: string): Obj {
    Assign(Assign(o, "price", price), "timeInForce", "GTC")
  }

  /** The stop branch: `stopPrice` is added, then `type` is overwritten in place. */
  function WithStopPrice(o: Obj, stopPrice: string): Obj {
    Assign(Assign(o, "stopPrice", stopPrice), "type", "STOP_MARKET")
  }

  /** The MARKET list: symbol, side, type, quantity. */
  function MarketList(symbol: string, side: string, quantity: string): Obj {
    [("symbol", symbol), ("side", side), ("type", "MARKET"), ("quantity", quantity)]
  }

  /** The LIMIT list: the initial keys, then price and GTC. */
  function LimitList(symbol: string, side: string, quantity: string, price: string): Obj {
    [("symbol", symbol), ("side", side), ("type", "LIMIT"), ("quantity", quantity),
     ("price", price), ("timeInForce", "GTC")]
  }

  /** The STOP_MARKET list without a price. */
  function StopList(symbol: string, side: string, quantity: string, stopPrice: string): Obj {
    [("symbol", symbol), ("side", side), ("type", "STOP_MARKET"), ("quantity", quantity),
     ("stopPrice", stopPrice)]
  }

  /** The STOP_MARKET list that keeps the price and GTC of the LIMIT order it started as. */
  function StopLimitList(symbol: string, side: string, quantity: string, price: string, stopPrice: string): Obj {
    [("symbol", symbol), ("side", side), ("type", "STOP_MARKET"), ("quantity", quantity),
     ("price", price), ("timeInForce", "GTC"), ("stopPrice", stopPrice)]
  }

  /**
   The `params` object as the source builds it: the literal with `type`
   chosen from `price`, then the price branch when `price` is truthy, then
   the stop branch when `stopPrice` is truthy. Its four shapes, key order
   included: MARKET with only symbol, side and quantity; LIMIT adding price
   and GTC; STOP_MARKET adding stopPrice last, keeping price and GTC when a
   price was also given.
   */
  function OrderParams(symbol: string, side: string, quantity: string,
                       price: Option<string>, stopPrice: Option<string>): (r: Obj)
    ensures match (Truthy(price), Truthy(stopPrice))
            case (false, false) => r == MarketList(symbol, side, quantity)
            case (true, false) => r == LimitList(symbol, side, quantity, price.value)
            case (false, true) => r == StopList(symbol, side, quantity, stopPrice.value)
            case (true, true) => r == StopLimitList(symbol, side, quantity, price.value, stopPrice.value)
  {
    var initial := InitialParams(symbol, side, quantity, if Truthy(price) then "LIMIT" else "MARKET");
    if Truthy(price) then
      var withPrice := WithLimitPrice(initial, price.value);
      LimitStep(symbol, side, quantity, price.value);
      if Truthy(stopPrice) then
        StopOnLimit(symbol, side, quantity, price.value, stopPrice.value);
        WithStopPrice(withPrice, stopPrice.value)
      else withPrice
    else if Truthy(stopPrice) then
      StopOnMarket(symbol, side, quantity, stopPrice.value);
      WithStopPrice(initial, stopPrice.value)
    else initial
  }

  /** The price branch on the LIMIT literal appends `price` and `timeInForce`. */
  lemma LimitStep(symbol: string, side: string, quantity: string, price: string)
    ensures WithLimitPrice(InitialParams(symbol, side, quantity, "LIMIT"), price)
            == LimitList(symbol, side, quantity, price)
  {
    var initial := InitialParams(symbol, side, quantity, "LIMIT");
    assert Keys(initial) == ["symbol", "side", "type", "quantity"];
    var a1 := Assign(initial, "price", price);
    assert a1 == initial + [("price", price)];
    assert Keys(a1) == ["symbol", "side", "type", "quantity", "price"];
  }

  /** The stop branch on the MARKET literal. */
  lemma StopOnMarket(symbol: string, side: string, quantity: string, stopPrice: string)
    ensures WithStopPrice(InitialParams(symbol, side, quantity, "MARKET"), stopPrice)
            == StopList(symbol, side, quantity, stopPrice)
  {
    var w := InitialParams(symbol, side, quantity, "MARKET");
    assert Keys(w) == ["symbol", "side", "type", "quantity"];
    StopStep(w, stopPrice);
    var r := WithStopPrice(w, stopPrice);
    assert r[0] == w[0] && r[1] == w[1] && r[3] == w[3];
  }

  /** The stop branch on the LIMIT list. */
  lemma StopOnLimit(symbol: string, side: string, quantity: string, price: string, stopPrice: string)
    ensures WithStopPrice(LimitList(symbol, side, quantity, price), stopPrice)
            == StopLimitList(symbol, side, quantity, price, stopPrice)
  {
    var w := LimitList(symbol, side, quantity, price);
    LimitListKeys(symbol, side, quantity, price);
    StopStep(w, stopPrice);
    var r := WithStopPrice(w, stopPrice);
    assert r[0] == w[0] && r[1] == w[1] && r[3] == w[3] && r[4] == w[4] && r[5] == w[5];
  }

  /** The LIMIT list lists each key once and has no `stopPrice` yet. */
  lemma LimitListKeys(symbol: string, side: string, quantity: string, price: string)
    ensures DistinctKeys(LimitList(symbol, side, quantity, price))
    ensures "stopPrice" !in Keys(LimitList(symbol, side, quantity, price))
  {
    LimitListDistinct(symbol, side, quantity, price);
    LimitListNoStop(symbol, side, quantity, price);
  }

  lemma LimitListDistinct(symbol: string, side: string, quantity: string, price: string)
    ensures DistinctKeys(LimitList(symbol, side, quantity, price))
  {
    var w := LimitList(symbol, side, quantity, price);
    forall i, j | 0 <= i < j < |w| ensures w[i].0 != w[j].0 {
      if i == 1 && j == 2 {
        assert w[i].0[0] != w[j].0[0];
      } else {
        assert |w[i].0| != |w[j].0|;
      }
    }
  }

  lemma LimitListNoStop(symbol: string, side: string, quantity: string, price: string)
    ensures "stopPrice" !in Keys(LimitList(symbol, side, quantity, price))
  {
    var w := LimitList(symbol, side, quantity, price);
    NotAKey(w, "stopPrice");
  }

  /**
   The stop branch on an object whose third key is `type` and which has no
   `stopPrice` yet: `type` becomes STOP_MARKET in its place, every other
   entry stays, and `stopPrice` is appended last.
   */
  lemma StopStep(w: Obj, stopPrice: string)
    requires DistinctKeys(w)
    requires |w| >= 4 && w[2].0 == "type" && "stopPrice" !in Keys(w)
    ensures |WithStopPrice(w, stopPrice)| == |w| + 1
    ensures WithStopPrice(w, stopPrice)[2] == ("type", "STOP_MARKET")
    ensures forall i :: 0 <= i < |w| && i != 2 ==> WithStopPrice(w, stopPrice)[i] == w[i]
    ensures WithStopPrice(w, stopPrice)[|w|] == ("stopPrice", stopPrice)
  {
    var b1 := Assign(w, "stopPrice", stopPrice);
    assert b1 == w + [("stopPrice", stopPrice)];
    assert Keys(b1)[2] == "type";
    AssignDistinct(w, "stopPrice", stopPrice);
    AssignExisting(b1, "type", "STOP_MARKET");
    var r := Assign(b1, "type", "STOP_MARKET");
    forall i | 0 <= i < |w| && i != 2 ensures r[i] == w[i] {
      assert b1[i] == w[i] && w[i].0 != w[2].0;
    }
    assert r[|w|] == b1[|w|] by {
      assert |b1[|w|].0| != |"type"|;
    }
  }

  /** No key of the list is `k`. */
  lemma NotAKey(ps: Obj, k: string)
    requires forall i :: 0 <= i < |ps| ==> ps[i].0 != k
    ensures k !in Keys(ps)
  {
  }

  /** No order parameter is called `timestamp`, so the timestamp is appended after them. */
  lemma NoTimestampKey(symbol: string, side: string, quantity: string,
                       price: Option<string>, stopPrice: Option<string>)
    ensures "timestamp" !in Keys(OrderParams(symbol, side, quantity, price, stopPrice))
  {
    var r := OrderParams(symbol, side, quantity, price, stopPrice);
    forall i | 0 <= i < |r| ensures r[i].0 != "timestamp" {
      NotTimestamp(r[i].0);
    }
    NotAKey(r, "timestamp");
  }

  /** Every order parameter name differs from `timestamp` in length or first letter. */
  lemma NotTimestamp(k: string)
    requires |k| != |"timestamp"| || (|k| > 0 && k[0] != 't')
    ensures k != "timestamp"
  {
  }

  /**
   What the exchange reads from the order: `type` follows the precedence of
   `OrderType`; symbol, side and quantity pass through; `price` and GTC are
   present exactly when a price is given; `stopPrice` exactly when a stop
   price is given; and no key is sent twice.
   */
  lemma OrderFields(symbol: string, side: string, quantity: string,
                    price: Option<string>, stopPrice: Option<string>)
    ensures DistinctKeys(OrderParams(symbol, side, quantity, price, stopPrice))
    ensures Lookup(OrderParams(symbol, side, quantity, price, stopPrice), "type")
            == Some(OrderType(price, stopPrice))
    ensures Lookup(OrderParams(symbol, side, quantity, price, stopPrice), "symbol") == Some(symbol)
    ensures Lookup(OrderParams(symbol, side, quantity, price, stopPrice), "side") == Some(side)
    ensures Lookup(OrderParams(symbol, side, quantity, price, stopPrice), "quantity") == Some(quantity)
    ensures Lookup(OrderParams(symbol, side, quantity, price, stopPrice), "price")
            == (if Truthy(price) then Some(price.value) else None)
    ensures Lookup(OrderParams(symbol, side, quantity, price, stopPrice), "timeInForce")
            == (if Truthy(price) then Some("GTC") else None)
    ensures Lookup(OrderParams(symbol, side, quantity, price, stopPrice), "stopPrice")
            == (if Truthy(stopPrice) then Some(stopPrice.value) else None)
  {
    if Truthy(price) && Truthy(stopPrice) {
      StopLimitFields(symbol, side, quantity, price.value, stopPrice.value);
    } else if Truthy(price) {
      LimitFields(symbol, side, quantity, price.value);
    } else if Truthy(stopPrice) {
      StopFields(symbol, side, quantity, stopPrice.value);
    } else {
      MarketFields(symbol, side, quantity);
    }
  }

  lemma MarketFields(symbol: string, side: string, quantity: string)
    ensures var r := MarketList(symbol, side, quantity);
            && DistinctKeys(r)
            && Lookup(r, "type") == Some("MARKET")
            && Lookup(r, "symbol") == Some(symbol) && Lookup(r, "side") == Some(side)
            && Lookup(r, "quantity") == Some(quantity)
            && Lookup(r, "price") == None && Lookup(r, "timeInForce") == None && Lookup(r, "stopPrice") == None
  {
    var r := MarketList(symbol, side, quantity);
    assert Keys(r) == ["symbol", "side", "type", "quantity"];
    LookupAt(r, 0); LookupAt(r, 1); LookupAt(r, 2); LookupAt(r, 3);
    NotListed(r, "price");
    NotListed(r, "timeInForce");
    NotListed(r, "stopPrice");
  }

  lemma LimitFields(symbol: string, side: string, quantity: string, price: string)
    ensures var r := LimitList(symbol, side, quantity, price);
            && DistinctKeys(r)
            && Lookup(r, "type") == Some("LIMIT")
            && Lookup(r, "symbol") == Some(symbol) && Lookup(r, "side") == Some(side)
            && Lookup(r, "quantity") == Some(quantity)
            && Lookup(r, "price") == Some(price) && Lookup(r, "timeInForce") == Some("GTC")
            && Lookup(r, "stopPrice") == None
  {
    var r := LimitList(symbol, side, quantity, price);
    LimitListKeys(symbol, side, quantity, price);
    LookupAt(r, 0); LookupAt(r, 1); LookupAt(r, 2); LookupAt(r, 3); LookupAt(r, 4); LookupAt(r, 5);
    NotListed(r, "stopPrice");
  }

  lemma StopFields(symbol: string, side: string, quantity: string, stopPrice: string)
    ensures var r := StopList(symbol, side, quantity, stopPrice);
            && DistinctKeys(r)
            && Lookup(r, "type") == Some("STOP_MARKET")
            && Lookup(r, "symbol") == Some(symbol) && Lookup(r, "side") == Some(side)
            && Lookup(r, "quantity") == Some(quantity)
            && Lookup(r, "price") == None && Lookup(r, "timeInForce") == None
            && Lookup(r, "stopPrice") == Some(stopPrice)
  {
    var r := StopList(symbol, side, quantity, stopPrice);
    assert Keys(r) == ["symbol", "side", "type", "quantity", "stopPrice"];
    LookupAt(r, 0); LookupAt(r, 1); LookupAt(r, 2); LookupAt(r, 3); LookupAt(r, 4);
    NotListed(r, "price");
    NotListed(r, "timeInForce");
  }

  lemma StopLimitFields(symbol: string, side: string, quantity: string, price: string, stopPrice: string)
    ensures var r := StopLimitList(symbol, side, quantity, price, stopPrice);
            && DistinctKeys(r)
            && Lookup(r, "type") == Some("STOP_MARKET")
            && Lookup(r, "symbol") == Some(symbol) && Lookup(r, "side") == Some(side)
            && Lookup(r, "quantity") == Some(quantity)
            && Lookup(r, "price") == Some(price) && Lookup(r, "timeInForce") == Some("GTC")
            && Lookup(r, "stopPrice") == Some(stopPrice)
  {
    var r := StopLimitList(symbol, side, quantity, price, stopPrice);
    var w := LimitList(symbol, side, quantity, price);
    LimitListKeys(symbol, side, quantity, price);
    AssignDistinct(w, "stopPrice", stopPrice);
    AssignDistinct(Assign(w, "stopPrice", stopPrice), "type", "STOP_MARKET");
    StopOnLimit(symbol, side, quantity, price, stopPrice);
    LookupAt(r, 0); LookupAt(r, 1); LookupAt(r, 2); LookupAt(r, 3);
    LookupAt(r, 4); LookupAt(r, 5); LookupAt(r, 6);
  }

  /**
   The signed POST to `/fapi/v1/order`: the order parameters in their
   order, then `timestamp`, then `signature`.
   */
  function PlaceOrderRequest(env: SignedRequest.Environment, hmac: SignedRequest.Hmac,
                             symbol: string, side: string, quantity: string,
                             price: Option<string>, stopPrice: Option<string>, now: nat)
    : (r: Result<SignedRequest.Request, SignedRequest.RequestError>)
    ensures r.Err? <==> !Truthy(env.apiKey) || !Truthy(env.secretKey)
    ensures r.Ok? ==> r.value.verb == "POST"
    ensures r.Ok? ==> r.value.url == SignedRequest.FuturesApiUrl + "/fapi/v1/order" + "?" + r.value.query
    ensures r.Ok? ==> SignedRequest.SignedOver(r.value, hmac, env.secretKey.value,
                        OrderParams(symbol, side, quantity, price, stopPrice)
                        + [("timestamp", Numerals.DecimalString(now))])
  {
    var params := OrderParams(symbol, side, quantity, price, stopPrice);
    NoTimestampKey(symbol, side, quantity, price, stopPrice);
    SignedRequest.Build(env, hmac, "POST", "/fapi/v1/order", params, true, now)
  }
}
