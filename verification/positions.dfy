/**
 `getAccountPositions`: the signed GET of the futures account, keeping only
 the positions whose `positionAmt` does not parse to zero. A position is
 the JSON object the exchange returns, its properties in order.
 */
module Positions {
  import opened Wrappers
  import opened JsObject
  import opened JsNumber
  import Numerals
  import SignedRequest

  type Position = Obj

  /**
   `parseFloat(p.positionAmt)`: a missing property reads as `undefined`,
   whose text `"undefined"` parses to NaN.
   */
  function Amount(p: Position): Number {
    match Lookup(p, "positionAmt")
    case None => NaN
    case Some(v) => ParseFloat(v)
  }

  /**
   The filter test `parseFloat(p.positionAmt) !== 0`: NaN and infinities pass
   it, so a position without an amount is kept.
   */
  predicate IsOpen(p: Position)
    ensures Lookup(p, "positionAmt") == None ==> IsOpen(p)
  {
    Amount(p) != Finite(0.0)
  }

  /** `Array.prototype.filter` with the callback `keep`: the entries it accepts, in their order. */
  function Filter(ps: seq<Position>, keep: Position -> bool): (r: seq<Position>)
    ensures |r| <= |ps|
  {
    if |ps| == 0 then []
    else
      var rest := Filter(ps[1..], keep);
      if keep(ps[0]) then [ps[0]] + rest else rest
  }

  /**
   `positions.filter(p => parseFloat(p.positionAmt) !== 0)`: every open
   position as often as it is listed, in the order listed, and nothing else.
   */
  function OpenPositions(ps: seq<Position>): (r: seq<Position>)
    ensures forall p :: multiset(r)[p] == if IsOpen(p) then multiset(ps)[p] else 0
    ensures IsSubsequence(r, ps)
  {
    FilterCounts(ps, IsOpen);
    FilterInOrder(ps, IsOpen);
    Filter(ps, IsOpen)
  }

  /** The filter walked left to right, one callback per entry, as `filter` does. */
  method FilterLoop(ps: seq<Position>, keep: Position -> bool) returns (r: seq<Position>)
    ensures r == Filter(ps, keep)
  {
    r := [];
    var i := 0;
    while i < |ps|
      invariant 0 <= i <= |ps|
      invariant r == Filter(ps[..i], keep)
    {
      FilterPrefix(ps, i, keep);
      r := r + (if keep(ps[i]) then [ps[i]] else []);
      i := i + 1;
    }
    assert ps[..|ps|] == ps;
  }

  /** An entry is kept exactly when it is listed and accepted. */
  lemma {:induction false} FilterMembers(ps: seq<Position>, keep: Position -> bool)
    ensures forall p :: p in Filter(ps, keep) <==> p in ps && keep(p)
  {
    if |ps| > 0 {
      FilterMembers(ps[1..], keep);
      assert ps == [ps[0]] + ps[1..];
    }
  }

  /** Filtering one more entry at the end keeps it exactly when it is accepted. */
  lemma {:induction false} FilterSnoc(ps: seq<Position>, p: Position, keep: Position -> bool)
    ensures Filter(ps + [p], keep) == Filter(ps, keep) + (if keep(p) then [p] else [])
  {
    if |ps| == 0 {
      assert ps + [p] == [p];
    } else {
      assert (ps + [p])[1..] == ps[1..] + [p];
      FilterSnoc(ps[1..], p, keep);
    }
  }

  /** Filtering a prefix one entry longer keeps that entry exactly when it is accepted. */
  lemma FilterPrefix(ps: seq<Position>, i: nat, keep: Position -> bool)
    requires i < |ps|
    ensures Filter(ps[..i + 1], keep) == Filter(ps[..i], keep) + (if keep(ps[i]) then [ps[i]] else [])
  {
    assert ps[..i + 1] == ps[..i] + [ps[i]];
    FilterSnoc(ps[..i], ps[i], keep);
  }

  /** `a` can be obtained from `b` by deleting entries. */
  predicate IsSubsequence(a: seq<Position>, b: seq<Position>)
    decreases |b|
  {
    if |a| == 0 then true
    else if |b| == 0 then false
    else if a[0] == b[0] then IsSubsequence(a[1..], b[1..])
    else IsSubsequence(a, b[1..])
  }

  /** The filter only deletes: the kept entries keep their relative order. */
  lemma {:induction false} FilterInOrder(ps: seq<Position>, keep: Position -> bool)
    ensures IsSubsequence(Filter(ps, keep), ps)
  {
    if |ps| > 0 {
      FilterInOrder(ps[1..], keep);
      var rest := Filter(ps[1..], keep);
      if !keep(ps[0]) && |rest| > 0 {
        FilterMembers(ps[1..], keep);
        assert keep(rest[0]);
      }
    }
  }

  /**
   The filter keeps every accepted entry as often as it is listed and drops
   every other entry entirely.
   */
  lemma {:induction false} FilterCounts(ps: seq<Position>, keep: Position -> bool)
    ensures forall p :: multiset(Filter(ps, keep))[p] == if keep(p) then multiset(ps)[p] else 0
  {
    if |ps| > 0 {
      FilterCounts(ps[1..], keep);
      assert ps == [ps[0]] + ps[1..];
      assert multiset(ps) == multiset{ps[0]} + multiset(ps[1..]);
    }
  }

  /**
   A position whose amount text is a decimal literal of zeros (`"0.000"`,
   `"-0"`, `" 0e5"`) is dropped; one whose text has a nonzero digit in its
   literal, or no literal at all, is kept.
   */
  lemma DroppedExactlyWhenZeroText(p: Position)
    ensures !IsOpen(p)
        <==> Lookup(p, "positionAmt").Some?
             && var lit := ScanLiteral(Lookup(p, "positionAmt").value);
             && lit.Some? && lit.value.DecimalLiteral?
             && AllZeros(lit.value.intDigits + lit.value.fracDigits)
  {
    if Lookup(p, "positionAmt").Some? {
      ParseFloatZero(Lookup(p, "positionAmt").value);
    }
  }

  /**
   `getAccountPositions` given the `positions` array of the account the
   exchange returned for the signed GET: an error when the credentials are
   not configured, else exactly the open positions.
   */
  function AccountPositions(env: SignedRequest.Environment, hmac: SignedRequest.Hmac, now: nat,
                            positions: seq<Position>)
    : (r: Result<seq<Position>, SignedRequest.RequestError>)
    ensures r.Err? <==> SignedRequest.AccountRequest(env, hmac, now).Err?
    ensures r.Err? <==> !Truthy(env.apiKey) || !Truthy(env.secretKey)
    ensures r.Ok? ==> forall p :: p in r.value <==> p in positions && IsOpen(p)
    ensures r.Ok? ==> forall p :: multiset(r.value)[p] == if IsOpen(p) then multiset(positions)[p] else 0
    ensures r.Ok? ==> IsSubsequence(r.value, positions)
  {
    match SignedRequest.AccountRequest(env, hmac, now)
    case Err(e) => Err(e)
    case Ok(_) =>
      FilterMembers(positions, IsOpen);
      Ok(OpenPositions(positions))
  }

  /** A flat position, whose amount the exchange writes as `0.` and zeros, is dropped. */
  lemma FlatPositionDropped(p: Position, k: nat)
    requires Lookup(p, "positionAmt") == Some("0." + Zeros(k))
    ensures !IsOpen(p)
  {
    ParseZeroFraction(k);
  }

  /** A position of a whole number of contracts, long or short, is kept unless the number is 0. */
  lemma WholePositionKept(p: Position, n: nat, short: bool)
    requires Lookup(p, "positionAmt") == Some((if short then "-" else "") + Numerals.DecimalString(n))
    ensures IsOpen(p) <==> n != 0
  {
    if short {
      ParseNegativeDecimalString(n);
    } else {
      assert "" + Numerals.DecimalString(n) == Numerals.DecimalString(n);
      ParseDecimalString(n);
    }
  }
}
