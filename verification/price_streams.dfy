/**
 The price-stream sockets: `startPriceWebSockets` opens one kline stream
 per symbol, each socket's handlers keep the `wsConnections` registry
 (symbol to socket), and `stopPriceWebSockets` asks every registered socket
 to close. Sockets are numbered in creation order; the network decides
 when their events arrive, so events are inputs.
 */
module PriceStreams {
  const StreamBaseUrl := "wss://fstream.binance.com/ws"
  const KlineSuffix := "@kline_1m"

  /** `toLowerCase` on one character, for the ASCII letters symbols are made of. */
  function LowerChar(c: char): char {
    if 'A' <= c <= 'Z' then (c as int - 'A' as int + 'a' as int) as char else c
  }

  /** `symbol.toLowerCase()`. */
  function ToLowerAscii(s: string): (r: string)
    ensures |r| == |s|
  {
    seq(|s|, i requires 0 <= i < |s| => LowerChar(s[i]))
  }

  /** Lowering leaves no ASCII capital behind and changes nothing else but capitals. */
  lemma ToLowerAsciiMeaning(s: string)
    ensures forall i :: 0 <= i < |s| ==> !('A' <= ToLowerAscii(s)[i] <= 'Z')
    ensures forall i :: 0 <= i < |s| && !('A' <= s[i] <= 'Z') ==> ToLowerAscii(s)[i] == s[i]
    ensures ToLowerAscii(ToLowerAscii(s)) == ToLowerAscii(s)
  {
  }

  /** The kline stream address for a symbol. */
  function ChannelUrl(symbol: string): string {
    StreamBaseUrl + "/" + ToLowerAscii(symbol) + KlineSuffix
  }

  /** Two symbols share a stream exactly when they agree up to ASCII case. */
  lemma ChannelUrlSameStream(a: string, b: string)
    ensures ChannelUrl(a) == ChannelUrl(b) <==> ToLowerAscii(a) == ToLowerAscii(b)
  {
    if ChannelUrl(a) == ChannelUrl(b) {
      var n := |StreamBaseUrl + "/"|;
      var la, lb := ToLowerAscii(a), ToLowerAscii(b);
      assert |la| == |lb|;
      assert la == ChannelUrl(a)[n..n + |la|];
      assert lb == ChannelUrl(b)[n..n + |lb|];
    }
  }

  /** A socket as created: the symbol whose handlers it carries and the address it dials. */
  datatype Socket = Socket(symbol: string, url: string)

  /** What the network delivers to a socket's handlers; `id` is the socket's creation number. */
  datatype Event = Opened(id: nat) | Message(id: nat) | Closed(id: nat) | Errored(id: nat)

  /**
   Everything the stream code affects: every socket created so far (its
   number is its index), the `wsConnections` registry, the sockets that
   have opened and that have closed, and the `ws.close()` calls made.
   */
  datatype Streams = Streams(
    sockets: seq<Socket>,
    registry: map<string, nat>,
    connected: set<nat>,
    finished: set<nat>,
    closeCalls: multiset<nat>)

  /** The server at start-up: no socket, an empty registry. */
  const Initial := Streams([], map[], {}, {}, multiset{})

  /**
   The registry only holds opened, not yet closed sockets, each under its
   own symbol; every number mentioned belongs to a created socket.
   */
  predicate Consistent(st: Streams) {
    && (forall sym :: sym in st.registry ==>
          && st.registry[sym] < |st.sockets|
          && st.sockets[st.registry[sym]].symbol == sym
          && st.registry[sym] in st.connected
          && st.registry[sym] !in st.finished)
    && (forall id :: id in st.connected ==> id < |st.sockets|)
    && (forall id :: id in st.finished ==> id < |st.sockets|)
    && (forall id :: id in st.closeCalls ==> id < |st.sockets|)
  }

  /** The socket has been created and its `close` event has not fired. */
  predicate Live(st: Streams, id: nat) {
    id < |st.sockets| && id !in st.finished
  }

  /** A live socket that nobody has asked to close. */
  predicate Abandoned(st: Streams, id: nat) {
    Live(st, id) && id !in st.closeCalls
  }

  /** The sockets `new WebSocket(...)` creates for `symbols`, in order. */
  function NewSockets(symbols: seq<string>): (ss: seq<Socket>)
    ensures |ss| == |symbols|
  {
    seq(|symbols|, i requires 0 <= i < |symbols| => Socket(symbols[i], ChannelUrl(symbols[i])))
  }

  /**
   `stopPriceWebSockets()`: `close()` on each registered socket. The
   registry itself is left as it is; entries go when the sockets' `close`
   events arrive.
   */
  function StopAll(st: Streams): (r: Streams)
    ensures r.sockets == st.sockets && r.registry == st.registry
    ensures r.connected == st.connected && r.finished == st.finished
    ensures forall id :: r.closeCalls[id] == st.closeCalls[id] + (if id in st.registry.Values then 1 else 0)
  {
    st.(closeCalls := st.closeCalls + multiset(st.registry.Values))
  }

  /** `startPriceWebSockets(symbols)`: stop, then create one socket per symbol. */
  function StartAll(st: Streams, symbols: seq<string>): (r: Streams)
    ensures |r.sockets| == |st.sockets| + |symbols| && r.sockets[..|st.sockets|] == st.sockets
    ensures r.registry == st.registry
    ensures r.connected == st.connected && r.finished == st.finished
    ensures forall id :: r.closeCalls[id] == st.closeCalls[id] + (if id in st.registry.Values then 1 else 0)
  {
    var stopped := StopAll(st);
    stopped.(sockets := stopped.sockets + NewSockets(symbols))
  }

  /**
   The handlers. `open` registers the socket under its symbol; `message`
   only logs; `close` and `error` delete whatever is registered under the
   socket's symbol. A socket that does not exist or has closed receives
   nothing, and one that has opened, or was asked to close first, does not
   open (again).
   */
  function Deliver(st: Streams, ev: Event): (r: Streams)
    ensures r.sockets == st.sockets && r.closeCalls == st.closeCalls
    ensures st.connected <= r.connected && st.finished <= r.finished
    ensures forall sym :: sym in r.registry && sym !in st.registry ==> r.registry[sym] == ev.id
    ensures ev.Message? ==> r == st
    ensures ev.Errored? ==> r.connected == st.connected && r.finished == st.finished
    ensures ev.Closed? ==> r.connected == st.connected
    ensures ev.Opened? ==> r.finished == st.finished && r.connected <= st.connected + {ev.id}
    ensures ev.Closed? && Live(st, ev.id) ==> r.finished == st.finished + {ev.id}
    ensures !Live(st, ev.id) ==> r == st
  {
    if ev.id >= |st.sockets| || ev.id in st.finished then st
    else
      var sym := st.sockets[ev.id].symbol;
      match ev
      case Opened(id) =>
        if id in st.connected || id in st.closeCalls then st
        else st.(registry := st.registry[sym := id], connected := st.connected + {id})
      case Message(_) => st
      case Closed(id) => st.(registry := st.registry - {sym}, finished := st.finished + {id})
      case Errored(_) => st.(registry := st.registry - {sym})
  }

  /** Events delivered one after another. */
  function DeliverAll(st: Streams, evs: seq<Event>): Streams
    decreases |evs|
  {
    if |evs| == 0 then st else DeliverAll(Deliver(st, evs[0]), evs[1..])
  }

  /** The server starts consistent. */
  lemma InitialConsistent()
    ensures Consistent(Initial)
    ensures forall id :: !Live(Initial, id)
  {
  }

  /**
   Stopping asks each registered socket to close exactly once more, asks
   no other socket, and leaves the sockets and the registry as they were.
   */
  lemma StopAllCloses(st: Streams)
    requires Consistent(st)
    ensures StopAll(st).sockets == st.sockets
    ensures StopAll(st).registry == st.registry
    ensures forall id :: StopAll(st).closeCalls[id]
                         == st.closeCalls[id] + (if id in st.registry.Values then 1 else 0)
    ensures Consistent(StopAll(st))
    ensures st.registry == map[] ==> StopAll(st) == st
  {
    if st.registry == map[] {
      assert st.registry.Values == {};
      assert st.closeCalls + multiset{} == st.closeCalls;
    }
  }

  /** Stopping twice calls `close()` twice on every registered socket. */
  lemma StopAllTwice(st: Streams, sym: string)
    requires Consistent(st) && sym in st.registry
    ensures StopAll(StopAll(st)).closeCalls[st.registry[sym]] == st.closeCalls[st.registry[sym]] + 2
  {
    StopAllCloses(st);
    StopAllCloses(StopAll(st));
  }

  /**
   Starting keeps the earlier sockets, adds one socket per symbol in order
   dialling that symbol's stream, and registers none of them yet.
   */
  lemma StartAllCreates(st: Streams, symbols: seq<string>)
    requires Consistent(st)
    ensures |StartAll(st, symbols).sockets| == |st.sockets| + |symbols|
    ensures StartAll(st, symbols).sockets[..|st.sockets|] == st.sockets
    ensures forall i :: 0 <= i < |symbols| ==>
              StartAll(st, symbols).sockets[|st.sockets| + i] == Socket(symbols[i], ChannelUrl(symbols[i]))
    ensures StartAll(st, symbols).registry == st.registry
    ensures forall id :: StartAll(st, symbols).closeCalls[id]
                         == st.closeCalls[id] + (if id in st.registry.Values then 1 else 0)
    ensures forall id: nat :: |st.sockets| <= id < |st.sockets| + |symbols| ==> Abandoned(StartAll(st, symbols), id)
    ensures Consistent(StartAll(st, symbols))
  {
    var r := StartAll(st, symbols);
    assert r.sockets[..|st.sockets|] == st.sockets;
    forall id: nat | |st.sockets| <= id < |st.sockets| + |symbols|
      ensures Abandoned(r, id)
    {
      assert id !in st.finished;
      assert id !in r.closeCalls;
    }
    forall sym | sym in r.registry
      ensures r.sockets[r.registry[sym]] == st.sockets[st.registry[sym]]
    {
    }
  }

  /** Every handler keeps the registry consistent. */
  lemma DeliverConsistent(st: Streams, ev: Event)
    requires Consistent(st)
    ensures Consistent(Deliver(st, ev))
    ensures Deliver(st, ev).sockets == st.sockets
  {
  }

  /**
   A handler touches only the registry entry of its own socket's symbol:
   every other symbol keeps its entry, or its absence.
   */
  lemma DeliverFrame(st: Streams, ev: Event, sym: string)
    requires ev.id >= |st.sockets| || st.sockets[ev.id].symbol != sym
    ensures sym in Deliver(st, ev).registry <==> sym in st.registry
    ensures sym in st.registry ==> Deliver(st, ev).registry[sym] == st.registry[sym]
  {
  }

  /** An `open` of a fresh socket registers it under its symbol, replacing any earlier one. */
  lemma OpenRegisters(st: Streams, id: nat)
    requires id < |st.sockets| && id !in st.finished && id !in st.connected && id !in st.closeCalls
    ensures Deliver(st, Opened(id)).registry == st.registry[st.sockets[id].symbol := id]
  {
  }

  /**
   A `close` or `error` event of a live socket always empties the entry of
   its symbol, whoever is registered there; `close` also ends the socket.
   */
  lemma CloseUnregistersSymbol(st: Streams, id: nat)
    requires Live(st, id)
    ensures st.sockets[id].symbol !in Deliver(st, Closed(id)).registry
    ensures st.sockets[id].symbol !in Deliver(st, Errored(id)).registry
    ensures !Live(Deliver(st, Closed(id)), id)
  {
  }

  /** Delivering events keeps the registry consistent. */
  lemma {:induction false} DeliverAllConsistent(st: Streams, evs: seq<Event>)
    requires Consistent(st)
    ensures Consistent(DeliverAll(st, evs))
    ensures DeliverAll(st, evs).sockets == st.sockets
    decreases |evs|
  {
    if |evs| > 0 {
      DeliverConsistent(st, evs[0]);
      DeliverAllConsistent(Deliver(st, evs[0]), evs[1..]);
    }
  }

  /**
   A restart before the first socket has opened, as written: the first
   socket is not registered when the second start stops, so nobody asks it
   to close; it opens later, is overwritten in the registry by the second
   socket, and the final stop leaves it running.
   */
  lemma UnopenedSocketSurvivesStop(sym: string)
    ensures var st := DeliverAll(StartAll(StartAll(Initial, [sym]), [sym]), [Opened(0), Opened(1)]);
            && Consistent(StopAll(st))
            && Abandoned(StopAll(st), 0)
  {
    var sock := Socket(sym, ChannelUrl(sym));
    TwoStarts(sym);
    OpenBoth(sym);
    StopAfterOpenBoth(sym);
    var stopped := Streams([sock, sock], map[sym := 1], {0, 1}, {}, multiset{1});
    assert Consistent(stopped);
  }

  /** The stop after both sockets opened asks only the registered socket 1 to close. */
  lemma StopAfterOpenBoth(sym: string)
    ensures var sock := Socket(sym, ChannelUrl(sym));
            StopAll(Streams([sock, sock], map[sym := 1], {0, 1}, {}, multiset{}))
            == Streams([sock, sock], map[sym := 1], {0, 1}, {}, multiset{1})
  {
    var sock := Socket(sym, ChannelUrl(sym));
    var st := Streams([sock, sock], map[sym := 1], {0, 1}, {}, multiset{});
    assert st.registry.Keys == {sym} && st.registry[sym] == 1;
    assert st.registry.Values == {1};
    forall id ensures StopAll(st).closeCalls[id] == multiset{1}[id] {
    }
    assert StopAll(st).closeCalls == multiset{1};
  }

  /** Two starts before any socket opens: two sockets, nothing registered, nothing closed. */
  lemma TwoStarts(sym: string)
    ensures StartAll(StartAll(Initial, [sym]), [sym])
            == Streams([Socket(sym, ChannelUrl(sym)), Socket(sym, ChannelUrl(sym))], map[], {}, {}, multiset{})
  {
    var sock := Socket(sym, ChannelUrl(sym));
    var s1 := StartAll(Initial, [sym]);
    assert Initial.registry.Values == {};
    assert s1 == Streams([sock], map[], {}, {}, multiset{});
    assert s1.registry.Values == {};
  }

  /** Both sockets open in order: the second overwrites the first in the registry. */
  lemma OpenBoth(sym: string)
    ensures var sock := Socket(sym, ChannelUrl(sym));
            DeliverAll(Streams([sock, sock], map[], {}, {}, multiset{}), [Opened(0), Opened(1)])
            == Streams([sock, sock], map[sym := 1], {0, 1}, {}, multiset{})
  {
    var sock := Socket(sym, ChannelUrl(sym));
    var s2 := Streams([sock, sock], map[], {}, {}, multiset{});
    var s3 := Deliver(s2, Opened(0));
    assert s3 == Streams([sock, sock], map[sym := 0], {0}, {}, multiset{});
    var s4 := Deliver(s3, Opened(1));
    assert s4.registry == map[sym := 0][sym := 1] == map[sym := 1];
    assert DeliverAll(s2, [Opened(0), Opened(1)]) == s4 by {
      assert [Opened(0), Opened(1)][1..] == [Opened(1)];
      assert DeliverAll(s4, []) == s4;
    }
  }

  /**
   A restart racing the old socket's `close`, as written: the new socket
   opens first, then the old socket's `close` deletes the new socket's
   entry, and the final stop leaves the new socket running.
   */
  lemma StaleCloseSurvivesStop(sym: string)
    ensures var st := DeliverAll(StartAll(DeliverAll(StartAll(Initial, [sym]), [Opened(0)]), [sym]),
                                 [Opened(1), Closed(0)]);
            && Consistent(StopAll(st))
            && Abandoned(StopAll(st), 1)
  {
    var s1 := StartAll(Initial, [sym]);
    var s2 := Deliver(s1, Opened(0));
    assert DeliverAll(s1, [Opened(0)]) == s2 by {
      assert DeliverAll(s2, []) == s2;
    }
    assert s2.registry == map[sym := 0];
    var s3 := StartAll(s2, [sym]);
    assert s2.registry.Values == {0};
    assert s3.closeCalls == multiset{0};
    var s4 := Deliver(s3, Opened(1));
    var s5 := Deliver(s4, Closed(0));
    assert DeliverAll(s3, [Opened(1), Closed(0)]) == s5 by {
      assert [Opened(1), Closed(0)][1..] == [Closed(0)];
      assert DeliverAll(s5, []) == s5;
    }
    assert s5.registry == map[];
    assert s5.registry.Values == {};
    StartAllCreates(Initial, [sym]);
    DeliverConsistent(s1, Opened(0));
    StartAllCreates(s2, [sym]);
    DeliverConsistent(s3, Opened(1));
    DeliverConsistent(s4, Closed(0));
    StopAllCloses(s5);
  }

  /**
   The corrected stop: `close()` on every live socket that has
   not been asked yet, registered or not.
   */
  function StopAllLive(st: Streams): Streams {
    var pending := set id | 0 <= id < |st.sockets| && Abandoned(st, id);
    st.(closeCalls := st.closeCalls + multiset(pending))
  }

  /** Starting on top of the corrected stop. */
  function StartAllLive(st: Streams, symbols: seq<string>): Streams {
    var stopped := StopAllLive(st);
    stopped.(sockets := stopped.sockets + NewSockets(symbols))
  }

  /**
   After the corrected stop no socket is abandoned, whatever happened
   before; the registered sockets are among those asked, and no socket is
   asked twice by it.
   */
  lemma StopAllLiveLeavesNoneAbandoned(st: Streams)
    requires Consistent(st)
    ensures forall id: nat :: !Abandoned(StopAllLive(st), id)
    ensures forall sym :: sym in st.registry ==> st.registry[sym] in StopAllLive(st).closeCalls
    ensures forall id :: StopAllLive(st).closeCalls[id] <= st.closeCalls[id] + 1
    ensures Consistent(StopAllLive(st))
  {
    var r := StopAllLive(st);
    forall id: nat | Abandoned(st, id) ensures id in r.closeCalls {
      assert id in set id | 0 <= id < |st.sockets| && Abandoned(st, id);
    }
    forall sym | sym in st.registry ensures st.registry[sym] in r.closeCalls {
      var id := st.registry[sym];
      if id !in st.closeCalls {
        assert id in set id | 0 <= id < |st.sockets| && Abandoned(st, id);
      }
    }
  }

  /**
   With the corrected stop a restart leaves only the sockets it has just
   created running unasked, so the first socket of the restart race is
   asked to close.
   */
  lemma StartAllLiveAbandonsOnlyNew(st: Streams, symbols: seq<string>)
    requires Consistent(st)
    ensures forall id: nat :: Abandoned(StartAllLive(st, symbols), id) ==> id >= |st.sockets|
    ensures Consistent(StartAllLive(st, symbols))
  {
    StopAllLiveLeavesNoneAbandoned(st);
    var stopped := StopAllLive(st);
    var r := StartAllLive(st, symbols);
    forall id: nat | id < |st.sockets| && Abandoned(r, id) ensures Abandoned(stopped, id) {
    }
    forall sym | sym in r.registry
      ensures r.sockets[r.registry[sym]] == st.sockets[st.registry[sym]]
    {
    }
  }

  /**
   The corrected handlers: `close` and `error` remove the
   registry entry only when it is the firing socket's own.
   */
  function DeliverOwned(st: Streams, ev: Event): Streams {
    if ev.id >= |st.sockets| || ev.id in st.finished then st
    else
      var sym := st.sockets[ev.id].symbol;
      var registry' := if sym in st.registry && st.registry[sym] == ev.id then st.registry - {sym} else st.registry;
      match ev
      case Opened(id) =>
        if id in st.connected || id in st.closeCalls then st
        else st.(registry := st.registry[sym := id], connected := st.connected + {id})
      case Message(_) => st
      case Closed(id) => st.(registry := registry', finished := st.finished + {id})
      case Errored(_) => st.(registry := registry')
  }

  /**
   With the owned handlers the registry stays consistent, and a registered
   socket keeps its entry through every event but its own `close` or
   `error` and a newer `open` of its symbol.
   */
  lemma DeliverOwnedKeepsEntry(st: Streams, ev: Event, sym: string)
    requires Consistent(st)
    requires sym in st.registry && ev.id != st.registry[sym] && !ev.Opened?
    ensures Consistent(DeliverOwned(st, ev))
    ensures sym in DeliverOwned(st, ev).registry
    ensures DeliverOwned(st, ev).registry[sym] == st.registry[sym]
  {
  }

  /**
   The restart race of `StaleCloseSurvivesStop` with the owned handlers:
   the old socket's `close` leaves the new socket registered, so the final
   stop asks it to close.
   */
  lemma StaleCloseHandledWhenOwned(sym: string)
    ensures var s1 := DeliverOwned(StartAll(Initial, [sym]), Opened(0));
            var s2 := DeliverOwned(DeliverOwned(StartAll(s1, [sym]), Opened(1)), Closed(0));
            && s2.registry == map[sym := 1]
            && !Abandoned(StopAll(s2), 1)
  {
    var s0 := StartAll(Initial, [sym]);
    var s1 := DeliverOwned(s0, Opened(0));
    assert s1.registry == map[sym := 0];
    var s3 := StartAll(s1, [sym]);
    assert s1.registry.Values == {0};
    assert s3.closeCalls == multiset{0};
    var s4 := DeliverOwned(s3, Opened(1));
    assert s4.registry == map[sym := 1];
    var s5 := DeliverOwned(s4, Closed(0));
    assert s5.registry == map[sym := 1];
    assert s5.registry.Values == {1};
    assert StopAll(s5).closeCalls[1] == 1;
  }
}
