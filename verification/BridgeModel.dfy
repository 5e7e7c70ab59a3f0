/** The websocket/daemon bridge as a step system: per connection two FIFO queues and two pending
    writable callbacks, with the service loop free to interleave the events of all connections. */
module BridgeModel {
  import opened MessageQueue

  /** One direction of a connection.  accepted and handed are histories: the messages put on the
      queue so far and the messages handed to the writer so far. */
  datatype Lane = Lane(queue: seq<Bytes>, pending: bool, accepted: seq<Bytes>, handed: seq<Bytes>)

  /** toWeb carries messages from the daemon socket to the websocket, toLocal the other way. */
  datatype Conn = Conn(toWeb: Lane, toLocal: Lane)

  const EMPTY_LANE := Lane([], false, [], [])
  const NEW_CONN := Conn(EMPTY_LANE, EMPTY_LANE)

  /** Answers of the write side during one callback: is the pipe choked before the k-th write? */
  type Choke = nat -> bool

  datatype Event =
    | Receive(data: Bytes)
    | RawRead(size: int, data: Bytes)
    | WebWritable(choke: Choke)
    | LocalWritable

  /** conn_putmsg_*: an empty message is refused. */
  function Accept(lane: Lane, data: Bytes): Lane {
    if data == [] then lane
    else lane.(queue := lane.queue + [data], accepted := lane.accepted + [data])
  }

  /** How many messages one writable callback hands over before the pipe chokes. */
  function Sendable(queue: seq<Bytes>, choke: Choke, k: nat): (n: nat)
    ensures n <= |queue|
  {
    if queue == [] || choke(k) then 0 else 1 + Sendable(queue[1..], choke, k + 1)
  }

  /** The lane after the first k queued messages were handed to the writer. */
  function HandOver(lane: Lane, k: nat): (r: Lane)
    requires k <= |lane.queue|
    ensures r.queue == lane.queue[k..] && r.pending == lane.pending
  {
    lane.(queue := lane.queue[k..], handed := lane.handed + lane.queue[..k])
  }

  lemma HandOneMore(lane: Lane, k: nat)
    requires k < |lane.queue|
    ensures HandOver(HandOver(lane, k), 1) == HandOver(lane, k + 1)
  {
    assert lane.queue[k..][1..] == lane.queue[k + 1..];
    assert lane.handed + lane.queue[..k] + lane.queue[k..][..1] == lane.handed + lane.queue[..k + 1];
  }

  /** A writable callback: the request is used up, and made again if the pipe choked. */
  function Drain(lane: Lane, choke: Choke): Lane {
    var n := Sendable(lane.queue, choke, 0);
    HandOver(lane, n).(pending := n < |lane.queue|)
  }

  function Step(c: Conn, e: Event): Conn {
    match e
    case Receive(data) => c.(toLocal := Accept(c.toLocal, data).(pending := true))
    case RawRead(size, data) =>
      if size > 0 then c.(toWeb := Accept(c.toWeb, data).(pending := true)) else c
    case WebWritable(choke) => c.(toWeb := Drain(c.toWeb, choke))
    case LocalWritable => c.(toLocal := Drain(c.toLocal, _ => false))
  }

  function Run(c: Conn, events: seq<Event>): Conn {
    if events == [] then c else Step(Run(c, events[..|events| - 1]), events[|events| - 1])
  }

  // ---------------------------------------------------------------- invariants of one connection

  ghost predicate LaneOk(lane: Lane) {
    && (lane.queue != [] ==> lane.pending)
    && lane.accepted == lane.handed + lane.queue
  }

  /** No lost wakeup and conservation, in both directions. */
  ghost predicate ConnOk(c: Conn) {
    LaneOk(c.toWeb) && LaneOk(c.toLocal)
  }

  lemma AcceptKeeps(lane: Lane, data: Bytes)
    requires LaneOk(lane)
    ensures LaneOk(Accept(lane, data).(pending := true))
  {
    assert lane.handed + (lane.queue + [data]) == lane.handed + lane.queue + [data];
  }

  lemma DrainKeeps(lane: Lane, choke: Choke)
    requires LaneOk(lane)
    ensures LaneOk(Drain(lane, choke)) && Drain(lane, choke).accepted == lane.accepted
  {
    SplitConcat(lane.handed, lane.queue, Sendable(lane.queue, choke, 0));
  }

  lemma SplitConcat(h: seq<Bytes>, q: seq<Bytes>, n: nat)
    requires n <= |q|
    ensures h + q[..n] + q[n..] == h + q
  {
  }

  /** Every step keeps both properties. */
  lemma StepKeeps(c: Conn, e: Event)
    requires ConnOk(c)
    ensures ConnOk(Step(c, e))
  {
    match e
    case Receive(data) => AcceptKeeps(c.toLocal, data);
    case RawRead(size, data) => AcceptKeeps(c.toWeb, data);
    case WebWritable(choke) => DrainKeeps(c.toWeb, choke);
    case LocalWritable => DrainKeeps(c.toLocal, _ => false);
  }

  /** In every reachable state, under any interleaving and any choking, queued messages have a
      pending callback, and what was accepted is what was handed over followed by what is queued. */
  lemma {:induction false} RunKeeps(events: seq<Event>)
    ensures ConnOk(Run(NEW_CONN, events))
  {
    if events != [] {
      RunKeeps(events[..|events| - 1]);
      StepKeeps(Run(NEW_CONN, events[..|events| - 1]), events[|events| - 1]);
    }
  }

  // ---------------------------------------------------------------- what each event may do

  /** Only a writable callback hands messages over, and only in its own direction; only an arrival is
      accepted, and only in its direction; no event touches the other direction at all. */
  lemma WhoDoesWhat(c: Conn, e: Event)
    ensures !e.WebWritable? ==> Step(c, e).toWeb.handed == c.toWeb.handed
    ensures !e.LocalWritable? ==> Step(c, e).toLocal.handed == c.toLocal.handed
    ensures !e.RawRead? ==> Step(c, e).toWeb.accepted == c.toWeb.accepted
    ensures !e.Receive? ==> Step(c, e).toLocal.accepted == c.toLocal.accepted
    ensures e.RawRead? || e.WebWritable? ==> Step(c, e).toLocal == c.toLocal
    ensures e.Receive? || e.LocalWritable? ==> Step(c, e).toWeb == c.toWeb
  {
  }

  /** What one event does to a direction: an arrival goes to the back of the queue unless it is empty,
      and asks for a callback either way; a read without data does nothing. */
  lemma Arrives(c: Conn, data: Bytes, size: int)
    ensures var l := Step(c, Receive(data)).toLocal;
            l.pending && l.queue == c.toLocal.queue + (if data == [] then [] else [data])
    ensures var l := Step(c, RawRead(size, data)).toWeb;
            if size > 0 then l.pending && l.queue == c.toWeb.queue + (if data == [] then [] else [data])
            else l == c.toWeb
  {
  }

  /** A writable callback takes messages off the front of the queue, in order, and hands over exactly
      those; it asks for another callback exactly when it leaves some. */
  lemma Leaves(c: Conn, choke: Choke)
    ensures var l, l' := c.toWeb, Step(c, WebWritable(choke)).toWeb;
            && (exists n :: 0 <= n <= |l.queue| && l'.handed == l.handed + l.queue[..n] && l'.queue == l.queue[n..]
                            && (forall i | 0 <= i < n :: !choke(i)) && (n < |l.queue| ==> choke(n)))
            && (l'.pending <==> l'.queue != [])
    ensures var l, l' := c.toLocal, Step(c, LocalWritable).toLocal;
            l'.handed == l.handed + l.queue && l'.queue == [] && !l'.pending
  {
    SendsUntilChoked(c.toWeb.queue, choke, 0);
    SendsAll(c.toLocal.queue, _ => false, 0);
    assert c.toLocal.queue[..|c.toLocal.queue|] == c.toLocal.queue;
  }

  /** What the writable callbacks of a run sent in one direction: each as much of the queue it found
      as it could before the pipe choked. */
  function Sent(events: seq<Event>, toWeb: bool): seq<Bytes> {
    if events == [] then []
    else
      var before, e := Run(NEW_CONN, events[..|events| - 1]), events[|events| - 1];
      Sent(events[..|events| - 1], toWeb)
      + (if toWeb && e.WebWritable? then before.toWeb.queue[..Sendable(before.toWeb.queue, e.choke, 0)]
         else if !toWeb && e.LocalWritable? then before.toLocal.queue
         else [])
  }

  /** Over any run nothing is handed over but what the writable callbacks sent. */
  lemma {:induction false} HandedIsSent(events: seq<Event>)
    ensures Run(NEW_CONN, events).toWeb.handed == Sent(events, true)
    ensures Run(NEW_CONN, events).toLocal.handed == Sent(events, false)
  {
    if events != [] {
      var front, e := events[..|events| - 1], events[|events| - 1];
      HandedIsSent(front);
      var c := Run(NEW_CONN, front);
      WhoDoesWhat(c, e);
      if e.LocalWritable? { Leaves(c, _ => false); }
    }
  }

  /** No event after the i-th is a writable callback of the direction. */
  ghost predicate NoneAfter(events: seq<Event>, i: int, web: bool) {
    forall j | i < j < |events| && 0 <= j :: if web then !events[j].WebWritable? else !events[j].LocalWritable?
  }

  /** A callback towards the daemon is pending exactly when something was received since the last one. */
  lemma {:induction false} LocalPending(events: seq<Event>)
    ensures Run(NEW_CONN, events).toLocal.pending <==>
            exists i :: 0 <= i < |events| && events[i].Receive? && NoneAfter(events, i, false)
  {
    if events != [] {
      var front, e := events[..|events| - 1], events[|events| - 1];
      LocalPending(front);
      var c := Run(NEW_CONN, front);
      WhoDoesWhat(c, e);
      if e.Receive? { Arrives(c, e.data, 0); assert NoneAfter(events, |events| - 1, false); }
      if e.LocalWritable? { Leaves(c, _ => false); }
      forall i | 0 <= i < |front|
        ensures NoneAfter(events, i, false) <==> NoneAfter(front, i, false) && !e.LocalWritable?
      {
        assert forall j | i < j < |front| :: events[j] == front[j];
      }
    }
  }

  /** The i-th event is the last that counts for the websocket and asks for a callback: data was read,
      or a callback left messages behind. */
  ghost predicate AsksForWeb(events: seq<Event>, i: int) {
    && 0 <= i < |events| && NoneAfter(events, i, true)
    && (|| (events[i].RawRead? && events[i].size > 0)
        || (events[i].WebWritable? && Run(NEW_CONN, events[..i + 1]).toWeb.queue != []))
  }

  lemma AskedBefore(events: seq<Event>, i: int)
    requires events != [] && i < |events| - 1
    ensures var n := |events| - 1;
            AsksForWeb(events, i) <==> AsksForWeb(events[..n], i) && !events[n].WebWritable?
  {
    hide Run;
    if 0 <= i {
      var front := events[..|events| - 1];
      assert events[..i + 1] == front[..i + 1];
      assert forall j | i < j < |front| :: events[j] == front[j];
    }
  }

  lemma AsksLast(events: seq<Event>)
    requires events != []
    ensures var n := |events| - 1;
            var c, e := Run(NEW_CONN, events[..n]), events[n];
            AsksForWeb(events, n) <==> (e.RawRead? && e.size > 0) || (e.WebWritable? && Step(c, e).toWeb.pending)
  {
    hide Step;
    var n := |events| - 1;
    assert events[..n + 1] == events;
    if events[n].WebWritable? { Leaves(Run(NEW_CONN, events[..n]), events[n].choke); }
  }

  /** A callback towards the websocket is pending exactly when some event asked for it since. */
  lemma {:induction false} WebPending(events: seq<Event>)
    ensures Run(NEW_CONN, events).toWeb.pending <==> exists i :: AsksForWeb(events, i)
  {
    hide AsksForWeb, Step, NoneAfter;
    if events == [] {
      NobodyAsks();
    } else {
      var n := |events| - 1;
      var front, e := events[..n], events[n];
      WebPending(front);
      AsksLast(events);
      var c := Run(NEW_CONN, front);
      WhoDoesWhat(c, e);
      if e.RawRead? { Arrives(c, e.data, e.size); }
      forall i | i < n ensures AsksForWeb(events, i) <==> AsksForWeb(front, i) && !e.WebWritable? {
        AskedBefore(events, i);
      }
      forall i | AsksForWeb(events, i) || AsksForWeb(front, i) ensures i <= n && (AsksForWeb(front, i) ==> i < n) {
        AsksInRange(events, i);
        AsksInRange(front, i);
      }
    }
  }

  lemma NobodyAsks()
    ensures !Run(NEW_CONN, []).toWeb.pending && forall i :: !AsksForWeb([], i)
  {
  }

  lemma AsksInRange(events: seq<Event>, i: int)
    ensures AsksForWeb(events, i) ==> 0 <= i < |events|
  {
  }

  // ---------------------------------------------------------------- delivery

  lemma {:induction false} SendsAll(queue: seq<Bytes>, choke: Choke, k: nat)
    requires forall i | k <= i < k + |queue| :: !choke(i)
    ensures Sendable(queue, choke, k) == |queue|
  {
    if queue != [] { SendsAll(queue[1..], choke, k + 1); }
  }

  /** The callback stops exactly at the first choked write. */
  lemma {:induction false} SendsUntilChoked(queue: seq<Bytes>, choke: Choke, k: nat)
    ensures forall i | k <= i < k + Sendable(queue, choke, k) :: !choke(i)
    ensures Sendable(queue, choke, k) < |queue| ==> choke(k + Sendable(queue, choke, k))
  {
    if queue != [] && !choke(k) { SendsUntilChoked(queue[1..], choke, k + 1); }
  }

  ghost predicate Grows(c: Conn, c': Conn) {
    && c.toWeb.accepted <= c'.toWeb.accepted && c.toWeb.handed <= c'.toWeb.handed
    && c.toLocal.accepted <= c'.toLocal.accepted && c.toLocal.handed <= c'.toLocal.handed
  }

  /** Histories only grow: nothing handed over is taken back or reordered. */
  lemma {:induction false} RunGrows(c: Conn, events: seq<Event>)
    ensures Grows(c, Run(c, events))
  {
    if events != [] { RunGrows(c, events[..|events| - 1]); }
  }

  lemma {:induction false} RunAppend(c: Conn, events: seq<Event>, more: seq<Event>)
    ensures Run(c, events + more) == Run(Run(c, events), more)
  {
    if more == [] {
      assert events + more == events;
    } else {
      assert (events + more)[..|events + more| - 1] == events + more[..|more| - 1];
      RunAppend(c, events, more[..|more| - 1]);
    }
  }

  /** Whatever was accepted for the websocket before a writable callback that finds the pipe free
      has been handed over once it returns, in the order it was accepted, and stays so. */
  lemma DeliveredToWeb(before: seq<Event>, choke: Choke, after: seq<Event>)
    requires forall i: nat :: !choke(i)
    ensures Run(NEW_CONN, before).toWeb.accepted
         <= Run(NEW_CONN, before + [WebWritable(choke)] + after).toWeb.handed
  {
    var c := Run(NEW_CONN, before);
    RunKeeps(before);
    SendsAll(c.toWeb.queue, choke, 0);
    var mid := before + [WebWritable(choke)];
    assert mid[..|mid| - 1] == before;
    assert c.toWeb.queue[..|c.toWeb.queue|] == c.toWeb.queue;
    assert Run(NEW_CONN, mid).toWeb.handed == c.toWeb.accepted;
    RunAppend(NEW_CONN, mid, after);
    RunGrows(Run(NEW_CONN, mid), after);
  }

  /** The same towards the daemon socket, where the callback never stops early. */
  lemma DeliveredToLocal(before: seq<Event>, after: seq<Event>)
    ensures Run(NEW_CONN, before).toLocal.accepted
         <= Run(NEW_CONN, before + [LocalWritable] + after).toLocal.handed
  {
    var c := Run(NEW_CONN, before);
    RunKeeps(before);
    SendsAll(c.toLocal.queue, _ => false, 0);
    var mid := before + [LocalWritable];
    assert mid[..|mid| - 1] == before;
    assert c.toLocal.queue[..|c.toLocal.queue|] == c.toLocal.queue;
    assert Run(NEW_CONN, mid).toLocal.handed == c.toLocal.accepted;
    RunAppend(NEW_CONN, mid, after);
    RunGrows(Run(NEW_CONN, mid), after);
  }

  /** The messages the events of a run offer in one direction. */
  function Offered(events: seq<Event>, toWeb: bool): seq<Bytes> {
    if events == [] then []
    else
      var e := events[|events| - 1];
      Offered(events[..|events| - 1], toWeb)
      + (if toWeb then (if e.RawRead? && e.size > 0 && e.data != [] then [e.data] else [])
         else (if e.Receive? && e.data != [] then [e.data] else []))
  }

  /** Arrival order: what a lane accepted is what its events offered, in order. */
  lemma {:induction false} AcceptedIsOffered(events: seq<Event>)
    ensures Run(NEW_CONN, events).toWeb.accepted == Offered(events, true)
    ensures Run(NEW_CONN, events).toLocal.accepted == Offered(events, false)
  {
    if events != [] { AcceptedIsOffered(events[..|events| - 1]); }
  }

  // ---------------------------------------------------------------- many connections

  type ConnId = nat
  type World = map<ConnId, Conn>

  /** An event of the service loop: an event of one connection. */
  datatype Call = Call(id: ConnId, event: Event)

  function Dispatch(w: World, call: Call): World {
    if call.id in w then w[call.id := Step(w[call.id], call.event)] else w
  }

  function RunAll(w: World, calls: seq<Call>): World {
    if calls == [] then w else Dispatch(RunAll(w, calls[..|calls| - 1]), calls[|calls| - 1])
  }

  /** The events of one connection in an interleaving. */
  function EventsOf(calls: seq<Call>, id: ConnId): seq<Event> {
    if calls == [] then []
    else EventsOf(calls[..|calls| - 1], id)
         + (if calls[|calls| - 1].id == id then [calls[|calls| - 1].event] else [])
  }

  lemma NoEvents(c: Conn, calls: seq<Call>, id: nat)
    ensures Run(c, EventsOf(calls[..0], id)) == c
  {
  }

  lemma EventsStep(c: Conn, calls: seq<Call>, k: nat, id: nat)
    requires k < |calls|
    ensures Run(c, EventsOf(calls[..k + 1], id))
         == if calls[k].id == id then Step(Run(c, EventsOf(calls[..k], id)), calls[k].event)
            else Run(c, EventsOf(calls[..k], id))
  {
    assert calls[..k + 1][..k] == calls[..k];
    var events := EventsOf(calls[..k + 1], id);
    if calls[k].id != id {
      assert events == EventsOf(calls[..k], id);
    } else {
      assert events == EventsOf(calls[..k], id) + [calls[k].event];
      assert events[..|events| - 1] == EventsOf(calls[..k], id);
    }
  }

  /** Isolation: each connection ends where its own events alone would have taken it. */
  lemma {:induction false} Isolation(w: World, calls: seq<Call>, id: ConnId)
    requires id in w
    ensures RunAll(w, calls).Keys == w.Keys
    ensures RunAll(w, calls)[id] == Run(w[id], EventsOf(calls, id))
  {
    hide Run, Step, EventsOf;
    if calls == [] {
      NoEvents(w[id], calls, id);
      assert calls[..0] == calls;
    } else {
      var k := |calls| - 1;
      Isolation(w, calls[..k], id);
      EventsStep(w[id], calls, k, id);
      assert calls[..k + 1] == calls;
    }
  }

  /** In every reachable state of the whole bridge, every connection is in order and has accepted
      exactly the messages of its own events, in their order. */
  lemma WholeBridge(w: World, calls: seq<Call>, id: ConnId)
    requires forall i | i in w :: w[i] == NEW_CONN
    requires id in w
    ensures id in RunAll(w, calls) && ConnOk(RunAll(w, calls)[id])
    ensures RunAll(w, calls)[id].toWeb.accepted == Offered(EventsOf(calls, id), true)
    ensures RunAll(w, calls)[id].toLocal.accepted == Offered(EventsOf(calls, id), false)
  {
    Isolation(w, calls, id);
    RunKeeps(EventsOf(calls, id));
    AcceptedIsOffered(EventsOf(calls, id));
  }
}
