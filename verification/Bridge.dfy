/** The callbacks of frontend.c over the connection of backend.c, each proved to take the step of
    the bridge model that its event stands for. */
module Bridge {
  import opened MessageQueue
  import opened BridgeModel

  /** The payloads of queued messages: the bytes after the first `pre`. */
  function Payloads(s: seq<Msg>, pre: nat): (r: seq<Bytes>)
    requires Spared(s, pre)
    ensures |r| == |s| && forall i | 0 <= i < |s| :: r[i] == s[i].data[pre..]
  {
    seq(|s|, i requires 0 <= i < |s| => s[i].data[pre..])
  }

  ghost predicate Spared(s: seq<Msg>, pre: nat) {
    forall i | 0 <= i < |s| :: pre <= |s[i].data|
  }

  lemma PayloadsTail(s: seq<Msg>, pre: nat)
    requires s != [] && Spared(s, pre)
    ensures Spared(s[1..], pre) && Payloads(s[1..], pre) == Payloads(s, pre)[1..]
    ensures Payloads(s, pre)[..1] == [s[0].data[pre..]] && Payloads(s, pre)[0] == s[0].data[pre..]
  {
  }

  lemma PayloadsSnoc(s: seq<Msg>, msg: Msg, pre: nat)
    requires Spared(s, pre) && pre <= |msg.data|
    ensures Spared(s + [msg], pre) && Payloads(s + [msg], pre) == Payloads(s, pre) + [msg.data[pre..]]
  {
  }

  /** One websocket session with its connection.  The two flags are the writable callbacks that
      libwebsockets owes the session; the histories record what the callbacks did. */
  class Session {
    const lwsPre: nat
    const mqweb: Queue
    const mqlocal: Queue
    var webPending: bool
    var localPending: bool
    ghost var webAccepted: seq<Bytes>
    ghost var webHanded: seq<Bytes>
    ghost var webLengths: seq<nat>
    ghost var localAccepted: seq<Bytes>
    ghost var localHanded: seq<Bytes>

    ghost predicate WebOk()
      reads this`webHanded, this`webLengths, mqweb, mqweb.contents
    {
      && mqweb.Valid()
      && Spared(mqweb.contents, lwsPre)
      && |webLengths| == |webHanded|
      && (forall i | 0 <= i < |webHanded| :: webLengths[i] == |webHanded[i]| + lwsPre)
    }

    /** The two queues are apart. */
    ghost predicate Apart()
      reads mqweb`contents, mqlocal`contents
    {
      mqweb != mqlocal
      && forall i, j | 0 <= i < |mqweb.contents| && 0 <= j < |mqlocal.contents| ::
           mqweb.contents[i] != mqlocal.contents[j]
    }

    ghost predicate Valid()
      reads this, mqweb, mqlocal, mqweb.contents, mqlocal.contents
    {
      WebOk() && mqlocal.Valid() && Apart()
    }

    ghost function WebLane(): Lane
      requires WebOk()
      reads this`webPending, this`webAccepted, this`webHanded, this`webLengths, mqweb, mqweb.contents
    {
      Lane(Payloads(mqweb.contents, lwsPre), webPending, webAccepted, webHanded)
    }

    ghost function LocalLane(): Lane
      requires mqlocal.Valid()
      reads this`localPending, this`localAccepted, this`localHanded, mqlocal, mqlocal.contents
    {
      Lane(Payloads(mqlocal.contents, 0), localPending, localAccepted, localHanded)
    }

    /** The state of the session as the bridge model sees it. */
    ghost function Abs(): Conn
      requires Valid()
      reads this, mqweb, mqlocal, mqweb.contents, mqlocal.contents
    {
      Conn(WebLane(), LocalLane())
    }

    /** The session, its queues and the messages on them. */
    ghost function Footprint(): set<object>
      reads mqweb, mqlocal
    {
      {this, mqweb, mqlocal} + (set m | m in mqweb.contents) + (set m | m in mqlocal.contents)
    }

    /** A new connection: both queues empty, no callback requested. */
    constructor (lwsPre: nat)
      ensures Valid() && Abs() == NEW_CONN && fresh(Footprint())
      ensures mqweb.contents == mqlocal.contents == [] && !webPending && !localPending
    {
      this.lwsPre := lwsPre;
      mqweb := new Queue();
      mqlocal := new Queue();
      webPending, localPending := false, false;
      webAccepted, webHanded, webLengths, localAccepted, localHanded := [], [], [], [], [];
    }

    /** conn_putmsg_forweb with frontend_createmsg: the payload follows lwsPre spare bytes. */
    method PutForWeb(data: Bytes, spare: Bytes) returns (rc: int)
      requires Valid() && |spare| == lwsPre
      modifies this`webAccepted, mqweb, mqweb.contents
      ensures Valid() && LocalLane() == old(LocalLane())
      ensures WebLane() == Accept(old(WebLane()), data)
      ensures forall i | 0 <= i < |mqweb.contents| ::
                mqweb.contents[i] in old(mqweb.contents) || fresh(mqweb.contents[i])
      ensures rc == if data == [] then -1 else 0
    {
      hide Payloads, Queue.Valid, Spared;
      if |data| == 0 {
        return -1;
      }
      var msg := new Msg(spare + data);
      assert msg.data[lwsPre..] == data;
      PayloadsSnoc(mqweb.contents, msg, lwsPre);
      mqweb.Put(msg);
      webAccepted := webAccepted + [data];
      rc := 0;
    }

    /** conn_putmsg_forlocal. */
    method PutForLocal(data: Bytes) returns (rc: int)
      requires Valid()
      modifies this`localAccepted, mqlocal, mqlocal.contents
      ensures Valid() && WebLane() == old(WebLane())
      ensures LocalLane() == Accept(old(LocalLane()), data)
      ensures forall i | 0 <= i < |mqlocal.contents| ::
                mqlocal.contents[i] in old(mqlocal.contents) || fresh(mqlocal.contents[i])
      ensures rc == if data == [] then -1 else 0
    {
      hide Payloads, Queue.Valid, Spared;
      if |data| == 0 {
        return -1;
      }
      var msg := new Msg(data);
      assert msg.data[0..] == data;
      PayloadsSnoc(mqlocal.contents, msg, 0);
      mqlocal.Put(msg);
      localAccepted := localAccepted + [data];
      rc := 0;
    }

    /** LWS_CALLBACK_RECEIVE: queue the message and ask for a callback either way. */
    method OnReceive(data: Bytes)
      requires Valid()
      modifies this, mqlocal, mqlocal.contents
      ensures Valid() && Abs() == Step(old(Abs()), Receive(data))
      ensures webHanded == old(webHanded) && localHanded == old(localHanded) && localPending
      ensures forall i | 0 <= i < |mqlocal.contents| ::
                mqlocal.contents[i] in old(mqlocal.contents) || fresh(mqlocal.contents[i])
    {
      var rc := PutForLocal(data);
      SetLocalPending(true);
    }

    /** LWS_CALLBACK_RAW_RX_FILE: size and data are what the read returned. */
    method OnRawRead(size: int, data: Bytes, spare: Bytes)
      requires Valid() && |spare| == lwsPre && (size > 0 ==> |data| == size)
      modifies this, mqweb, mqweb.contents
      ensures Valid() && Abs() == Step(old(Abs()), RawRead(size, data))
      ensures webHanded == old(webHanded) && localHanded == old(localHanded) && (size > 0 ==> webPending)
      ensures forall i | 0 <= i < |mqweb.contents| ::
                mqweb.contents[i] in old(mqweb.contents) || fresh(mqweb.contents[i])
    {
      if size > 0 {
        var rc := PutForWeb(data, spare);
        SetWebPending(true);
      }
    }

    /** Take the next message for the daemon socket off its queue and write it. */
    method WriteNextLocal()
      requires Valid() && mqlocal.contents != []
      modifies this`localHanded, mqlocal
      ensures Valid() && WebLane() == old(WebLane())
      ensures LocalLane() == HandOver(old(LocalLane()), 1)
    {
      hide Payloads;
      PayloadsTail(mqlocal.contents, 0);
      var msg := mqlocal.Get();
      assert msg.data[0..] == msg.data;
      localHanded := localHanded + [msg.data];
    }

    /** Take the next message for the websocket off its queue and write it; size is the length
        passed to the write, which counts the spare bytes too. */
    method WriteNextWeb() returns (size: nat)
      requires Valid() && mqweb.contents != []
      modifies this`webHanded, this`webLengths, mqweb
      ensures Valid() && LocalLane() == old(LocalLane())
      ensures WebLane() == HandOver(old(WebLane()), 1)
      ensures forall i | 0 <= i < |mqweb.contents| :: mqweb.contents[i] in old(mqweb.contents)
      ensures size == |old(WebLane()).queue[0]| + lwsPre
    {
      hide Payloads;
      PayloadsTail(mqweb.contents, lwsPre);
      var msg := mqweb.Get();
      webHanded := webHanded + [msg.data[lwsPre..]];
      webLengths := webLengths + [msg.Size()];
      size := msg.Size();
    }

    /** libwebsockets forgets the request when it makes the callback (false); a callback asks for
        another one with lws_callback_on_writable (true). */
    method SetWebPending(pending: bool)
      requires Valid()
      modifies this`webPending
      ensures Valid() && WebLane() == old(WebLane()).(pending := pending) && LocalLane() == old(LocalLane())
    {
      webPending := pending;
    }

    method SetLocalPending(pending: bool)
      requires Valid()
      modifies this`localPending
      ensures Valid() && LocalLane() == old(LocalLane()).(pending := pending) && WebLane() == old(WebLane())
    {
      localPending := pending;
    }

    /** conn_hasmsg_forlocal. */
    predicate HasLocal()
      requires Valid()
      reads this, mqweb, mqlocal, mqweb.contents, mqlocal.contents
      ensures HasLocal() <==> LocalLane().queue != []
      ensures HasLocal() <==> mqlocal.contents != []
    {
      !mqlocal.IsEmpty()
    }

    /** conn_hasmsg_forweb. */
    predicate HasWeb()
      requires Valid()
      reads this, mqweb, mqlocal, mqweb.contents, mqlocal.contents
      ensures HasWeb() <==> WebLane().queue != []
      ensures HasWeb() <==> mqweb.contents != []
    {
      !mqweb.IsEmpty()
    }

    /** LWS_CALLBACK_RAW_WRITEABLE_FILE: write every queued message to the daemon socket. */
    method OnLocalWritable()
      requires Valid()
      modifies this, mqlocal
      ensures Valid() && Abs() == Step(old(Abs()), LocalWritable)
      ensures mqlocal.contents == []
    {
      hide WebOk, Apart, WebLane, LocalLane, Payloads, Queue.Valid, HandOver, Step;
      SetLocalPending(false);
      ghost var lane, k := LocalLane(), 0;
      HandNone(lane);
      while HasLocal()
        invariant Valid() && WebLane() == old(WebLane())
        invariant k <= |lane.queue| && LocalLane() == HandOver(lane, k)
        decreases |lane.queue| - k
      {
        WriteNextLocal();
        HandOneMore(lane, k);
        k := k + 1;
      }
      DrainsAll(WebLane(), old(LocalLane()), lane);
    }

    /** LWS_CALLBACK_SERVER_WRITEABLE: write queued messages to the websocket until the pipe is
        choked, and then ask for another callback.  results are what the writes return. */
    method OnWebWritable(choke: Choke, results: nat -> int) returns (rc: int)
      requires Valid()
      modifies this, mqweb
      ensures Valid() && Abs() == Step(old(Abs()), WebWritable(choke))
      ensures forall i | 0 <= i < |mqweb.contents| :: mqweb.contents[i] in old(mqweb.contents)
      ensures rc == if AnyShort(old(WebLane().queue), results, Sendable(old(WebLane().queue), choke, 0), lwsPre)
                    then -1 else 0
    {
      hide WebOk, Apart, WebLane, LocalLane, Payloads, Queue.Valid, HandOver, AnyShort, Reported;
      rc := 0;
      SetWebPending(false);
      ghost var lane := WebLane();
      var k := 0;
      HandNone(lane);
      ShortNone(lane.queue, results, lwsPre);
      while HasWeb()
        invariant Valid()
        invariant k <= |lane.queue| && WebLane() == HandOver(lane, k)
        invariant k + Sendable(lane.queue[k..], choke, k) == Sendable(lane.queue, choke, 0)
        invariant LocalLane() == old(LocalLane())
        invariant forall i | 0 <= i < |mqweb.contents| :: mqweb.contents[i] in old(mqweb.contents)
        invariant rc == if AnyShort(lane.queue, results, k, lwsPre) then -1 else 0
        decreases |lane.queue| - k
      {
        if choke(k) {
          SetWebPending(true);
          DrainsTo(old(WebLane()), lane, choke, k);
          return;
        }
        var size := WriteNextWeb();
        if Reported(results(k), size) {
          rc := -1;
        }
        HandOneMore(lane, k);
        ShortOneMore(lane.queue, results, k, lwsPre);
        assert lane.queue[k..][1..] == lane.queue[k + 1..];
        k := k + 1;
      }
      DrainsTo(old(WebLane()), lane, choke, k);
    }
  }

  /** A read returns as many bytes as it says. */
  predicate Feasible(e: Event) {
    e.RawRead? && e.size > 0 ==> |e.data| == e.size
  }

  /** The callback of one event. */
  method Handle(s: Session, e: Event, results: nat -> int)
    requires s.Valid() && Feasible(e)
    modifies s.Footprint()
    ensures s.Valid() && s.Abs() == Step(old(s.Abs()), e)
    ensures forall o | o in s.Footprint() :: o in old(s.Footprint()) || fresh(o)
  {
    hide Session.Valid, Session.WebOk, Session.Apart, Session.Abs, Step;
    match e
    case Receive(data) => s.OnReceive(data);
    case RawRead(size, data) => s.OnRawRead(size, data, seq(s.lwsPre, _ => 0));
    case WebWritable(choke) => var rc := s.OnWebWritable(choke, results);
    case LocalWritable => s.OnLocalWritable();
  }

  /** Any run of callbacks takes the session through the run of the bridge model, so what holds in
      every reachable state of the model holds in every reachable state of a session. */
  method Serve(s: Session, events: seq<Event>, results: nat -> int)
    requires s.Valid() && forall i | 0 <= i < |events| :: Feasible(events[i])
    modifies s.Footprint()
    ensures s.Valid() && s.Abs() == Run(old(s.Abs()), events)
    ensures old(s.Abs()) == NEW_CONN ==> ConnOk(s.Abs())
  {
    hide Session.Valid, Session.WebOk, Session.Apart, Session.Abs, Session.Footprint, Step;
    for k := 0 to |events|
      invariant s.Valid() && s.Abs() == Run(old(s.Abs()), events[..k])
      invariant forall o | o in s.Footprint() :: o in old(s.Footprint()) || fresh(o)
    {
      Handle(s, events[k], results);
      assert events[..k + 1][..k] == events[..k];
    }
    assert events[..|events|] == events;
    RunKeeps(events);
  }

  // ---------------------------------------------------------------- several live sessions

  /** The queues of a set of sessions, which every frame below reads. */
  ghost function QueuesOf(ss: seq<Session>): set<object> {
    (set i | 0 <= i < |ss| :: ss[i].mqweb as object) + (set i | 0 <= i < |ss| :: ss[i].mqlocal as object)
  }

  /** No two sessions share a queue or a message. */
  ghost predicate Separate(ss: seq<Session>)
    reads QueuesOf(ss)
  {
    forall i, j | 0 <= i < j < |ss| :: ss[i].Footprint() !! ss[j].Footprint()
  }

  ghost function AllFootprints(ss: seq<Session>): set<object>
    reads QueuesOf(ss)
  {
    set i, o | 0 <= i < |ss| && o in ss[i].Footprint() :: o
  }

  lemma SameWorld(w: World, w': World, calls: seq<Call>)
    requires w.Keys == w'.Keys && forall id | id in w :: w'[id] == Run(w[id], EventsOf(calls, id))
    ensures w' == RunAll(w, calls)
  {
    forall id | id in w ensures id in RunAll(w, calls) && RunAll(w, calls)[id] == w'[id] {
      Isolation(w, calls, id);
    }
    if w.Keys == {} {
      NoConnections(w, calls);
    } else {
      var id :| id in w;
      Isolation(w, calls, id);
    }
  }

  lemma {:induction false} NoConnections(w: World, calls: seq<Call>)
    requires w.Keys == {}
    ensures RunAll(w, calls) == w
  {
    if calls != [] { NoConnections(w, calls[..|calls| - 1]); }
  }

  /** One event among live sessions: the others do not notice. */
  method HandleIn(ss: seq<Session>, id: nat, e: Event, results: nat -> int)
    requires id < |ss| && Feasible(e) && Separate(ss)
    requires forall i | 0 <= i < |ss| :: ss[i].Valid()
    modifies ss[id].Footprint()
    ensures forall i | 0 <= i < |ss| :: ss[i].Valid()
    ensures forall i | 0 <= i < |ss| :: ss[i].Abs() == if i == id then Step(old(ss[i].Abs()), e) else old(ss[i].Abs())
    ensures forall i, o | 0 <= i < |ss| && o in ss[i].Footprint() :: o in old(ss[i].Footprint()) || fresh(o)
    ensures Separate(ss)
  {
    hide Session.WebOk, Session.Apart, Session.WebLane, Session.LocalLane, Session.Valid, Session.Abs, Step;
    Handle(ss[id], e, results);
    forall i | 0 <= i < |ss| && i != id
      ensures ss[i].Valid() && ss[i].Abs() == old(ss[i].Abs()) && ss[i].Footprint() == old(ss[i].Footprint())
    {
      assert old(ss[i].Footprint()) !! old(ss[id].Footprint());
    }
  }

  /** In both directions the connection accepted exactly what its own events offered, in order. */
  ghost predicate AcceptedOwn(c: Conn, events: seq<Event>) {
    c.toWeb.accepted == Offered(events, true) && c.toLocal.accepted == Offered(events, false)
  }

  lemma OwnMessages(events: seq<Event>)
    ensures AcceptedOwn(Run(NEW_CONN, events), events)
  {
    AcceptedIsOffered(events);
  }

  /** The service loop over live sessions: any interleaving of their callbacks takes them through the
      run of the whole bridge, each session through the run of its own events, and they stay apart. */
  method ServeAll(ss: seq<Session>, calls: seq<Call>, results: nat -> int)
    returns (ghost before: World, ghost after: World)
    requires Separate(ss) && forall i | 0 <= i < |ss| :: ss[i].Valid()
    requires forall k | 0 <= k < |calls| :: calls[k].id < |ss| && Feasible(calls[k].event)
    modifies AllFootprints(ss)
    ensures Separate(ss) && forall i | 0 <= i < |ss| :: ss[i].Valid()
    ensures forall i | 0 <= i < |ss| :: ss[i].Abs() == Run(old(ss[i].Abs()), EventsOf(calls, i))
    ensures before.Keys == after.Keys && forall i :: i in before <==> 0 <= i < |ss|
    ensures forall i | 0 <= i < |ss| :: before[i] == old(ss[i].Abs()) && after[i] == ss[i].Abs()
    ensures after == RunAll(before, calls)
    ensures forall i | 0 <= i < |ss| && old(ss[i].Abs()) == NEW_CONN ::
              ConnOk(ss[i].Abs()) && AcceptedOwn(ss[i].Abs(), EventsOf(calls, i))
  {
    hide Session.Valid, Session.WebOk, Session.Apart, Session.Abs, Session.Footprint, Separate, Run, Step, EventsOf,
         ConnOk, AcceptedOwn, RunAll;
    before := map i: nat | i < |ss| :: ss[i].Abs();
    forall i | 0 <= i < |ss| ensures Run(old(ss[i].Abs()), EventsOf(calls[..0], i)) == old(ss[i].Abs()) {
      NoEvents(old(ss[i].Abs()), calls, i);
    }
    for k := 0 to |calls|
      invariant Separate(ss) && forall i | 0 <= i < |ss| :: ss[i].Valid()
      invariant forall i | 0 <= i < |ss| :: ss[i].Abs() == Run(old(ss[i].Abs()), EventsOf(calls[..k], i))
      invariant forall i, o | 0 <= i < |ss| && o in ss[i].Footprint() :: o in old(ss[i].Footprint()) || fresh(o)
    {
      HandleIn(ss, calls[k].id, calls[k].event, results);
      forall i | 0 <= i < |ss| ensures ss[i].Abs() == Run(old(ss[i].Abs()), EventsOf(calls[..k + 1], i)) {
        EventsStep(old(ss[i].Abs()), calls, k, i);
      }
    }
    assert calls[..|calls|] == calls;
    after := map i: nat | i < |ss| :: ss[i].Abs();
    SameWorld(before, after, calls);
    forall i | 0 <= i < |ss| && old(ss[i].Abs()) == NEW_CONN
      ensures ConnOk(ss[i].Abs()) && AcceptedOwn(ss[i].Abs(), EventsOf(calls, i))
    {
      RunKeeps(EventsOf(calls, i));
      OwnMessages(EventsOf(calls, i));
    }
  }

  lemma HandNone(lane: Lane)
    ensures HandOver(lane, 0) == lane
  {
    assert lane.handed + lane.queue[..0] == lane.handed;
  }

  /** The local writable step empties its lane. */
  lemma DrainsAll(web: Lane, before: Lane, lane: Lane)
    requires lane == before.(pending := false)
    ensures Step(Conn(web, before), LocalWritable) == Conn(web, HandOver(lane, |lane.queue|))
  {
    SendsAll(before.queue, _ => false, 0);
  }

  lemma DrainsTo(before: Lane, lane: Lane, choke: Choke, k: nat)
    requires lane == before.(pending := false) && k == Sendable(lane.queue, choke, 0)
    ensures Drain(before, choke) == HandOver(lane, k).(pending := k < |lane.queue|)
  {
  }

  /** The test on the result of a write.  The code compares it with an unsigned size, so a negative
      result counts as a huge one. */
  predicate Reported(result: int, size: nat) {
    0 <= result < size
  }

  /** One of the first n writes is reported. */
  predicate AnyShort(queue: seq<Bytes>, results: nat -> int, n: nat, lwsPre: nat)
    requires n <= |queue|
  {
    exists i | 0 <= i < n :: Reported(results(i), |queue[i]| + lwsPre)
  }

  lemma ShortNone(queue: seq<Bytes>, results: nat -> int, lwsPre: nat)
    ensures !AnyShort(queue, results, 0, lwsPre)
  {
  }

  lemma ShortOneMore(queue: seq<Bytes>, results: nat -> int, k: nat, lwsPre: nat)
    requires k < |queue|
    ensures AnyShort(queue, results, k + 1, lwsPre)
       <==> AnyShort(queue, results, k, lwsPre) || Reported(results(k), |queue[k]| + lwsPre)
  {
  }

  /** What the report is for: some write returned less than the length it was given. */
  predicate AnyLess(queue: seq<Bytes>, results: nat -> int, n: nat, lwsPre: nat)
    requires n <= |queue|
  {
    exists i | 0 <= i < n :: results(i) < |queue[i]| + lwsPre
  }

  /** The test on one write is right exactly when the write did not fail outright.  Over a callback
      the report is right exactly when no write failed outright or some write came back short. */
  lemma ReportIsExact(queue: seq<Bytes>, results: nat -> int, n: nat, lwsPre: nat)
    requires n <= |queue|
    ensures forall i | 0 <= i < n ::
              (Reported(results(i), |queue[i]| + lwsPre) <==> results(i) < |queue[i]| + lwsPre) <==> results(i) >= 0
    ensures (AnyShort(queue, results, n, lwsPre) <==> AnyLess(queue, results, n, lwsPre))
       <==> (|| (forall i | 0 <= i < n :: results(i) >= 0)
             || (exists i | 0 <= i < n :: 0 <= results(i) < |queue[i]| + lwsPre))
  {
    if i :| 0 <= i < n && results(i) < 0 {
      assert results(i) < |queue[i]| + lwsPre;
      if j :| 0 <= j < n && 0 <= results(j) < |queue[j]| + lwsPre {
        assert Reported(results(j), |queue[j]| + lwsPre);
      }
    }
  }

  /** A callback all of whose writes fail with -1 reports nothing, although it wrote something. */
  method FailedWriteUnreported(s: Session, choke: Choke) returns (rc: int)
    requires s.Valid() && s.WebLane().queue != [] && !choke(0)
    modifies s, s.mqweb
    ensures s.Valid() && rc == 0
    ensures AnyLess(old(s.WebLane().queue), _ => -1, Sendable(old(s.WebLane().queue), choke, 0), s.lwsPre)
    ensures |s.WebLane().handed| > |old(s.WebLane().handed)|
  {
    hide Session.WebOk, Session.Apart, Session.WebLane, Session.LocalLane, Payloads;
    var fails: nat -> int := _ => -1;
    ghost var queue := s.WebLane().queue;
    assert fails(0) < |queue[0]| + s.lwsPre;
    rc := s.OnWebWritable(choke, fails);
  }
}
