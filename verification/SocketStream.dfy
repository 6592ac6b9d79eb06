/** The socket layer as a value: what each operation of `WiFiSocketBuffer.c` and
  * `WiFiClient.c` does to the buffered bytes and to the slave's script, and what
  * that means for the byte stream of a socket over every run. */
module SocketStream {
  import opened Wire
  import opened Receiver
  import opened SpiDrv
  import opened ServerDrv

  const WIFI_MAX_SOCK_NUM: nat := 10
  const NO_SOCKET_AVAIL: uint8 := 255

  // enum wl_tcp_state
  const CLOSED := 0
  const LISTEN := 1
  const SYN_SENT := 2
  const SYN_RCVD := 3
  const ESTABLISHED := 4
  const FIN_WAIT_1 := 5
  const FIN_WAIT_2 := 6
  const CLOSE_WAIT := 7
  const CLOSING := 8
  const LAST_ACK := 9
  const TIME_WAIT := 10

  type Socket = s: nat | s < WIFI_MAX_SOCK_NUM

  type Views = v: seq<Bytes> | |v| == WIFI_MAX_SOCK_NUM witness seq(WIFI_MAX_SOCK_NUM, _ => [])

  /** `views[s]` holds the bytes buffered for socket `s`, `line` the bursts the
    * slave has still to clock out, `sent` every transfer clocked out so far. */
  datatype State = State(line: seq<Bytes>, views: Views, sent: seq<Bytes>)

  // ---------- The operations ----------

  datatype Op =
    | Available(s: Socket)
    | Peek(s: Socket)
    | Read(s: Socket, length: nat)
    | ReadChar(s: Socket)
    | Connected(s: Socket)

  /** A refill exchange for socket `s` that brought `got`. */
  function Exchanged(st: State, s: Socket, got: Bytes): State {
    State(Drop(st.line, 2), st.views[s := got], st.sent + [DataRequest(s, WIFI_SOCKET_BUFFER_SIZE), Zeros(255)])
  }

  /** A status exchange about socket `s`. */
  function Polled(st: State, s: Socket): State {
    st.(line := Drop(st.line, 2), sent := st.sent + [StateRequest(s), Zeros(16)])
  }

  /** A refill happens only when nothing is buffered; it takes two bursts. */
  function Refilled(policy: LengthPolicy, st: State, s: Socket, content: Bytes): State {
    if st.views[s] != [] then st
    else Exchanged(st, s, Exposed(policy, Burst(st.line, 1, 255), content))
  }

  /** The refill with the length written back: no stale content shows. */
  function AfterAvailable(st: State, s: Socket): State {
    if st.views[s] != [] then st
    else Exchanged(st, s, Fetched(Burst(st.line, 1, 255)))
  }

  lemma RefilledWithWriteBack(st: State, s: Socket, content: Bytes)
    requires |content| == WIFI_SOCKET_BUFFER_SIZE
    ensures Refilled(WriteBack, st, s, content) == AfterAvailable(st, s)
  {
    WriteBackExposesFetched(Burst(st.line, 1, 255), content);
  }

  /** The status byte for which `WiFiClient_connected` answers yes. */
  predicate Alive(status: uint8) {
    !(|| status == LISTEN || status == CLOSED || status == FIN_WAIT_1 || status == FIN_WAIT_2
      || status == TIME_WAIT || status == SYN_SENT || status == SYN_RCVD || status == CLOSE_WAIT)
  }

  /** `uint8 s = WiFiClient_status(sock)`: WL_FAILURE becomes 255. */
  function StatusOf(f: Bytes): uint8 {
    ClientState(f) % 0x100
  }

  /** An operation's outcome: the new state, the value returned and the bytes
    * handed to the caller. */
  datatype Outcome = Outcome(st: State, result: int, out: Bytes)

  /** The operation once its socket's buffer has been looked at. */
  function Served(a: State, op: Op): Outcome {
    var v := a.views[op.s];
    match op
    case Available(s) => Outcome(a, |v|, [])
    case Peek(s) => Outcome(a, if v == [] then -1 else v[0], [])
    case Read(s, length) =>
      Outcome(a.(views := a.views[s := Drop(v, length)]), |Take(v, length)|, Take(v, length))
    case ReadChar(s) =>
      if v == [] then Outcome(a, -1, []) else Outcome(a.(views := a.views[s := v[1..]]), v[0], [v[0]])
    case Connected(s) =>
      if v != [] then Outcome(a, 1, [])
      else if Alive(StatusOf(Burst(a.line, 1, 16))) then Outcome(Polled(a, s), 1, [])
      else Outcome(Polled(a, s).(views := a.views[s := []]), 0, [])
  }

  /** A read hands out as much as there is, if less than asked for. */
  lemma ServedRead(a: State, s: Socket, length: nat)
    ensures var v := a.views[s];
            var n := Min(|v|, length);
            Served(a, Read(s, length)) == Outcome(a.(views := a.views[s := v[n..]]), n, v[..n])
    ensures a.views[s] == [] ==> Served(a, Read(s, length)) == Outcome(a, 0, [])
  {
    hide Burst, StatusOf, Alive;
    var v := a.views[s];
    assert v[..|v|] == v && v[|v|..] == [];
    assert a.views[s := v] == a.views;
  }

  function Step(st: State, op: Op): (o: Outcome)
    ensures st.views[op.s] == [] ==>
              |o.st.sent| > |st.sent| && o.st.sent[|st.sent|] == DataRequest(op.s, WIFI_SOCKET_BUFFER_SIZE)
  {
    Served(AfterAvailable(st, op.s), op)
  }

  // ---------- What the callers are told, and what goes out ----------

  /** What is buffered for the socket is all that any operation tells of: how much
    * there is, the first byte, the bytes taken; -1 stands for nothing, never for a
    * byte. `a` is the state after the refill, under either length policy. */
  lemma AvailableCounts(a: State, s: Socket)
    ensures Served(a, Available(s)) == Outcome(a, |a.views[s]|, [])
  {
  }

  lemma PeekShowsFirst(a: State, s: Socket)
    ensures var o := Served(a, Peek(s));
            && o.st == a && o.out == []
            && (o.result == -1 <==> a.views[s] == [])
            && (o.result != -1 ==> [o.result] == a.views[s][..1])
  {
  }

  lemma ReadCharReturnsTaken(a: State, s: Socket)
    ensures var o := Served(a, ReadChar(s));
            && (o.result == -1 <==> a.views[s] == [])
            && o.out == (if o.result == -1 then [] else [o.result])
            && o.out + o.st.views[s] == a.views[s]
  {
  }

  lemma ReadCountsTaken(a: State, s: Socket, length: nat)
    ensures var o := Served(a, Read(s, length));
            && o.result == |o.out| <= length
            && o.out + o.st.views[s] == a.views[s]
            && (|o.out| < length ==> o.st.views[s] == [])
  {
    hide Burst, StatusOf, Alive;
    ServedRead(a, s, length);
  }

  /** The same said of a step: what it returns, in terms of what was readable. */
  lemma StepReturns(st: State, op: Op)
    ensures var o := Step(st, op);
            var readable := AfterAvailable(st, op.s).views[op.s];
            match op
            case Available(_) => o.result == |readable|
            case Peek(_) => o.result == if readable == [] then -1 else readable[0]
            case Read(_, length) => o.result == |o.out| == Min(|readable|, length)
            case ReadChar(_) =>
              && (o.result == -1 <==> readable == [])
              && o.out == (if o.result == -1 then [] else [o.result])
            case Connected(s) => o.result == 1 <==>
              || readable != []
              || !Parse(Len8, GET_CLIENT_STATE_TCP_CMD, Burst(AfterAvailable(st, s).line, 1, 16), [1]).accepted
  {
    var a := AfterAvailable(st, op.s);
    hide AfterAvailable, Parse, ClientState, Burst;
    match op
    case Available(s) => AvailableCounts(a, s);
    case Peek(s) => PeekShowsFirst(a, s);
    case Read(s, length) => ServedRead(a, s, length);
    case ReadChar(s) => ReadCharReturnsTaken(a, s);
    case Connected(s) => StateIsAcceptance(Burst(a.line, 1, 16));
  }

  /** A refill and a state query on the wire, with the zeros that clock the answer. */
  function RefillBytes(s: Socket): seq<Bytes> {
    [[0xE0, 0x45, 2, 0, 1, s as uint8, 0, 2, 0xFF, 0, 0, 0xEE], Zeros(255)]
  }

  function QueryBytes(s: Socket): seq<Bytes> {
    [[0xE0, 0x2F, 1, 1, s as uint8, 0, 0, 0xEE], Zeros(16)]
  }

  lemma RefillSends(st: State, s: Socket)
    ensures var a := AfterAvailable(st, s);
            && a.sent == st.sent + (if st.views[s] != [] then [] else RefillBytes(s))
            && a.line == (if st.views[s] != [] then st.line else Drop(st.line, 2))
  {
    hide DataRequest, Fetched, Burst, Drop, Zeros;
    DataRequestBytes(s, WIFI_SOCKET_BUFFER_SIZE);
  }

  lemma ServedSends(a: State, op: Op)
    ensures var n := Served(a, op).st;
            var asks := op.Connected? && a.views[op.s] == [];
            && n.sent == a.sent + (if asks then QueryBytes(op.s) else [])
            && n.line == (if asks then Drop(a.line, 2) else a.line)
  {
    hide StateRequest, StatusOf, Alive, Burst, Drop, Take, Zeros;
    StateRequestBytes(op.s);
  }

  /** What a step clocks out: the refill if nothing was buffered, the state query if
    * the refill brought nothing either, both about its own socket; and for each
    * transfer one of the slave's bursts is used. */
  lemma StepSends(st: State, op: Op)
    ensures var a, n := AfterAvailable(st, op.s), Step(st, op).st;
            && n.sent == st.sent + (if st.views[op.s] != [] then [] else RefillBytes(op.s))
                         + (if op.Connected? && a.views[op.s] == [] then QueryBytes(op.s) else [])
            && n.line == Drop(st.line, |n.sent| - |st.sent|)
  {
    var a := AfterAvailable(st, op.s);
    RefillSends(st, op.s);
    ServedSends(a, op);
    BurstLater(st.line, 2, 2, 0);
    DropNone(st.line);
    assert |RefillBytes(op.s)| == |QueryBytes(op.s)| == 2;
    hide AfterAvailable, Served, Drop, Burst, RefillBytes, QueryBytes;
  }

  lemma DropNone<T>(f: seq<T>)
    ensures Drop(f, 0) == f
  {
  }

  // ---------- Runs ----------

  function Run(st: State, ops: seq<Op>): State
    decreases ops
  {
    if ops == [] then st else Run(Step(st, ops[0]).st, ops[1..])
  }

  /** Everything handed to the callers that asked for socket `s`. */
  function Delivered(st: State, ops: seq<Op>, s: Socket): Bytes
    decreases ops
  {
    if ops == [] then []
    else
      var o := Step(st, ops[0]);
      (if ops[0].s == s then o.out else []) + Delivered(o.st, ops[1..], s)
  }

  /** Everything the slave's accepted replies brought in for socket `s`. */
  function Received(st: State, ops: seq<Op>, s: Socket): Bytes
    decreases ops
  {
    if ops == [] then []
    else
      (if ops[0].s == s && st.views[s] == [] then Fetched(Burst(st.line, 1, 255)) else [])
      + Received(Step(st, ops[0]).st, ops[1..], s)
  }

  /** Serving hands out the front of what the socket's buffer holds. */
  lemma ServedConserves(a: State, op: Op, s: Socket)
    ensures var o := Served(a, op);
            a.views[s] == (if op.s == s then o.out else []) + o.st.views[s]
  {
    hide StatusOf, Alive, Burst, StateRequest;
  }

  /** Transfers and bursts keep step through every run, and the log only grows. */
  lemma {:induction false} RunKeepsStep(st: State, ops: seq<Op>)
    ensures var n := Run(st, ops);
            st.sent <= n.sent && n.line == Drop(st.line, |n.sent| - |st.sent|)
    decreases ops
  {
    hide Step;
    if ops != [] {
      var o := Step(st, ops[0]);
      StepSends(st, ops[0]);
      RunKeepsStep(o.st, ops[1..]);
      BurstLater(st.line, |o.st.sent| - |st.sent|, |Run(o.st, ops[1..]).sent| - |o.st.sent|, 0);
    }
  }

  lemma StepConserves(st: State, op: Op, s: Socket)
    ensures var o := Step(st, op);
            st.views[s] + (if op.s == s && st.views[s] == [] then Fetched(Burst(st.line, 1, 255)) else []) ==
            (if op.s == s then o.out else []) + o.st.views[s]
  {
    hide Fetched, Burst, Served;
    ServedConserves(AfterAvailable(st, op.s), op, s);
  }

  /** No byte is lost, duplicated or reordered, on any socket, in any run of these
    * operations, closing by `Connected` included. */
  lemma {:induction false} Conservation(st: State, ops: seq<Op>, s: Socket)
    ensures st.views[s] + Received(st, ops, s) == Delivered(st, ops, s) + Run(st, ops).views[s]
    decreases ops
  {
    if ops != [] {
      var o := Step(st, ops[0]);
      var i := if ops[0].s == s && st.views[s] == [] then Fetched(Burst(st.line, 1, 255)) else [];
      var d := if ops[0].s == s then o.out else [];
      StepConserves(st, ops[0], s);
      Conservation(o.st, ops[1..], s);
      Weave(st.views[s], i, d, o.st.views[s], Received(o.st, ops[1..], s),
            Delivered(o.st, ops[1..], s), Run(o.st, ops[1..]).views[s]);
    }
  }

  lemma Weave(v: Bytes, i: Bytes, d: Bytes, v1: Bytes, i1: Bytes, d1: Bytes, v2: Bytes)
    requires v + i == d + v1 && v1 + i1 == d1 + v2
    ensures v + (i + i1) == d + d1 + v2
  {
    calc {
      v + (i + i1);
      (v + i) + i1;
      d + (v1 + i1);
      d + d1 + v2;
    }
  }

  /** An operation on one socket leaves the view of every other alone. */
  lemma Isolation(st: State, op: Op, t: Socket)
    requires t != op.s
    ensures Step(st, op).st.views[t] == st.views[t]
  {
    hide Fetched, Burst, Drop, Take, DataRequest, StateRequest, Alive, StatusOf;
  }

  // ---------- One socket reading alone ----------

  /** Reading, peeking and asking on one socket: every exchange is a refill. */
  predicate Reading(ops: seq<Op>, s: Socket) {
    forall op | op in ops :: op.s == s && !op.Connected?
  }

  /** All the bytes the script still holds for a reader. */
  function Stream(line: seq<Bytes>): Bytes
    decreases |line|
  {
    if line == [] then [] else Fetched(Burst(line, 1, 255)) + Stream(Drop(line, 2))
  }

  /** What a reader of socket `s` can still get. */
  function Pending(st: State, s: Socket): Bytes {
    st.views[s] + Stream(st.line)
  }

  lemma NothingFetched()
    ensures Fetched([]) == []
  {
    AcceptedIsReal(Len16, GET_DATABUF_TCP_CMD, [], [], [WIFI_SOCKET_BUFFER_SIZE]);
  }

  lemma BurstOfNothing()
    ensures Burst([], 1, 255) == []
  {
  }

  lemma PendingRefilled(st: State, s: Socket)
    ensures Pending(st, s) == Pending(AfterAvailable(st, s), s)
  {
    hide Fetched, Burst, DataRequest;
    if st.views[s] == [] && st.line == [] {
      assert Burst([], 1, 255) == [] by { BurstOfNothing(); }
      NothingFetched();
    }
  }

  lemma ServedWithoutQuery(a: State, op: Op)
    requires !op.Connected?
    ensures Served(a, op).st.line == a.line
  {
  }

  lemma ReadingStep(st: State, op: Op, s: Socket)
    requires op.s == s && !op.Connected?
    ensures Pending(st, s) == Step(st, op).out + Pending(Step(st, op).st, s)
  {
    PendingRefilled(st, s);
    hide AfterAvailable, Served, Stream;
    ServedConserves(AfterAvailable(st, s), op, s);
    ServedWithoutQuery(AfterAvailable(st, s), op);
  }

  /** A run of reads delivers the front of what was pending, and leaves the rest
    * pending. */
  lemma {:induction false} ReadingRun(st: State, ops: seq<Op>, s: Socket)
    requires Reading(ops, s)
    ensures Delivered(st, ops, s) + Pending(Run(st, ops), s) == Pending(st, s)
    decreases ops
  {
    hide Step, Pending;
    if ops != [] {
      var o := Step(st, ops[0]);
      ReadingStep(st, ops[0], s);
      ReadingRun(o.st, ops[1..], s);
    }
  }

  /** Two schedules that take the same number of bytes deliver the same bytes. */
  lemma ReadSizeIndependence(st: State, ops1: seq<Op>, ops2: seq<Op>, s: Socket)
    requires Reading(ops1, s)
    requires Reading(ops2, s)
    requires |Delivered(st, ops1, s)| == |Delivered(st, ops2, s)|
    ensures Delivered(st, ops1, s) == Delivered(st, ops2, s)
  {
    ReadingRun(st, ops1, s);
    ReadingRun(st, ops2, s);
    var d1, d2 := Delivered(st, ops1, s), Delivered(st, ops2, s);
    assert d1 == Pending(st, s)[..|d1|] == d2;
  }

  /** A peeked byte is the first byte the reader gets next, however it reads. */
  lemma PeekForetells(st: State, ops: seq<Op>, s: Socket)
    requires Reading(ops, s)
    ensures var o := Step(st, Peek(s));
            o.result >= 0 && Delivered(o.st, ops, s) != [] ==> Delivered(o.st, ops, s)[0] == o.result
  {
    var o := Step(st, Peek(s));
    ReadingRun(o.st, ops, s);
    if o.result >= 0 && Delivered(o.st, ops, s) != [] {
      assert Delivered(o.st, ops, s)[0] == (Delivered(o.st, ops, s) + Pending(Run(o.st, ops), s))[0];
    }
  }

  // ---------- End to end ----------

  /** The burst carries a GET_DATABUF reply of `chunk` after some silence, within
    * one transfer. */
  ghost predicate Carries(burst: Bytes, chunk: Bytes) {
    exists idle: Bytes ::
      && Silent(idle) && |idle| + 6 + |chunk| <= WIFI_SOCKET_BUFFER_SIZE
      && Holds(burst, 0, idle) && Holds(burst, |idle|, ReplyFrame(Len16, GET_DATABUF_TCP_CMD, [chunk]))
  }

  /** Silence, the frame byte by byte, then anything: such a burst carries the chunk. */
  lemma FrameCarries(idle: Bytes, chunk: Bytes, rest: Bytes)
    requires Silent(idle) && |idle| + 6 + |chunk| <= WIFI_SOCKET_BUFFER_SIZE
    ensures Carries(idle + ([0xE0, 0xC5, 1, |chunk| / 0x100, |chunk| % 0x100] + chunk + [0xEE]) + rest, chunk)
  {
    var e := ReplyFrame(Len16, GET_DATABUF_TCP_CMD, [chunk]);
    var f := idle + e + rest;
    DataReplyBytes(chunk);
    hide Silent, ReplyFrame;
    assert Holds(f, 0, idle) && Holds(f, |idle|, e);
  }

  /** A refill of a run: the frame that asked and what the slave clocked out. */
  datatype Refill = Refill(request: Bytes, burst: Bytes)

  function Refills(st: State, ops: seq<Op>): seq<Refill>
    decreases ops
  {
    if ops == [] then []
    else
      var next := Step(st, ops[0]).st;
      (if st.views[ops[0].s] != [] then []
       else [Refill(next.sent[|st.sent|], if |st.line| > 1 then st.line[1] else [])])
      + Refills(next, ops[1..])
  }

  /** The chunks sent in answer to frames that name socket `s`, in order. */
  function Share(refills: seq<Refill>, chunks: seq<Bytes>, s: Socket): Bytes
    requires |refills| == |chunks|
    decreases refills
  {
    if refills == [] then []
    else (if SocketIn(refills[0].request) == Some(s) then chunks[0] else []) + Share(refills[1..], chunks[1..], s)
  }

  lemma CarriesSomething(chunk: Bytes)
    ensures !Carries([], chunk)
  {
  }

  lemma FetchedOfCarried(line: seq<Bytes>, chunk: Bytes)
    requires |line| > 1 && Carries(line[1], chunk)
    ensures Fetched(Burst(line, 1, 255)) == chunk
  {
    hide Fetched;
    var idle: Bytes :|
      && Silent(idle) && |idle| + 6 + |chunk| <= WIFI_SOCKET_BUFFER_SIZE
      && Holds(line[1], 0, idle) && Holds(line[1], |idle|, ReplyFrame(Len16, GET_DATABUF_TCP_CMD, [chunk]));
    FetchedOfFramed(idle, chunk, line[1]);
  }

  lemma {:induction false} ReceivedIsShare(st: State, ops: seq<Op>, chunks: seq<Bytes>, s: Socket)
    requires |Refills(st, ops)| == |chunks|
    requires forall k | 0 <= k < |chunks| :: Carries(Refills(st, ops)[k].burst, chunks[k])
    ensures Received(st, ops, s) == Share(Refills(st, ops), chunks, s)
    decreases ops
  {
    hide Fetched, Step, Carries, DataRequest, SocketIn;
    if ops != [] {
      var rs, o := Refills(st, ops), Step(st, ops[0]);
      if st.views[ops[0].s] == [] {
        assert rs[1..] == Refills(o.st, ops[1..]);
        assert Carries(rs[0].burst, chunks[0]);
        CarriesSomething(chunks[0]);
        RequestNamesSocket(ops[0].s, WIFI_SOCKET_BUFFER_SIZE);
        FetchedOfCarried(st.line, chunks[0]);
        assert forall k | 0 <= k < |chunks[1..]| :: rs[1..][k] == rs[k + 1];
        ReceivedIsShare(o.st, ops[1..], chunks[1..], s);
      } else {
        assert rs == Refills(o.st, ops[1..]);
        ReceivedIsShare(o.st, ops[1..], chunks, s);
      }
    }
  }

  /** End to end: when every refill of a run is a framed reply, then for every
    * socket the bytes delivered followed by the bytes still buffered are those
    * buffered at first and then the chunks the slave sent in answer to frames that
    * name this socket, in order, whatever else the run did. */
  lemma EndToEnd(st: State, ops: seq<Op>, chunks: seq<Bytes>, s: Socket)
    requires |Refills(st, ops)| == |chunks|
    requires forall k | 0 <= k < |chunks| :: Carries(Refills(st, ops)[k].burst, chunks[k])
    ensures Delivered(st, ops, s) + Run(st, ops).views[s] == st.views[s] + Share(Refills(st, ops), chunks, s)
  {
    Conservation(st, ops, s);
    ReceivedIsShare(st, ops, chunks, s);
  }

  // ---------- Either length policy ----------

  /** An operation, and what its socket's storage held should it need a refill. */
  datatype Act = Act(op: Op, stale: Bytes)

  function StepWith(policy: LengthPolicy, st: State, a: Act): Outcome {
    Served(Refilled(policy, st, a.op.s, a.stale), a.op)
  }

  lemma StepWithWriteBack(st: State, a: Act)
    requires |a.stale| == WIFI_SOCKET_BUFFER_SIZE
    ensures StepWith(WriteBack, st, a) == Step(st, a.op)
  {
    hide Refilled, AfterAvailable, Served;
    RefilledWithWriteBack(st, a.op.s, a.stale);
  }

  function RunWith(policy: LengthPolicy, st: State, acts: seq<Act>): State
    decreases acts
  {
    if acts == [] then st else RunWith(policy, StepWith(policy, st, acts[0]).st, acts[1..])
  }

  function DeliveredWith(policy: LengthPolicy, st: State, acts: seq<Act>, s: Socket): Bytes
    decreases acts
  {
    if acts == [] then []
    else
      var o := StepWith(policy, st, acts[0]);
      (if acts[0].op.s == s then o.out else []) + DeliveredWith(policy, o.st, acts[1..], s)
  }

  /** The refills of socket `s` in a run: what the slave clocked out for each, and
    * what the storage held before. */
  datatype Filling = Filling(burst: Bytes, stale: Bytes)

  function Fillings(policy: LengthPolicy, st: State, acts: seq<Act>, s: Socket): seq<Filling>
    decreases acts
  {
    if acts == [] then []
    else
      (if acts[0].op.s == s && st.views[s] == [] then [Filling(Burst(st.line, 1, 255), acts[0].stale)] else [])
      + Fillings(policy, StepWith(policy, st, acts[0]).st, acts[1..], s)
  }

  /** What the refills make readable, and what they brought. */
  function AllExposed(policy: LengthPolicy, fs: seq<Filling>): Bytes {
    if fs == [] then [] else Exposed(policy, fs[0].burst, fs[0].stale) + AllExposed(policy, fs[1..])
  }

  function AllFetched(fs: seq<Filling>): Bytes {
    if fs == [] then [] else Fetched(fs[0].burst) + AllFetched(fs[1..])
  }

  predicate FullSized(acts: seq<Act>) {
    forall a | a in acts :: |a.stale| == WIFI_SOCKET_BUFFER_SIZE
  }

  function Ops(acts: seq<Act>): (ops: seq<Op>)
    ensures |ops| == |acts| && forall i | 0 <= i < |ops| :: ops[i] == acts[i].op
  {
    seq(|acts|, i requires 0 <= i < |acts| => acts[i].op)
  }

  /** With the write-back the old storage makes no difference. */
  lemma {:induction false} RunWithWriteBack(st: State, acts: seq<Act>)
    requires FullSized(acts)
    ensures RunWith(WriteBack, st, acts) == Run(st, Ops(acts))
    decreases acts
  {
    hide StepWith, Step;
    if acts != [] {
      assert Ops(acts)[1..] == Ops(acts[1..]);
      StepWithWriteBack(st, acts[0]);
      RunWithWriteBack(StepWith(WriteBack, st, acts[0]).st, acts[1..]);
    }
  }

  lemma ExposedFirst(policy: LengthPolicy, f: Filling, fs: seq<Filling>)
    ensures AllExposed(policy, [f] + fs) == Exposed(policy, f.burst, f.stale) + AllExposed(policy, fs)
  {
    assert ([f] + fs)[1..] == fs;
  }

  /** What becomes readable is handed out once and in order under either policy. */
  lemma {:induction false} ExposedConserved(policy: LengthPolicy, st: State, acts: seq<Act>, s: Socket)
    ensures st.views[s] + AllExposed(policy, Fillings(policy, st, acts, s)) ==
            DeliveredWith(policy, st, acts, s) + RunWith(policy, st, acts).views[s]
    decreases acts
  {
    hide Exposed, Burst, Served;
    if acts != [] {
      var a, o := acts[0], StepWith(policy, st, acts[0]);
      var mine := a.op.s == s && st.views[s] == [];
      var i := if mine then Exposed(policy, Burst(st.line, 1, 255), a.stale) else [];
      var d := if a.op.s == s then o.out else [];
      var rest := Fillings(policy, o.st, acts[1..], s);
      ServedConserves(Refilled(policy, st, a.op.s, a.stale), a.op, s);
      assert st.views[s] + i == d + o.st.views[s];
      assert Fillings(policy, st, acts, s) ==
             (if mine then [Filling(Burst(st.line, 1, 255), a.stale)] + rest else rest);
      ExposedFirst(policy, Filling(Burst(st.line, 1, 255), a.stale), rest);
      hide Fillings, AllExposed, StepWith, Refilled;
      ExposedConserved(policy, o.st, acts[1..], s);
      Weave(st.views[s], i, d, o.st.views[s], AllExposed(policy, rest),
            DeliveredWith(policy, o.st, acts[1..], s), RunWith(policy, o.st, acts[1..]).views[s]);
    }
  }

  /** As the code stands, refills make no fewer bytes readable than they brought, and
    * the same bytes exactly when each of them announced nothing. */
  lemma {:induction false} AsWrittenSurplus(fs: seq<Filling>)
    requires forall k | 0 <= k < |fs| :: |fs[k].stale| == WIFI_SOCKET_BUFFER_SIZE
    ensures |AllExposed(AsWritten, fs)| >= |AllFetched(fs)|
    ensures AllExposed(AsWritten, fs) == AllFetched(fs) <==> forall k | 0 <= k < |fs| :: AnnouncesNothing(fs[k].burst)
    ensures AllExposed(AsWritten, fs) != AllFetched(fs) ==> |AllExposed(AsWritten, fs)| > |AllFetched(fs)|
  {
    hide Exposed, Fetched, AnnouncesNothing;
    if fs != [] {
      AsWrittenSurplus(fs[1..]);
      AsWrittenExposes(fs[0].burst, fs[0].stale);
      assert forall k | 0 < k < |fs| :: fs[k] == fs[1..][k - 1];
    }
  }

  lemma {:induction false} FillingsFullSized(policy: LengthPolicy, st: State, acts: seq<Act>, s: Socket)
    requires FullSized(acts)
    ensures forall k | 0 <= k < |Fillings(policy, st, acts, s)| ::
              |Fillings(policy, st, acts, s)[k].stale| == WIFI_SOCKET_BUFFER_SIZE
    decreases acts
  {
    hide StepWith, Burst;
    if acts != [] {
      FillingsFullSized(policy, StepWith(policy, st, acts[0]).st, acts[1..], s);
    }
  }

  /** The stream as the code stands: in a run, the bytes of a socket delivered and
    * still readable are those readable at first and those its refills brought, if
    * and only if every one of its refills announced an empty parameter: then they
    * brought nothing. */
  lemma AsWrittenConservesIff(st: State, acts: seq<Act>, s: Socket)
    requires FullSized(acts)
    ensures var fs := Fillings(AsWritten, st, acts, s);
            DeliveredWith(AsWritten, st, acts, s) + RunWith(AsWritten, st, acts).views[s] ==
            st.views[s] + AllFetched(fs)
            <==> forall k | 0 <= k < |fs| :: AnnouncesNothing(fs[k].burst)
  {
    var fs := Fillings(AsWritten, st, acts, s);
    ExposedConserved(AsWritten, st, acts, s);
    FillingsFullSized(AsWritten, st, acts, s);
    AsWrittenSurplus(fs);
    SamePrefix(st.views[s], AllExposed(AsWritten, fs), AllFetched(fs));
  }

  lemma SamePrefix(v: Bytes, x: Bytes, y: Bytes)
    ensures v + x == v + y <==> x == y
  {
    if v + x == v + y {
      assert x == (v + x)[|v|..] == (v + y)[|v|..] == y;
    }
  }

  // ---------- Status ----------

  /** Of the eleven TCP states, three count as connected; so does every other byte,
    * the 255 of a failed query included. */
  lemma AliveStates(status: uint8)
    ensures Alive(status) <==> status == ESTABLISHED || status == CLOSING || status == LAST_ACK || status > TIME_WAIT
  {
  }

  /** With nothing readable, the answer is yes exactly when the status query was not
    * answered by a reply the receiver accepts. */
  lemma ConnectedIffUnanswered(st: State, s: Socket)
    requires AfterAvailable(st, s).views[s] == []
    ensures Step(st, Connected(s)).result == 1 <==>
            !Parse(Len8, GET_CLIENT_STATE_TCP_CMD, Burst(AfterAvailable(st, s).line, 1, 16), [1]).accepted
  {
    hide AfterAvailable, Parse, Burst, Step;
    StepReturns(st, Connected(s));
  }

  /** With nothing buffered and a well-formed one-byte status reply `v`, the answer
    * is yes unless `v` is the END byte; so it is the right answer exactly when `v`
    * is an open state other than that byte. */
  lemma ConnectedAnswer(st: State, s: Socket, v: uint8)
    requires AfterAvailable(st, s).views[s] == []
    requires TellsState(Burst(AfterAvailable(st, s).line, 1, 16), v)
    ensures var yes := Step(st, Connected(s)).result == 1;
            && (yes <==> v != END_CMD)
            && ((yes <==> Alive(v)) <==> Alive(v) && v != END_CMD)
  {
    hide ClientState, TellsState;
    StateMisread(Burst(AfterAvailable(st, s).line, 1, 16), v);
  }

  /** As the code stands the answer is no only if the refill announced an empty
    * parameter and the status reply was accepted. */
  lemma ConnectedAsWritten(st: State, s: Socket, stale: Bytes)
    requires st.views[s] == [] && |stale| == WIFI_SOCKET_BUFFER_SIZE
    ensures StepWith(AsWritten, st, Act(Connected(s), stale)).result == 0 <==>
            && AnnouncesNothing(Burst(st.line, 1, 255))
            && Parse(Len8, GET_CLIENT_STATE_TCP_CMD, Burst(st.line, 3, 16), [1]).accepted
  {
    hide Exposed, AnnouncesNothing, Parse, ClientState, Burst;
    AsWrittenExposes(Burst(st.line, 1, 255), stale);
    BurstLater(st.line, 2, 1, 16);
    StateIsAcceptance(Burst(st.line, 3, 16));
  }

  /** The bytes are a well-formed reply of a state other than the END byte. */
  ghost predicate TellsOther(f: Bytes) {
    exists v :: v != END_CMD && TellsState(f, v)
  }

  lemma OtherIsFailure(f: Bytes)
    requires TellsOther(f)
    ensures ClientState(f) == WL_FAILURE
  {
    hide TellsState, ClientState;
    var v :| v != END_CMD && TellsState(f, v);
    StateMisread(f, v);
  }

  lemma ServedSaysYes(a: State, s: Socket)
    requires a.views[s] == [] ==> ClientState(Burst(a.line, 1, 16)) == WL_FAILURE
    ensures var o := Served(a, Connected(s));
            && o.result == 1
            && (o.st.views[s] == [] ==> a.views[s] == [] && o.st.line == Drop(a.line, 2))
  {
    hide ClientState, Burst, Drop, StateRequest;
  }

  lemma RefilledOfEmpty(policy: LengthPolicy, st: State, s: Socket, stale: Bytes)
    ensures var a := Refilled(policy, st, s, stale);
            a.views[s] == [] ==> st.views[s] == [] && a.line == Drop(st.line, 2)
  {
    hide Exposed, Burst, Drop, DataRequest;
  }

  lemma PollSaysYes(policy: LengthPolicy, st: State, s: Socket, stale: Bytes)
    requires st.views[s] == [] ==> TellsOther(Burst(st.line, 3, 16))
    ensures var o := StepWith(policy, st, Act(Connected(s), stale));
            && o.result == 1
            && (o.st.views[s] == [] ==> st.views[s] == [] && o.st.line == Drop(st.line, 4))
  {
    var a := Refilled(policy, st, s, stale);
    assert StepWith(policy, st, Act(Connected(s), stale)) == Served(a, Connected(s));
    hide *;
    RefilledOfEmpty(policy, st, s, stale);
    if st.views[s] == [] {
      OtherIsFailure(Burst(st.line, 3, 16));
      BurstLater(st.line, 2, 1, 16);
      BurstLater(st.line, 2, 2, 0);
    }
    ServedSaysYes(a, s);
  }

  /** Under either policy, when the status replies of two polls are such replies
    * both answers are yes, whatever the refills bring and whatever the states. */
  lemma TwoPollsSayYes(policy: LengthPolicy, st: State, s: Socket, stale: Bytes, stale1: Bytes)
    requires st.views[s] == []
    requires TellsOther(Burst(st.line, 3, 16)) && TellsOther(Burst(st.line, 7, 16))
    ensures var o := StepWith(policy, st, Act(Connected(s), stale));
            o.result == 1 && StepWith(policy, o.st, Act(Connected(s), stale1)).result == 1
  {
    var o := StepWith(policy, st, Act(Connected(s), stale));
    BurstLater(st.line, 4, 3, 16);
    hide StepWith, Burst, Drop, TellsOther;
    PollSaysYes(policy, st, s, stale);
    PollSaysYes(policy, o.st, s, stale1);
  }
}
