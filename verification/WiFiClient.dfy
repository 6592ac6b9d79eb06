/** The client calls that reach the socket buffers: they poll the slave for status,
  * and close a buffer as a side effect of a status query. */
module WiFiClient {
  import opened Wire
  import opened Frame
  import opened Receiver
  import opened SpiDrv
  import opened ServerDrv
  import opened SocketStream
  import opened WiFiSocketBuffer
  import opened Ticks

  /** Sockets the calls are defined for: a real one, or none. */
  predicate ValidSock(sock: uint8) {
    sock < WIFI_MAX_SOCK_NUM || sock == NO_SOCKET_AVAIL
  }

  method Available(bufs: WiFiSocketBuffer, sock: uint8) returns (n: nat, ghost stale: Bytes)
    requires bufs.Valid() && ValidSock(sock)
    modifies bufs.Repr
    ensures bufs.Valid() && fresh(bufs.Repr - old(bufs.Repr))
    ensures |stale| == WIFI_SOCKET_BUFFER_SIZE
    ensures sock == NO_SOCKET_AVAIL ==> n == 0 && bufs.Contents() == old(bufs.Contents())
    ensures sock != NO_SOCKET_AVAIL ==>
              var o := StepWith(bufs.policy, old(bufs.Contents()), Act(Op.Available(sock), stale));
              && bufs.Contents() == o.st && n == o.result
              && bufs.SlotReady(sock, old(bufs.buffers[..]))
  {
    hide Exposed, Refilled;
    if sock == NO_SOCKET_AVAIL {
      return 0, Zeros(255);
    }
    n, stale := bufs.Available(sock);
  }

  method ReadChar(bufs: WiFiSocketBuffer, sock: uint8) returns (r: int, ghost stale: Bytes)
    requires bufs.Valid() && ValidSock(sock)
    modifies bufs.Repr
    ensures bufs.Valid() && fresh(bufs.Repr - old(bufs.Repr))
    ensures |stale| == WIFI_SOCKET_BUFFER_SIZE
    ensures sock == NO_SOCKET_AVAIL ==> r == -1 && bufs.Contents() == old(bufs.Contents())
    ensures sock != NO_SOCKET_AVAIL ==>
              var o := StepWith(bufs.policy, old(bufs.Contents()), Act(Op.ReadChar(sock), stale));
              && bufs.Contents() == o.st && r == o.result
              && bufs.SlotReady(sock, old(bufs.buffers[..]))
  {
    hide Exposed;
    var n;
    n, stale := Available(bufs, sock);
    if n == 0 {
      return -1, stale;
    }
    hide Burst, DataRequest;
    var ch := new uint8[1];
    var _, _ := bufs.Read(sock, ch, 1);
    r := ch[0];
  }

  method Status(bufs: WiFiSocketBuffer, sock: uint8) returns (r: int)
    requires bufs.Valid() && ValidSock(sock)
    modifies bufs.spi, bufs.spi.txBuffer
    ensures bufs.Valid()
    ensures sock == NO_SOCKET_AVAIL ==> r == CLOSED && bufs.Contents() == old(bufs.Contents())
    ensures sock != NO_SOCKET_AVAIL ==>
              && r == ClientState(Burst(old(bufs.spi.line), 1, 16))
              && bufs.Contents() == Polled(old(bufs.Contents()), sock)
  {
    hide ClientState, StateRequest;
    if sock == NO_SOCKET_AVAIL {
      return CLOSED;
    }
    r := GetClientState(bufs.spi, sock);
    assert forall s | 0 <= s < WIFI_MAX_SOCK_NUM :: bufs.View(s) == old(bufs.View(s));
  }

  method Connected(bufs: WiFiSocketBuffer, sock: uint8) returns (r: int, ghost stale: Bytes)
    requires bufs.Valid() && ValidSock(sock)
    modifies bufs.Repr
    ensures bufs.Valid() && fresh(bufs.Repr - old(bufs.Repr))
    ensures |stale| == WIFI_SOCKET_BUFFER_SIZE
    ensures sock == NO_SOCKET_AVAIL ==> r == 0 && bufs.Contents() == old(bufs.Contents())
    ensures sock != NO_SOCKET_AVAIL ==>
              var o := StepWith(bufs.policy, old(bufs.Contents()), Act(Op.Connected(sock), stale));
              && bufs.Contents() == o.st && r == o.result && r in {0, 1}
              && (r == 0 <==> bufs.buffers[sock].data == null) // a no frees the buffer
              && (forall t | 0 <= t < WIFI_MAX_SOCK_NUM && t != sock :: bufs.buffers[t] == old(bufs.buffers[t]))
  {
    hide Exposed, Refilled, ClientState;
    var n;
    n, stale := Available(bufs, sock);
    if sock == NO_SOCKET_AVAIL {
      return 0, stale;
    }
    if n != 0 {
      return 1, stale;
    }
    var status := Status(bufs, sock);
    var s := status % 0x100;
    if Alive(s) {
      r := 1;
    } else {
      r := 0;
      bufs.Close(sock);
    }
  }

  // ---------- Waiting for a connection ----------

  /** Status polls of one socket, with what its storage held at each. */
  function Polls(s: Socket, stales: seq<Bytes>): (acts: seq<Act>)
    ensures |acts| == |stales|
    ensures forall i | 0 <= i < |acts| :: acts[i] == Act(Op.Connected(s), stales[i])
  {
    seq(|stales|, i requires 0 <= i < |stales| => Act(Op.Connected(s), stales[i]))
  }

  /** The answer that poll gives in state `st`. */
  function PollResult(policy: LengthPolicy, st: State, s: Socket, stale: Bytes): int {
    StepWith(policy, st, Act(Op.Connected(s), stale)).result
  }

  /** The answer to poll `i` of a series. */
  function PollAnswer(policy: LengthPolicy, st: State, s: Socket, stales: seq<Bytes>, i: nat): int
    requires i < |stales|
  {
    PollResult(policy, RunWith(policy, st, Polls(s, stales[..i])), s, stales[i])
  }

  lemma {:induction false} RunSnoc(policy: LengthPolicy, st: State, acts: seq<Act>, a: Act)
    ensures RunWith(policy, st, acts + [a]) == StepWith(policy, RunWith(policy, st, acts), a).st
    decreases acts
  {
    hide StepWith;
    if acts == [] {
      assert RunWith(policy, st, [a]) == RunWith(policy, StepWith(policy, st, a).st, []);
    } else {
      assert (acts + [a])[1..] == acts[1..] + [a];
      RunSnoc(policy, StepWith(policy, st, acts[0]).st, acts[1..], a);
    }
  }

  lemma PollOnce(policy: LengthPolicy, st: State, s: Socket, stales: seq<Bytes>, stale: Bytes)
    ensures RunWith(policy, st, Polls(s, stales + [stale])) ==
            StepWith(policy, RunWith(policy, st, Polls(s, stales)), Act(Op.Connected(s), stale)).st
  {
    hide StepWith, RunWith;
    assert Polls(s, stales + [stale]) == Polls(s, stales) + [Act(Op.Connected(s), stale)];
    RunSnoc(policy, st, Polls(s, stales), Act(Op.Connected(s), stale));
  }

  lemma AnswersKept(policy: LengthPolicy, st: State, s: Socket, stales: seq<Bytes>, stale: Bytes)
    ensures forall i: nat | i < |stales| ::
              PollAnswer(policy, st, s, stales + [stale], i) == PollAnswer(policy, st, s, stales, i)
    ensures PollAnswer(policy, st, s, stales + [stale], |stales|) ==
            PollResult(policy, RunWith(policy, st, Polls(s, stales)), s, stale)
  {
    hide PollResult, RunWith;
    assert forall i: nat | i <= |stales| :: (stales + [stale])[..i] == stales[..i];
    assert stales[..|stales|] == stales;
  }

  lemma ResultIsYesOrNo(policy: LengthPolicy, st: State, s: Socket, stale: Bytes)
    ensures PollResult(policy, st, s, stale) in {0, 1}
  {
    hide Refilled, ClientState;
  }

  /** One status poll, as the next of a series that began in `st`. */
  method PollNext(bufs: WiFiSocketBuffer, sock: uint8, ghost st: State, ghost stales: seq<Bytes>)
    returns (up: int, ghost all: seq<Bytes>)
    requires bufs.Valid() && sock < WIFI_MAX_SOCK_NUM
    requires bufs.Contents() == RunWith(bufs.policy, st, Polls(sock, stales))
    modifies bufs.Repr
    ensures bufs.Valid() && fresh(bufs.Repr - old(bufs.Repr))
    ensures |all| == |stales| + 1 && |all[|stales|]| == WIFI_SOCKET_BUFFER_SIZE && all[..|stales|] == stales
    ensures bufs.Contents() == RunWith(bufs.policy, st, Polls(sock, all))
    ensures up == PollAnswer(bufs.policy, st, sock, all, |stales|) && up in {0, 1}
    ensures up == 0 <==> bufs.buffers[sock].data == null
    ensures forall i: nat | i < |stales| ::
              PollAnswer(bufs.policy, st, sock, all, i) == PollAnswer(bufs.policy, st, sock, stales, i)
  {
    hide StepWith, RunWith;
    ghost var stale;
    up, stale := Connected(bufs, sock);
    all := stales + [stale];
    PollOnce(bufs.policy, st, sock, stales, stale);
    AnswersKept(bufs.policy, st, sock, stales, stale);
    ResultIsYesOrNo(bufs.policy, RunWith(bufs.policy, st, Polls(sock, stales)), sock, stale);
  }

  /** Nothing is buffered, and the status replies that two polls would get, refills
    * bringing nothing, are well formed, of states other than the END byte. */
  ghost predicate AnswersWell(st: State, s: Socket) {
    st.views[s] == [] && TellsOther(Burst(st.line, 3, 16)) && TellsOther(Burst(st.line, 7, 16))
  }

  lemma FirstTwoYes(policy: LengthPolicy, st: State, s: Socket, stales: seq<Bytes>)
    requires AnswersWell(st, s) && |stales| >= 2
    ensures PollAnswer(policy, st, s, stales, 0) == PollAnswer(policy, st, s, stales, 1) == 1
  {
    TwoPollsSayYes(policy, st, s, stales[0], stales[1]);
    hide StepWith;
    assert stales[..1] == [] + [stales[0]];
    PollOnce(policy, st, s, [], stales[0]);
  }

  lemma StartsEmpty(policy: LengthPolicy, st: State, s: Socket)
    ensures RunWith(policy, st, Polls(s, [])) == st
  {
  }

  /** The loop: it polls until the first yes, or until a check of the clock after a no
    * finds the limit passed. */
  method AwaitConnected(bufs: WiFiSocketBuffer, sock: uint8, clock: nat -> nat, d: nat, limit: nat, m: nat)
    returns (ghost stales: seq<Bytes>)
    requires bufs.Valid() && sock < WIFI_MAX_SOCK_NUM
    requires Paced(clock, d, limit, m)
    modifies bufs.Repr
    ensures bufs.Valid() && fresh(bufs.Repr - old(bufs.Repr))
    ensures |stales| > 0 && forall i | 0 <= i < |stales| :: |stales[i]| == WIFI_SOCKET_BUFFER_SIZE
    ensures bufs.Contents() == RunWith(bufs.policy, old(bufs.Contents()), Polls(sock, stales))
    ensures forall i: nat | i < |stales| - 1 :: PollAnswer(bufs.policy, old(bufs.Contents()), sock, stales, i) == 0
    ensures Passed(clock, limit, m, |stales| - 1)
    ensures PollAnswer(bufs.policy, old(bufs.Contents()), sock, stales, |stales| - 1) == 1
            || !InTime(clock(0), clock(|stales|), limit, m)
  {
    hide StepWith, RunWith, PollAnswer;
    ghost var st := bufs.Contents();
    var start, turns := clock(0) % m, 0;
    StartsEmpty(bufs.policy, st, sock);
    var up;
    up, stales := PollNext(bufs, sock, st, []);
    while up == 0 && (clock(turns + 1) % m - start) % m < limit
      invariant bufs.Valid() && fresh(bufs.Repr - old(bufs.Repr))
      invariant |stales| == turns + 1 && bufs.Contents() == RunWith(bufs.policy, st, Polls(sock, stales))
      invariant forall i | 0 <= i < |stales| :: |stales[i]| == WIFI_SOCKET_BUFFER_SIZE
      invariant forall i: nat | i < turns :: PollAnswer(bufs.policy, st, sock, stales, i) == 0
      invariant up == PollAnswer(bufs.policy, st, sock, stales, turns) && up in {0, 1}
      invariant Passed(clock, limit, m, turns) && turns <= CeilDiv(limit, d)
      decreases CeilDiv(limit, d) - turns
    {
      turns := turns + 1;
      TurnsBounded(clock, d, limit, m, turns);
      up, stales := PollNext(bufs, sock, st, stales);
    }
  }

  /** `WiFiClient_connectCommon`, with the readings of the tick counter given by
    * `clock` (reading 0 is the start) and a turn of the loop taking at least `d`
    * ticks. The state after it is that of status polls and nothing else; each but
    * the last two answered no with the limit, in true time, not yet reached, and the
    * waiting ends with a yes or with the limit reached. The socket is returned
    * exactly when the last poll said yes. A slave that answers its status queries
    * well is taken for connected at once, closed or not. */
  method ConnectCommon(bufs: WiFiSocketBuffer, sock: uint8, clock: nat -> nat, d: nat, limit: nat, m: nat)
    returns (r: uint8, ghost stales: seq<Bytes>)
    requires bufs.Valid() && sock < WIFI_MAX_SOCK_NUM
    requires Paced(clock, d, limit, m)
    modifies bufs.Repr
    ensures bufs.Valid() && fresh(bufs.Repr - old(bufs.Repr))
    ensures 2 <= |stales| <= CeilDiv(limit, d) + 2 && FullSized(Polls(sock, stales))
    ensures bufs.Contents() == RunWith(bufs.policy, old(bufs.Contents()), Polls(sock, stales))
    ensures forall i: nat | i < |stales| - 2 :: PollAnswer(bufs.policy, old(bufs.Contents()), sock, stales, i) == 0
    ensures forall k | 0 < k <= |stales| - 2 :: clock(k) - clock(0) < limit
    ensures PollAnswer(bufs.policy, old(bufs.Contents()), sock, stales, |stales| - 2) == 1
            || clock(|stales| - 1) - clock(0) >= limit
    ensures r == if PollAnswer(bufs.policy, old(bufs.Contents()), sock, stales, |stales| - 1) == 1
                 then sock else NO_SOCKET_AVAIL
    ensures r == NO_SOCKET_AVAIL <==> bufs.buffers[sock].data == null
    ensures AnswersWell(old(bufs.Contents()), sock) ==> |stales| == 2 && r == sock
  {
    hide StepWith, RunWith, PollAnswer, AnswersWell, Paced, Passed, InTime;
    ghost var st := bufs.Contents();
    stales := AwaitConnected(bufs, sock, clock, d, limit, m);
    TurnsBounded(clock, d, limit, m, |stales| - 1);
    PassedInTrueTime(clock, d, limit, m, |stales| - 1);
    var up;
    up, stales := PollNext(bufs, sock, st, stales);
    if AnswersWell(st, sock) {
      FirstTwoYes(bufs.policy, st, sock, stales);
    }
    r := if up == 0 then NO_SOCKET_AVAIL else sock;
  }

  // ---------- Closing ----------

  const MAX_STOP_POLLS := 50

  /** The stop command sent and its answer clocked in. */
  function Stopping(st: State, sock: uint8): State {
    st.(line := Drop(st.line, 2), sent := st.sent + [SocketRequest(STOP_CLIENT_TCP_CMD, sock), Zeros(16)])
  }

  /** The stop command itself; its answer is not looked at. */
  method StopClient(bufs: WiFiSocketBuffer, sock: uint8)
    requires bufs.Valid() && sock < WIFI_MAX_SOCK_NUM
    modifies bufs.spi, bufs.spi.txBuffer
    ensures bufs.Valid()
    ensures bufs.Contents() == Stopping(old(bufs.Contents()), sock)
  {
    hide Parse, Stored;
    var data := new uint8[1] [0];
    var outParam := new Param(1, data);
    var _ := Exchange(bufs.spi, Len8, STOP_CLIENT_TCP_CMD, [[sock]], Len8, 16, outParam);
    assert forall s | 0 <= s < WIFI_MAX_SOCK_NUM :: bufs.View(s) == old(bufs.View(s));
  }

  /** A state query and its answer, `n` times over. */
  function PolledTimes(st: State, s: Socket, n: nat): State {
    if n == 0 then st else Polled(PolledTimes(st, s, n - 1), s)
  }

  lemma {:induction false} PolledLine(st: State, s: Socket, n: nat)
    ensures PolledTimes(st, s, n).line == Drop(st.line, 2 * n) && PolledTimes(st, s, n).views == st.views
  {
    hide StateRequest;
    if n > 0 {
      PolledLine(st, s, n - 1);
      BurstLater(st.line, 2 * (n - 1), 2, 0);
    }
  }

  /** All that goes out meanwhile is that query and the zeros that clock the answer. */
  lemma {:induction false} PolledSends(st: State, s: Socket, n: nat, k: nat)
    requires k < 2 * n
    ensures var sent := PolledTimes(st, s, n).sent;
            && |sent| == |st.sent| + 2 * n && st.sent <= sent
            && sent[|st.sent| + k] == QueryBytes(s)[k % 2]
    decreases n
  {
    hide StateRequest, Zeros, Drop;
    StateRequestBytes(s);
    var before := PolledTimes(st, s, n - 1).sent;
    assert PolledTimes(st, s, n).sent == before + QueryBytes(s);
    hide PolledTimes, QueryBytes;
    if k < 2 * (n - 1) {
      PolledSends(st, s, n - 1, k);
    } else if n > 1 {
      PolledSends(st, s, n - 1, 0);
    } else {
      assert before == st.sent by { NotPolled(st, s); }
    }
  }

  lemma NotPolled(st: State, s: Socket)
    ensures PolledTimes(st, s, 0) == st
  {
  }

  /** The stop command on the wire, and nothing else besides the zeros. */
  lemma StoppingSends(st: State, sock: uint8)
    ensures Stopping(st, sock).sent ==
            st.sent + [[0xE0, 0x2E, 1, 1, sock, 0, 0, 0xEE], Zeros(16)]
  {
    hide SocketRequest;
    SocketRequestBytes(STOP_CLIENT_TCP_CMD, sock);
  }

  /** The answer to the `i`-th of a series of status polls. */
  function StatusAt(line: seq<Bytes>, i: nat): int {
    ClientState(Burst(line, 2 * i + 1, 16))
  }

  lemma NextStatus(line: seq<Bytes>, i: nat)
    ensures ClientState(Burst(Drop(line, 2 * i), 1, 16)) == StatusAt(line, i)
    ensures Drop(Drop(line, 2 * i), 2) == Drop(line, 2 * (i + 1))
  {
    hide ClientState;
  }

  /** CLOSED is what an accepted reply reads as, and nothing else does. */
  lemma StatusClosedIff(line: seq<Bytes>, i: nat)
    ensures StatusAt(line, i) == CLOSED <==>
            Parse(Len8, GET_CLIENT_STATE_TCP_CMD, Burst(line, 2 * i + 1, 16), [1]).accepted
  {
    hide Parse, ClientState;
    StateIsAcceptance(Burst(line, 2 * i + 1, 16));
  }

  lemma NeverClosed(line: seq<Bytes>, i: nat)
    ensures TellsOther(Burst(line, 2 * i + 1, 16)) ==> StatusAt(line, i) != CLOSED
  {
    hide TellsOther, ClientState;
    if TellsOther(Burst(line, 2 * i + 1, 16)) {
      OtherIsFailure(Burst(line, 2 * i + 1, 16));
    }
  }

  /** Status polls until the first CLOSED answer, 50 at most. */
  method AwaitClosed(bufs: WiFiSocketBuffer, sock: uint8) returns (ghost polls: nat)
    requires bufs.Valid() && sock < WIFI_MAX_SOCK_NUM
    modifies bufs.spi, bufs.spi.txBuffer
    ensures bufs.Valid()
    ensures bufs.Contents() == PolledTimes(old(bufs.Contents()), sock, polls)
    ensures 1 <= polls <= MAX_STOP_POLLS
    ensures forall i | 0 <= i < polls - 1 :: StatusAt(old(bufs.spi.line), i) != CLOSED
    ensures polls < MAX_STOP_POLLS ==> StatusAt(old(bufs.spi.line), polls - 1) == CLOSED
  {
    hide StatusAt, ClientState, Burst, Drop;
    ghost var line, st := bufs.spi.line, bufs.Contents();
    NextStatus(line, 0);
    DropNone(line);
    var count := 0;
    var status := Status(bufs, sock);
    while status != CLOSED && count + 1 < MAX_STOP_POLLS
      invariant bufs.Valid() && 0 <= count < MAX_STOP_POLLS
      invariant status == StatusAt(line, count)
      invariant forall i | 0 <= i < count :: StatusAt(line, i) != CLOSED
      invariant bufs.Contents() == PolledTimes(st, sock, count + 1)
      decreases MAX_STOP_POLLS - count
    {
      NextStatus(line, count + 1);
      PolledLine(st, sock, count + 1);
      count := count + 1;
      status := Status(bufs, sock);
    }
    polls := count + 1;
  }

  /** `WiFiClient_stop`: the stop command, the polls, then the buffer is freed. With a
    * slave that answers its status queries well, every poll is used up. */
  method Stop(bufs: WiFiSocketBuffer, sock: uint8) returns (ghost polls: nat)
    requires bufs.Valid() && ValidSock(sock)
    modifies bufs.Repr
    ensures bufs.Valid() && bufs.Repr == old(bufs.Repr)
    ensures sock == NO_SOCKET_AVAIL ==> bufs.Contents() == old(bufs.Contents())
    ensures sock != NO_SOCKET_AVAIL ==>
              var line := Drop(old(bufs.spi.line), 2);
              && 1 <= polls <= MAX_STOP_POLLS
              && (forall i | 0 <= i < polls - 1 :: StatusAt(line, i) != CLOSED)
              && (polls < MAX_STOP_POLLS ==> StatusAt(line, polls - 1) == CLOSED)
              && bufs.Contents() ==
                 PolledTimes(Stopping(old(bufs.Contents()), sock), sock, polls).(
                   views := old(bufs.Contents()).views[sock := []])
              && bufs.buffers[sock].data == null
              && ((forall i | 0 <= i < MAX_STOP_POLLS :: TellsOther(Burst(line, 2 * i + 1, 16)))
                  ==> polls == MAX_STOP_POLLS)
  {
    hide StatusAt, TellsOther, ClientState, Burst, Drop, PolledTimes;
    if sock == NO_SOCKET_AVAIL {
      return 0;
    }
    StopClient(bufs, sock);
    ghost var st := bufs.Contents();
    polls := AwaitClosed(bufs, sock);
    PolledLine(st, sock, polls);
    NeverClosed(st.line, polls - 1);
    bufs.Close(sock);
  }
}
