/** The server commands that the socket layer is built on: one command and one
  * reply each, with descriptors on the caller's stack. */
module ServerDrv {
  import opened Wire
  import opened Frame
  import opened Receiver
  import opened SpiDrv

  const WL_FAILURE := -1

  // ---------- One descriptor ----------

  /** The length of a descriptor that said `size`, after the receive. */
  function LeftLength(r: Reply, size: nat): nat {
    if r.data == [] then size else |r.data[0]|
  }

  /** The storage of the descriptor, after the receive. */
  function StoredFrom(r: Reply, held: Bytes): Bytes {
    if r.data == [] then held else Stored(held, r.data[0])
  }

  // ---------- One-byte replies ----------

  /** The byte a caller finds in its zeroed one-byte object after a reply. */
  function StatusByte(r: Reply): uint8 {
    if r.data == [] then 0 else At(Stored([0], r.data[0]), 0)
  }

  /** `ServerDrv_getClientState`, from the bytes of the reply phase. */
  function ClientState(f: Bytes): int {
    var r := Parse(Len8, GET_CLIENT_STATE_TCP_CMD, f, [1]);
    if r.accepted then StatusByte(r) else WL_FAILURE
  }

  /** A one-byte object never receives its byte: the descriptor leaves room for
    * the NUL only. */
  lemma OneByteNeverArrives(w: Width, cmd: uint8, f: Bytes)
    ensures var r := Parse(w, cmd, f, [1]);
            (r.data == [] || r.data == [[]]) && StatusByte(r) == 0
  {
    ReplyFits(w, cmd, f, [1]);
  }

  /** So a state query tells only whether its reply was accepted: CLOSED then,
    * failure otherwise. */
  lemma StateIsAcceptance(f: Bytes)
    ensures ClientState(f) == if Parse(Len8, GET_CLIENT_STATE_TCP_CMD, f, [1]).accepted then 0 else WL_FAILURE
  {
    hide Parse, StatusByte;
    OneByteNeverArrives(Len8, GET_CLIENT_STATE_TCP_CMD, f);
  }

  /** The bytes `f` begin with a well-formed reply of the state `v`. */
  ghost predicate TellsState(f: Bytes, v: uint8) {
    exists idle: Bytes ::
      && Silent(idle) && Holds(f, 0, idle)
      && Holds(f, |idle|, ReplyFrame(Len8, GET_CLIENT_STATE_TCP_CMD, [[v]]))
  }

  lemma OneByteFields(v: uint8)
    ensures Fields(Len8, [[v]]) == [1, v]
  {
    assert Fields(Len8, [[v]]) == Len8.Put(1) + [v] + Fields(Len8, []);
  }

  lemma ReadOneByte(f: Bytes, p: nat)
    ensures ReadFields(Len8, f, p, [1]).next == p + 1
  {
    assert ReadFields(Len8, f, p + 1, []).next == p + 1;
  }

  /** Silence, the reply byte by byte, then anything, tells the state. */
  lemma ReplyTells(idle: Bytes, v: uint8, rest: Bytes)
    requires Silent(idle)
    ensures TellsState(idle + [0xE0, 0xAF, 1, 1, v, 0xEE] + rest, v)
  {
    var e := ReplyFrame(Len8, GET_CLIENT_STATE_TCP_CMD, [[v]]);
    OneByteFields(v);
    assert e == [0xE0, 0xAF, 1, 1, v, 0xEE];
    hide Silent, ReplyFrame;
    var f := idle + e + rest;
    assert Holds(f, 0, idle) && Holds(f, |idle|, e);
  }

  /** For a well-formed one-byte reply the state read is not the state sent: the
    * byte `v` stands where the receiver expects END. */
  lemma StateMisread(f: Bytes, v: uint8)
    requires TellsState(f, v)
    ensures ClientState(f) == if v == END_CMD then 0 else WL_FAILURE
  {
    var idle :|
      && Silent(idle) && Holds(f, 0, idle)
      && Holds(f, |idle|, ReplyFrame(Len8, GET_CLIENT_STATE_TCP_CMD, [[v]]));
    var cmd, ps, p := GET_CLIENT_STATE_TCP_CMD, [[v]], |idle| + 3;
    OneByteFields(v);
    ReadOneByte(f, p);
    hide Silent, Parse, ClientState, HeaderOf, Holds, Opened, LedReply, Fields, ReadFields;
    ReplyParts(Len8, START_CMD, cmd, ps, f, |idle|);
    OpenedParts(Len8, START_CMD, Replying(cmd), ps, f, |idle|);
    HeaderAfter(cmd, idle, START_CMD, 1, f);
    ParseReads(Len8, cmd, f, [1]);
    StateIsAcceptance(f);
    PairHeld(f, p, 1, v);
    assert [1][..1] == [1];
  }

  // ---------- The commands ----------

  /** The reply to the second of two transfers, as it stands in the FIFO. */
  function Answer(line: seq<Bytes>, maxSize: uint16): Bytes {
    Burst(line, 1, Min(maxSize, SPI_MAX_BUFFER))
  }

  /** The header says that a parameter follows. */
  predicate Answered(cmd: uint8, f: Bytes) {
    var h := HeaderOf(cmd, f);
    h.count.Some? && h.count.value > 0
  }

  /** The common shape: send, then receive into the one descriptor `outParam`, which
    * must have the storage it claims if the reply gets that far. */
  method Exchange(spi: SpiDrv, w: Width, cmd: uint8, ps: seq<Bytes>,
                  replyWidth: Width, maxSize: uint16, outParam: Param)
    returns (ok: bool)
    requires spi.Valid() && Sendable(w, ps) && 3 + FieldsSize(w, ps) <= 251 && outParam.data != spi.txBuffer
    requires Answered(cmd, Answer(spi.line, maxSize)) ==> Roomy(replyWidth, outParam)
    modifies spi, spi.txBuffer, outParam, outParam.data
    ensures spi.Valid() && spi.line == Drop(old(spi.line), 2)
    ensures spi.sent == old(spi.sent) + [Encode(w, cmd, ps), Zeros(Min(maxSize, SPI_MAX_BUFFER))]
    ensures var r := Parse(replyWidth, cmd, Answer(old(spi.line), maxSize), [old(outParam.len)]);
            && ok == r.accepted
            && outParam.len == LeftLength(r, old(outParam.len))
            && outParam.data[..] == StoredFrom(r, old(outParam.data[..]))
  {
    hide Parse, Encode, Stored, HeaderOf;
    var outParams := [outParam];
    ghost var m, b := Min(maxSize, SPI_MAX_BUFFER), spi.View();
    ghost var len, held := outParam.len, outParam.data[..];
    BurstLater(b.line, 1, 0, m);
    BurstLater(b.line, 1, 1, 0);
    ClockedFromLine(b, |Encode(w, cmd, ps)|);
    spi.Send(w, cmd, ps);
    ClockedFromLine(spi.View(), m);
    assert Memory(outParams)[0] == Cell(len, held);
    assert Caps(outParams) == [len];
    var paramsRead;
    ok, paramsRead := spi.Receive(replyWidth, cmd, maxSize, outParams);
    assert Memory(outParams)[0] == Cell(outParam.len, outParam.data[..]);
  }

  /** A command with the socket as its one parameter. */
  function SocketRequest(cmd: uint8, sock: uint8): Bytes {
    Encode(Len8, cmd, [[sock]])
  }

  function StateRequest(sock: uint8): Bytes {
    SocketRequest(GET_CLIENT_STATE_TCP_CMD, sock)
  }

  /** Such a command byte by byte. */
  lemma SocketRequestBytes(cmd: uint8, sock: uint8)
    requires cmd < 0x80
    ensures SocketRequest(cmd, sock) == [0xE0, cmd, 1, 1, sock, 0, 0, 0xEE]
    ensures Decode(Len8, SocketRequest(cmd, sock)) == Some(Decoded(cmd, [[sock]], 8))
  {
    var ps: seq<Bytes> := [[sock]];
    assert Fields(Len8, ps) == [1, sock] by { OneByteFields(sock); }
    FieldsLength(Len8, ps);
    assert Closing(5) == [0, 0, 0xEE];
    assert SocketRequest(cmd, sock) == [0xE0, cmd, 1] + [1, sock] + [0, 0, 0xEE];
    hide Decode, Encode;
    EncodeDecodes(Len8, cmd, ps);
  }

  lemma StateRequestBytes(sock: uint8)
    ensures StateRequest(sock) == [0xE0, 0x2F, 1, 1, sock, 0, 0, 0xEE]
    ensures Decode(Len8, StateRequest(sock)) == Some(Decoded(GET_CLIENT_STATE_TCP_CMD, [[sock]], |StateRequest(sock)|))
  {
    hide SocketRequest, Decode;
    SocketRequestBytes(GET_CLIENT_STATE_TCP_CMD, sock);
  }

  method GetClientState(spi: SpiDrv, sock: uint8) returns (r: int)
    requires spi.Valid()
    modifies spi, spi.txBuffer
    ensures spi.Valid() && spi.line == Drop(old(spi.line), 2)
    ensures spi.sent == old(spi.sent) + [StateRequest(sock), Zeros(16)]
    ensures r == ClientState(Burst(old(spi.line), 1, 16))
  {
    var data := new uint8[1] [0];
    var outParam := new Param(1, data);
    var ok := Exchange(spi, Len8, GET_CLIENT_STATE_TCP_CMD, [[sock]], Len8, 16, outParam);
    r := if ok then data[0] else WL_FAILURE;
  }

  // ---------- GET_DATABUF ----------

  /** What becomes of the received length. As written, `*_dataLen` keeps the
    * capacity and a failed receive goes unnoticed; with the write-back, the caller
    * learns the length received, 0 if the reply was not accepted. */
  datatype LengthPolicy = AsWritten | WriteBack

  /** The reply to GET_DATABUF for a buffer of `size` bytes. */
  function DataReply(f: Bytes, size: nat): Reply {
    Parse(Len16, GET_DATABUF_TCP_CMD, f, [size])
  }

  /** The bytes an accepted reply carried; none if it was not accepted. */
  function Fetched(f: Bytes): Bytes {
    var r := DataReply(f, WIFI_SOCKET_BUFFER_SIZE);
    if r.accepted then r.data[0] else []
  }

  /** The command: the socket, then the capacity as it lies in memory, low byte
    * first. */
  function DataRequest(sock: uint8, size: uint16): Bytes {
    Encode(Len16, GET_DATABUF_TCP_CMD, [[sock], [size % 0x100, size / 0x100]])
  }

  /** The socket a GET_DATABUF frame asks about, to whoever decodes it. */
  function SocketIn(request: Bytes): Option<nat> {
    match Decode(Len16, request)
    case None => None
    case Some(d) =>
      if d.op == GET_DATABUF_TCP_CMD && |d.params| == 2 && |d.params[0]| == 1 then Some(d.params[0][0]) else None
  }

  lemma RequestNamesSocket(sock: uint8, size: uint16)
    ensures SocketIn(DataRequest(sock, size)) == Some(sock)
  {
    hide Decode, Encode;
    EncodeDecodes(Len16, GET_DATABUF_TCP_CMD, [[sock], [size % 0x100, size / 0x100]]);
  }

  /** The command byte by byte: 16-bit lengths high byte first, the capacity in it low
    * byte first. */
  lemma DataRequestBytes(sock: uint8, size: uint16)
    ensures DataRequest(sock, size) ==
            [0xE0, 0x45, 2, 0, 1, sock, 0, 2, size % 0x100, size / 0x100, 0, 0xEE]
  {
    var capacity: Bytes := [size % 0x100, size / 0x100];
    var ps := [[sock], capacity];
    assert ps[1..] == [capacity];
    assert Fields(Len16, ps[1..]) == [0, 2] + capacity + Fields(Len16, []);
    assert Fields(Len16, ps) == [0, 1] + [sock] + Fields(Len16, ps[1..]);
    FieldsLength(Len16, ps);
    assert Closing(10) == [0, 0xEE];
    assert DataRequest(sock, size) == [0xE0, 0x45, 2] + Fields(Len16, ps) + Closing(10);
  }

  /** And the reply that carries `chunk`. */
  lemma DataReplyBytes(chunk: Bytes)
    requires |chunk| < 0x1_0000
    ensures ReplyFrame(Len16, GET_DATABUF_TCP_CMD, [chunk]) ==
            [0xE0, 0xC5, 1, |chunk| / 0x100, |chunk| % 0x100] + chunk + [0xEE]
  {
    assert Fields(Len16, [chunk]) == Len16.Put(|chunk|) + chunk + Fields(Len16, []);
  }

  method GetDataBuf(spi: SpiDrv, policy: LengthPolicy, sock: uint8, data: array<uint8>, size: uint16)
    returns (ret: nat, newSize: nat)
    requires spi.Valid() && 1 <= size <= data.Length && size < Len16.Limit() && data != spi.txBuffer
    modifies spi, spi.txBuffer, data
    ensures spi.Valid() && spi.line == Drop(old(spi.line), 2)
    ensures spi.sent == old(spi.sent) + [DataRequest(sock, size), Zeros(255)]
    ensures var r := DataReply(Burst(old(spi.line), 1, 255), size);
            && (policy.AsWritten? ==> ret == LeftLength(r, size) && newSize == size)
            && (policy.WriteBack? ==> ret == newSize == if r.accepted then |r.data[0]| else 0)
            && data[..] == StoredFrom(r, old(data[..]))
  {
    hide Parse, Encode, Stored;
    var inParams := [[sock], [size % 0x100, size / 0x100]];
    assert inParams[1..] == [[size % 0x100, size / 0x100]] && inParams[1..][1..] == [];
    assert FieldsSize(Len16, inParams) == 3 + FieldsSize(Len16, inParams[1..]);
    var outParam := new Param(size, data);
    var ok := Exchange(spi, Len16, GET_DATABUF_TCP_CMD, inParams, Len16, WIFI_SOCKET_BUFFER_SIZE, outParam);
    match policy
    case AsWritten =>
      ret, newSize := outParam.len, size;
    case WriteBack =>
      ret := if ok then outParam.len else 0;
      newSize := ret;
  }

  /** What `WiFiSocketBuffer_available` exposes after a refill into a buffer that
    * held `content`. */
  function Exposed(policy: LengthPolicy, f: Bytes, content: Bytes): Bytes {
    var r := DataReply(f, WIFI_SOCKET_BUFFER_SIZE);
    var buffer := StoredFrom(r, content);
    match policy
    case AsWritten =>
      if LeftLength(r, WIFI_SOCKET_BUFFER_SIZE) != 0 then Take(buffer, WIFI_SOCKET_BUFFER_SIZE) else []
    case WriteBack =>
      Take(buffer, |Fetched(f)|)
  }

  lemma DataFits(f: Bytes)
    ensures var r := DataReply(f, WIFI_SOCKET_BUFFER_SIZE);
            |r.data| <= 1 && (r.data != [] ==> |r.data[0]| < WIFI_SOCKET_BUFFER_SIZE)
  {
    ReplyFits(Len16, GET_DATABUF_TCP_CMD, f, [WIFI_SOCKET_BUFFER_SIZE]);
  }

  /** `Exposed` in terms of what `GetDataBuf` returns. */
  lemma ExposedByLength(policy: LengthPolicy, f: Bytes, content: Bytes, ret: nat, newSize: nat, buffer: Bytes)
    requires |content| == |buffer| == WIFI_SOCKET_BUFFER_SIZE
    requires var r := DataReply(f, WIFI_SOCKET_BUFFER_SIZE);
             && (policy.AsWritten? ==>
                   ret == LeftLength(r, WIFI_SOCKET_BUFFER_SIZE) && newSize == WIFI_SOCKET_BUFFER_SIZE)
             && (policy.WriteBack? ==> ret == newSize == if r.accepted then |r.data[0]| else 0)
             && buffer == StoredFrom(r, content)
    ensures ret != 0 ==> newSize <= WIFI_SOCKET_BUFFER_SIZE && Exposed(policy, f, content) == buffer[..newSize]
    ensures ret == 0 ==> Exposed(policy, f, content) == []
  {
    DataFits(f);
  }

  /** With the write-back, exactly the received bytes show, whatever the buffer
    * held before. */
  lemma WriteBackExposesFetched(f: Bytes, content: Bytes)
    requires |content| == WIFI_SOCKET_BUFFER_SIZE
    ensures Exposed(WriteBack, f, content) == Fetched(f)
  {
    var r := DataReply(f, WIFI_SOCKET_BUFFER_SIZE);
    DataFits(f);
    if r.accepted {
      assert Stored(content, r.data[0])[..|r.data[0]|] == r.data[0];
    }
  }

  /** A valid header announces a first parameter, of length 0. */
  predicate AnnouncesNothing(f: Bytes) {
    var h := HeaderOf(GET_DATABUF_TCP_CMD, f);
    h.count.Some? && h.count.value > 0 && Raw(Len16, f, h.next) == 0
  }

  lemma LeftLengthZeroIff(f: Bytes)
    ensures LeftLength(DataReply(f, WIFI_SOCKET_BUFFER_SIZE), WIFI_SOCKET_BUFFER_SIZE) == 0 <==> AnnouncesNothing(f)
  {
    if HeaderOf(GET_DATABUF_TCP_CMD, f).count.Some? {
      ParseReads(Len16, GET_DATABUF_TCP_CMD, f, [WIFI_SOCKET_BUFFER_SIZE]);
      assert [WIFI_SOCKET_BUFFER_SIZE][..1] == [WIFI_SOCKET_BUFFER_SIZE];
    }
    hide HeaderOf, Raw, Slice;
  }

  /** As the code stands 255 bytes show, more than any reply can carry, unless the
    * reply announces an empty parameter. */
  lemma AsWrittenExposes(f: Bytes, content: Bytes)
    requires |content| == WIFI_SOCKET_BUFFER_SIZE
    ensures |Exposed(AsWritten, f, content)| == if AnnouncesNothing(f) then 0 else WIFI_SOCKET_BUFFER_SIZE
    ensures |Fetched(f)| < WIFI_SOCKET_BUFFER_SIZE
    ensures AnnouncesNothing(f) ==> Fetched(f) == []
  {
    var r := DataReply(f, WIFI_SOCKET_BUFFER_SIZE);
    assert r.accepted ==> r.data != [];
    hide DataReply, AnnouncesNothing;
    DataFits(f);
    LeftLengthZeroIff(f);
  }

  /** Which bytes: those received, a NUL, and the old storage behind it. */
  lemma AsWrittenShows(f: Bytes, content: Bytes)
    requires |content| == WIFI_SOCKET_BUFFER_SIZE && !AnnouncesNothing(f)
    ensures var r := DataReply(f, WIFI_SOCKET_BUFFER_SIZE);
            Exposed(AsWritten, f, content) ==
            if r.data == [] then content else r.data[0] + [0] + content[|r.data[0]| + 1..]
  {
    hide DataReply, AnnouncesNothing;
    DataFits(f);
    LeftLengthZeroIff(f);
  }

  /** So the bytes exposed are the bytes received exactly when a valid header
    * announces an empty first parameter. */
  lemma AsWrittenExposesFetchedIff(f: Bytes, content: Bytes)
    requires |content| == WIFI_SOCKET_BUFFER_SIZE
    ensures Exposed(AsWritten, f, content) == Fetched(f) <==> AnnouncesNothing(f)
  {
    hide Exposed, Fetched, AnnouncesNothing;
    AsWrittenExposes(f, content);
  }

  /** A case where they are not: the slave clocks out nothing, and 255 bytes of old
    * storage become readable. */
  lemma SilenceExposed(content: Bytes)
    requires |content| == WIFI_SOCKET_BUFFER_SIZE
    ensures Exposed(AsWritten, [], content) == content != Fetched([])
  {
    AcceptedIsReal(Len16, GET_DATABUF_TCP_CMD, [], [], [WIFI_SOCKET_BUFFER_SIZE]);
    WaitForUnique([], 0, START_CMD, TIMEOUT_CHAR, TIMEOUT_CHAR);
  }

  lemma TooLongForTransfer(idle: Bytes, chunk: Bytes, burst: Bytes)
    requires Silent(idle) && WIFI_SOCKET_BUFFER_SIZE <= |chunk| < Len16.Limit()
    requires Holds(burst, 0, idle) && Holds(burst, |idle|, ReplyFrame(Len16, GET_DATABUF_TCP_CMD, [chunk]))
    ensures !Parse(Len16, GET_DATABUF_TCP_CMD, Take(burst, WIFI_SOCKET_BUFFER_SIZE), [WIFI_SOCKET_BUFFER_SIZE]).accepted
  {
    var cmd, f, caps, cap := GET_DATABUF_TCP_CMD, Take(burst, WIFI_SOCKET_BUFFER_SIZE),
      [WIFI_SOCKET_BUFFER_SIZE], WIFI_SOCKET_BUFFER_SIZE;
    hide Parse, Silent, Holds, Opened;
    ReplyParts(Len16, START_CMD, cmd, [chunk], burst, |idle|);
    CutReply(Len16, START_CMD, cmd, idle, [chunk], burst, caps, 0);
    LongRead(cmd, burst, cap);
    AcceptedIsReal(Len16, cmd, f, burst, caps);
    assert Agree(f, burst, |f|);
  }

  /** One parameter read for a descriptor of `cap` bytes uses five bytes besides. */
  lemma LongRead(cmd: uint8, f: Bytes, cap: nat)
    ensures var r := Parse(Len16, cmd, f, [cap]);
            r.data != [] ==> r.used >= 6 + |r.data[0]|
  {
    if HeaderOf(cmd, f).count.Some? {
      ParseReads(Len16, cmd, f, [cap]);
      assert [cap][..1] == [cap];
    }
    hide At, Slice, Raw, Kept;
  }

  /** End to end for one refill: a framed reply of `chunk` is what the reader gets if
    * it lies, silence included, within the 255 bytes of the transfer, and otherwise the
    * reader gets nothing. */
  lemma FetchedOfFramed(idle: Bytes, chunk: Bytes, burst: Bytes)
    requires Silent(idle) && |chunk| < Len16.Limit()
    requires Holds(burst, 0, idle) && Holds(burst, |idle|, ReplyFrame(Len16, GET_DATABUF_TCP_CMD, [chunk]))
    ensures Fetched(Take(burst, WIFI_SOCKET_BUFFER_SIZE)) ==
            if |idle| + 6 + |chunk| <= WIFI_SOCKET_BUFFER_SIZE then chunk else []
  {
    hide Parse, Silent, Holds, ReplyFrame;
    DataReplyBytes(chunk);
    if |chunk| < WIFI_SOCKET_BUFFER_SIZE {
      AcceptedIffWithin(Len16, GET_DATABUF_TCP_CMD, idle, [chunk], burst,
                        WIFI_SOCKET_BUFFER_SIZE, [WIFI_SOCKET_BUFFER_SIZE]);
    } else {
      TooLongForTransfer(idle, chunk, burst);
    }
  }

  // ---------- DATA_SENT ----------

  const TIMEOUT_DATA_SENT := 25

  /** What `n` polls of DATA_SENT put on the wire. */
  function DataSentPolls(sock: uint8, n: nat): seq<Bytes> {
    if n == 0 then [] else DataSentPolls(sock, n - 1) + [SocketRequest(DATA_SENT_TCP_CMD, sock), Zeros(20)]
  }

  lemma {:induction false} DataSentPollsBytes(sock: uint8, n: nat, k: nat)
    requires k < 2 * n
    ensures |DataSentPolls(sock, n)| == 2 * n
    ensures DataSentPolls(sock, n)[k] ==
            if k % 2 == 0 then [0xE0, 0x2A, 1, 1, sock, 0, 0, 0xEE] else Zeros(20)
    decreases n
  {
    hide SocketRequest;
    SocketRequestBytes(DATA_SENT_TCP_CMD, sock);
    if k < 2 * (n - 1) {
      DataSentPollsBytes(sock, n - 1, k);
    } else if n > 1 {
      DataSentPollsBytes(sock, n - 1, 0);
    }
  }

  /** The answer to poll `k` of a series. */
  function DataSentAnswer(line: seq<Bytes>, k: nat): Bytes {
    Answer(Drop(line, 2 * k), 20)
  }

  predicate PollAnswered(line: seq<Bytes>, k: nat) {
    Answered(DATA_SENT_TCP_CMD, DataSentAnswer(line, k))
  }

  /** What poll `k` stores through a descriptor that says `cap`. */
  function DataSentReply(line: seq<Bytes>, k: nat, cap: nat): Reply {
    Parse(Len8, DATA_SENT_TCP_CMD, DataSentAnswer(line, k), [cap])
  }

  /** The capacity poll `k` finds in the descriptor the loop reuses: what the poll
    * before left there. */
  function Capacity(line: seq<Bytes>, k: nat): nat {
    if k == 0 then 1
    else
      var cap := Capacity(line, k - 1);
      LeftLength(DataSentReply(line, k - 1, cap), cap)
  }

  /** Poll `k` writes nothing beyond the one-byte object: at most a NUL. */
  predicate PollSafe(line: seq<Bytes>, k: nat) {
    var r := DataSentReply(line, k, Capacity(line, k));
    r.data == [] || |r.data[0]| + 1 <= 1
  }

  /** No two of the first `n` polls are answered. */
  predicate AnsweredOnce(line: seq<Bytes>, n: nat) {
    forall i, j | 0 <= i < j < n :: !(PollAnswered(line, i) && PollAnswered(line, j))
  }

  lemma AnsweredIsRead(w: Width, cmd: uint8, f: Bytes, cap: nat)
    ensures Parse(w, cmd, f, [cap]).data != [] <==> Answered(cmd, f)
  {
    ReachedIsRead(w, cmd, f, [cap]);
  }

  /** With a capacity of 1 a poll stores a NUL; with the 0 that this leaves, the
    * next one stores as many bytes as the length field can say, whatever it says. */
  lemma PollStores(line: seq<Bytes>, k: nat, cap: nat)
    requires cap <= 1
    ensures var r := DataSentReply(line, k, cap);
            if !PollAnswered(line, k) then r.data == []
            else r.data != [] && |r.data[0]| == if cap == 1 then 0 else 255
  {
    var f := DataSentAnswer(line, k);
    if PollAnswered(line, k) {
      ParseReads(Len8, DATA_SENT_TCP_CMD, f, [cap]);
      assert [cap][..1] == [cap];
    }
    hide HeaderOf, At, Slice, DataSentAnswer;
    AnsweredIsRead(Len8, DATA_SENT_TCP_CMD, f, cap);
  }

  /** Up to the first answer the capacity is 1, then 0 up to the second. */
  lemma {:induction false} CapacityWhileOnce(line: seq<Bytes>, k: nat)
    requires AnsweredOnce(line, k)
    ensures Capacity(line, k) == if exists i | 0 <= i < k :: PollAnswered(line, i) then 0 else 1
    decreases k
  {
    hide DataSentReply, PollAnswered;
    if k > 0 {
      CapacityWhileOnce(line, k - 1);
      PollStores(line, k - 1, Capacity(line, k - 1));
    }
  }

  lemma SafeAfterOnce(line: seq<Bytes>, k: nat)
    requires AnsweredOnce(line, k)
    ensures PollSafe(line, k) <==> AnsweredOnce(line, k + 1)
  {
    hide DataSentReply, PollAnswered;
    CapacityWhileOnce(line, k);
    PollStores(line, k, Capacity(line, k));
  }

  /** The loop with its reused descriptor stays inside the one-byte object for `n`
    * polls if and only if no two of them get an answer with a parameter. */
  lemma {:induction false} PollsSafeIff(line: seq<Bytes>, n: nat)
    ensures (forall k | 0 <= k < n :: PollSafe(line, k)) <==> AnsweredOnce(line, n)
    decreases n
  {
    hide PollSafe, PollAnswered;
    if n > 0 {
      PollsSafeIff(line, n - 1);
      if AnsweredOnce(line, n - 1) {
        SafeAfterOnce(line, n - 1);
      }
    }
  }

  /** A slave that answers twice, as it should, with a one-byte parameter. */
  lemma TwoAnswersOverflow()
    ensures var reply := ReplyFrame(Len8, DATA_SENT_TCP_CMD, [[0]]);
            !PollSafe([[], reply, [], reply], 1)
  {
    var cmd, reply := DATA_SENT_TCP_CMD, ReplyFrame(Len8, DATA_SENT_TCP_CMD, [[0]]);
    var line := [[], reply, [], reply];
    assert Fields(Len8, [[0]]) == [1, 0];
    assert reply == [START_CMD, Replying(cmd), 1, 1, 0, END_CMD];
    assert DataSentAnswer(line, 0) == DataSentAnswer(line, 1) == reply;
    HeaderAfter(cmd, [], START_CMD, 1, reply);
    assert PollAnswered(line, 0) && PollAnswered(line, 1);
    hide PollAnswered, PollSafe;
    SafeAfterOnce(line, 1);
  }

  /** One turn of the loop. */
  method Poll(spi: SpiDrv, ghost line: seq<Bytes>, ghost k: nat, sock: uint8, outParam: Param)
    requires spi.Valid() && spi.line == Drop(line, 2 * k)
    requires outParam.data.Length == 1 && outParam.data != spi.txBuffer && outParam.data[0] == 0
    requires outParam.len == 1 || (outParam.len == Capacity(line, k) && AnsweredOnce(line, k + 1))
    modifies spi, spi.txBuffer, outParam, outParam.data
    ensures spi.Valid() && spi.line == Drop(line, 2 * (k + 1))
    ensures spi.sent == old(spi.sent) + [SocketRequest(DATA_SENT_TCP_CMD, sock), Zeros(20)]
    ensures outParam.data[0] == 0
    ensures outParam.len == LeftLength(DataSentReply(line, k, old(outParam.len)), old(outParam.len))
  {
    hide Encode;
    if outParam.len != 1 {
      CapacityWhileOnce(line, k);
    }
    PollStores(line, k, outParam.len);
    BurstLater(line, 2 * k, 2, 0);
    var _ := Exchange(spi, Len8, DATA_SENT_TCP_CMD, [[sock]], Len8, 20, outParam);
  }

  /** What becomes of the descriptor between two polls: as written it keeps the
    * length the last receive left in it. */
  datatype DescriptorPolicy = Reused | Restored

  /** `ServerDrv_checkDataSent`, as written for the replies it is safe with, and for
    * all replies with the capacity restored before each poll. Since a one-byte
    * object never receives its byte, every poll reads 0 and the loop runs out. */
  method CheckDataSent(spi: SpiDrv, policy: DescriptorPolicy, sock: uint8) returns (sent: bool)
    requires spi.Valid()
    requires policy.Reused? ==> AnsweredOnce(spi.line, TIMEOUT_DATA_SENT)
    modifies spi, spi.txBuffer
    ensures spi.Valid() && spi.line == Drop(old(spi.line), 2 * TIMEOUT_DATA_SENT)
    ensures spi.sent == old(spi.sent) + DataSentPolls(sock, TIMEOUT_DATA_SENT)
    ensures !sent
  {
    hide Encode, DataSentReply, PollAnswered;
    ghost var line := spi.line;
    var timeout := 0;
    var response := new uint8[1] [0];
    var outParam := new Param(1, response);
    while true
      invariant 0 <= timeout < TIMEOUT_DATA_SENT
      invariant spi.Valid() && spi.line == Drop(line, 2 * timeout)
      invariant spi.sent == old(spi.sent) + DataSentPolls(sock, timeout)
      invariant response[0] == 0 && fresh(response) && fresh(outParam) && outParam.data == response
      invariant policy.Reused? ==> outParam.len == Capacity(line, timeout)
      decreases TIMEOUT_DATA_SENT - timeout
    {
      if policy.Restored? {
        outParam.len := 1;
      }
      Poll(spi, line, timeout, sock, outParam);
      if response[0] != 0 {
        timeout := 0;
      } else {
        timeout := timeout + 1;
      }
      if !(response[0] == 0 && timeout < TIMEOUT_DATA_SENT) {
        break;
      }
    }
    sent := timeout != TIMEOUT_DATA_SENT;
  }
}
