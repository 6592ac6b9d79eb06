/** The driver object: its transmit buffer, the receive FIFO of the SPI block, and
  * the slave at the other end of the wire. */
module SpiDrv {
  import opened Wire
  import opened Frame
  import opened Receiver

  // ---------- The bus as a value ----------

  /** `line` holds what the slave will clock out, one entry a transfer. A transfer
    * of `n` bytes brings at most `n` of them into the FIFO. */
  datatype Bus = Bus(rx: Bytes, line: seq<Bytes>)

  function Burst(line: seq<Bytes>, k: nat, n: nat): Bytes {
    if k < |line| then Take(line[k], n) else []
  }

  /** A transfer of `n` bytes brings the first `n` of the slave's burst, or all of it. */
  lemma BurstExact(line: seq<Bytes>, k: nat, n: nat)
    ensures var b := Burst(line, k, n);
            && (k >= |line| ==> b == [])
            && (k < |line| ==> b <= line[k] && |b| == Min(n, |line[k]|))
  {
  }

  function Cleared(b: Bus): Bus {
    b.(rx := [])
  }

  function Filled(b: Bus, n: nat): Bus {
    Bus(b.rx + Burst(b.line, 0, n), Drop(b.line, 1))
  }

  /** Both send and receive clear the FIFO before the transfer that fills it. */
  function Clocked(b: Bus, n: nat): Bus {
    Filled(Cleared(b), n)
  }

  lemma ClockedFromLine(b: Bus, n: nat)
    ensures Clocked(b, n) == Bus(Burst(b.line, 0, n), Drop(b.line, 1))
  {
    assert [] + Burst(b.line, 0, n) == Burst(b.line, 0, n);
  }

  /** A command and the receive that follows it, as the drivers issue them. */
  datatype Transaction = Transaction(
    w: Width, cmd: uint8, params: seq<Bytes>,
    replyWidth: Width, maxSize: nat, caps: seq<nat>)

  function ReplyTo(b: Bus, t: Transaction): (Reply, Bus)
    requires |t.caps| < 0x100
  {
    var c := Clocked(Clocked(b, |Encode(t.w, t.cmd, t.params)|), Min(t.maxSize, SPI_MAX_BUFFER));
    var r := Parse(t.replyWidth, t.cmd, c.rx, t.caps);
    (r, Bus(Drop(c.rx, r.used), c.line))
  }

  function Replies(b: Bus, ts: seq<Transaction>): seq<Reply>
    requires forall t | t in ts :: |t.caps| < 0x100
    decreases ts
  {
    if ts == [] then []
    else
      var (r, c) := ReplyTo(b, ts[0]);
      [r] + Replies(c, ts[1..])
  }

  /** No cross-talk: the `k`-th of a sequence of transactions decodes exactly the
    * bytes clocked in during its own receive phase. Leftovers of earlier replies,
    * bytes clocked in while sending and the initial FIFO make no difference. */
  lemma {:induction false} NoCrossTalk(b: Bus, ts: seq<Transaction>, k: nat)
    requires k < |ts| && forall t | t in ts :: |t.caps| < 0x100
    ensures |Replies(b, ts)| > k
    ensures var t := ts[k];
            Replies(b, ts)[k] ==
            Parse(t.replyWidth, t.cmd, Burst(b.line, 2 * k + 1, Min(t.maxSize, SPI_MAX_BUFFER)), t.caps)
    decreases k
  {
    hide Parse, Encode, Burst, Drop, Clocked, Filled, Cleared;
    var n := |Encode(ts[0].w, ts[0].cmd, ts[0].params)|;
    var m := Min(ts[0].maxSize, SPI_MAX_BUFFER);
    ClockedFromLine(b, n);
    ClockedFromLine(Clocked(b, n), m);
    BurstLater(b.line, 1, 0, m);
    BurstLater(b.line, 1, 1, 0);
    var (r, c) := ReplyTo(b, ts[0]);
    if k > 0 {
      NoCrossTalk(c, ts[1..], k - 1);
      BurstLater(b.line, 2, 2 * k - 1, Min(ts[k].maxSize, SPI_MAX_BUFFER));
    }
  }

  lemma BurstLater(line: seq<Bytes>, d: nat, k: nat, n: nat)
    ensures Burst(Drop(line, d), k, n) == Burst(line, d + k, n)
    ensures Drop(Drop(line, d), k) == Drop(line, d + k)
  {
  }

  // ---------- Parameter descriptors ----------

  /** `tParam` and `tDataParam`: a length and a pointer to storage. */
  class Param {
    var len: nat
    const data: array<uint8>

    constructor (len: nat, data: array<uint8>)
      ensures this.len == len && this.data == data
    {
      this.len, this.data := len, data;
    }
  }

  ghost function Caps(params: seq<Param>): (c: seq<nat>)
    reads params
    ensures |c| == |params| && forall i | 0 <= i < |c| :: c[i] == params[i].len
  {
    seq(|params|, i requires 0 <= i < |params| reads params => params[i].len)
  }

  /** The descriptor has storage for all that its length lets the receiver write. */
  ghost predicate Roomy(w: Width, p: Param)
    reads p
  {
    Room(w, p.len) <= p.data.Length && p.len < w.Limit()
  }

  /** What the receiver needs of its caller: descriptors apart from each other, the
    * first `n` of them, which the reply reaches, with the storage they claim. */
  ghost predicate Receivable(w: Width, params: seq<Param>, n: nat)
    reads params
  {
    && n <= |params| < 0x100
    && Separate(params)
    && (forall i | 0 <= i < n :: Roomy(w, params[i]))
  }

  ghost predicate Separate(params: seq<Param>) {
    forall i, j | 0 <= i < j < |params| :: params[i] != params[j] && params[i].data != params[j].data
  }

  /** Storage `held` after the parameter `d` and its NUL were written to it. */
  function Stored(held: Bytes, d: Bytes): Bytes {
    Overwrite(held, d + [0])
  }

  /** A descriptor and its storage, as values. */
  datatype Cell = Cell(len: nat, bytes: Bytes)

  ghost function Memory(params: seq<Param>): (m: seq<Cell>)
    reads params, set p | p in params :: p.data
    ensures |m| == |params|
    ensures forall i | 0 <= i < |m| :: m[i] == Cell(params[i].len, params[i].data[..])
  {
    seq(|params|, i requires 0 <= i < |params| reads params, set p | p in params :: p.data =>
      Cell(params[i].len, params[i].data[..]))
  }

  /** The receiver's writes: parameter `i` into descriptor `i`, the others
    * untouched. */
  function Written(mem: seq<Cell>, data: seq<Bytes>): (m: seq<Cell>)
    ensures |m| == |mem|
    ensures forall i | 0 <= i < |m| ::
              m[i] == if i < |data| then Cell(|data[i]|, Stored(mem[i].bytes, data[i])) else mem[i]
  {
    seq(|mem|, i requires 0 <= i < |mem| =>
      if i < |data| then Cell(|data[i]|, Stored(mem[i].bytes, data[i])) else mem[i])
  }

  /** The parameter loop that began at `p0`, after `done`: the rest starts at `p`. */
  ghost predicate Resumes(w: Width, f: Bytes, p0: nat, caps: seq<nat>, done: seq<Bytes>, p: nat) {
    |done| <= |caps| &&
    var r := ReadFields(w, f, p, caps[|done|..]);
    ReadFields(w, f, p0, caps) == FieldsRead(done + r.data, r.next)
  }

  lemma ResumeStep(w: Width, f: Bytes, p0: nat, caps: seq<nat>, done: seq<Bytes>, p: nat)
    requires Resumes(w, f, p0, caps, done, p) && |done| < |caps|
    ensures var d := Slice(f, p + w.Size(), Kept(w, Raw(w, f, p), caps[|done|]));
            Resumes(w, f, p0, caps, done + [d], p + w.Size() + |d|)
  {
    hide Slice, Kept, Raw;
    assert caps[|done|..][1..] == caps[|done| + 1..];
    var d := Slice(f, p + w.Size(), Kept(w, Raw(w, f, p), caps[|done|]));
    var r := ReadFields(w, f, p + w.Size() + |d|, caps[|done| + 1..]);
    assert done + ([d] + r.data) == done + [d] + r.data;
  }

  lemma ResumeEnds(w: Width, f: Bytes, p0: nat, caps: seq<nat>, done: seq<Bytes>, p: nat)
    ensures done == [] && p == p0 ==> Resumes(w, f, p0, caps, done, p)
    ensures Resumes(w, f, p0, caps, done, p) && |done| == |caps| ==>
              ReadFields(w, f, p0, caps) == FieldsRead(done, p)
  {
    assert caps[0..] == caps;
    assert [] + ReadFields(w, f, p0, caps).data == ReadFields(w, f, p0, caps).data;
  }

  /** Reading from what is left is reading further on. */
  lemma Further(f: Bytes, p: nat, a: nat, n: nat)
    ensures Slice(Drop(f, p), a, n) == Slice(f, p + a, n)
    ensures Drop(Drop(f, p), n) == Drop(f, p + n)
    ensures At(Drop(f, p), 0) == At(f, p)
    ensures forall w: Width :: Raw(w, Drop(f, p), 0) == Raw(w, f, p)
  {
  }

  /** Receiver safety, for any FIFO content: every stored parameter is shorter than
    * its capacity (than the wrapped one, if that is 0), its bytes and one NUL are all
    * that was written, descriptors past the last parameter read are untouched, and
    * what was not read is still there. Only descriptors reached need storage. */
  lemma WritesStayInside(w: Width, cmd: uint8, f: Bytes, mem: seq<Cell>, caps: seq<nat>)
    requires |mem| == |caps| < 0x100
    requires forall i | 0 <= i < |mem| :: mem[i].len == caps[i] < w.Limit()
    requires forall i | 0 <= i < Reached(cmd, f, |caps|) :: Room(w, caps[i]) <= |mem[i].bytes|
    ensures var r := Parse(w, cmd, f, caps);
            var m := Written(mem, r.data);
            && |m| == |mem|
            && (forall i | 0 <= i < |r.data| ::
                  && m[i].len < Room(w, caps[i])
                  && |m[i].bytes| == |mem[i].bytes|
                  && m[i].bytes[..m[i].len] == r.data[i]
                  && m[i].bytes[m[i].len] == 0
                  && m[i].bytes[m[i].len + 1..] == mem[i].bytes[m[i].len + 1..])
            && (forall i | |r.data| <= i < |m| :: m[i] == mem[i])
            && (r.count == None ==> m == mem)
            && Take(f, r.used) + Drop(f, r.used) == f
  {
    hide Parse, Reached, Room;
    ReachedIsRead(w, cmd, f, caps);
    ReplyFits(w, cmd, f, caps);
  }

  lemma WrittenNothing(mem: seq<Cell>)
    ensures Written(mem, []) == mem
  {
  }

  lemma WrittenStep(mem: seq<Cell>, done: seq<Bytes>, d: Bytes)
    requires |done| < |mem|
    ensures Written(mem, done + [d]) ==
            Written(mem, done)[|done| := Cell(|d|, Stored(mem[|done|].bytes, d))]
  {
  }

  class SpiDrv {
    const txBuffer: array<uint8>
    var rx: Bytes
    var line: seq<Bytes>
    ghost var sent: seq<Bytes> // every transfer clocked out so far

    ghost predicate Valid()
      reads this
    {
      txBuffer.Length == SPI_MAX_BUFFER
    }

    ghost function View(): Bus
      reads this
    {
      Bus(rx, line)
    }

    constructor (line: seq<Bytes>)
      ensures Valid() && fresh(txBuffer)
      ensures View() == Bus([], line) && sent == []
    {
      txBuffer := new uint8[SPI_MAX_BUFFER];
      rx, this.line, sent := [], line, [];
    }

    // ---------- Sending ----------

    method PutField(w: Width, j: nat, d: Bytes) returns (k: nat)
      requires Valid() && |d| < w.Limit() && j + w.Size() + |d| <= txBuffer.Length
      modifies txBuffer
      ensures k == j + w.Size() + |d|
      ensures txBuffer[..k] == old(txBuffer[..j]) + w.Put(|d|) + d
    {
      k := j;
      if w.Len16? {
        txBuffer[k] := |d| / 0x100 % 0x100;
        k := k + 1;
      }
      txBuffer[k] := |d| % 0x100;
      k := k + 1;
      ghost var head := txBuffer[..k];
      assert head == old(txBuffer[..j]) + w.Put(|d|);
      for i := 0 to |d|
        invariant txBuffer[..k + i] == head + d[..i]
      {
        txBuffer[k + i] := d[i];
      }
      k := k + |d|;
    }

    /** The header and the parameter loop of both senders. */
    method PutFields(w: Width, op: uint8, ps: seq<Bytes>) returns (j: nat)
      requires Valid() && Sendable(w, ps) && 3 + FieldsSize(w, ps) <= 251
      modifies txBuffer
      ensures j == 3 + FieldsSize(w, ps) && txBuffer[..j] == Unpadded(w, op, ps)
    {
      txBuffer[0], txBuffer[1], txBuffer[2] := START_CMD, op, |ps|;
      ghost var h := [START_CMD, op, |ps|];
      j := 3;
      assert ps[..0] == [] && Fields(w, []) == [] && FieldsSize(w, []) == 0 && ps[..|ps|] == ps;
      hide Fields, FieldsSize;
      for i := 0 to |ps|
        invariant j == 3 + FieldsSize(w, ps[..i])
        invariant j <= txBuffer.Length && txBuffer[..j] == h + Fields(w, ps[..i])
      {
        FieldsGrow(w, h, ps, i);
        j := PutField(w, j, ps[i]);
      }
    }

    /** The padding loop and the END byte of both senders. */
    method PutClosing(j0: nat) returns (j: nat)
      requires Valid() && j0 + 4 <= txBuffer.Length
      modifies txBuffer
      ensures j == j0 + |Closing(j0)| && txBuffer[..j] == old(txBuffer[..j0]) + Closing(j0)
    {
      j := j0;
      while j % 4 != 3
        invariant j0 <= j <= j0 + Padding(j0)
        invariant txBuffer[..j] == old(txBuffer[..j0]) + Zeros(j - j0)
        decreases j0 + Padding(j0) - j
      {
        txBuffer[j] := 0;
        j := j + 1;
      }
      txBuffer[j] := END_CMD;
      j := j + 1;
    }

    method FillFrame(w: Width, cmd: uint8, ps: seq<Bytes>) returns (j: nat)
      requires Valid() && Sendable(w, ps) && 3 + FieldsSize(w, ps) <= 251
      modifies txBuffer
      ensures j <= txBuffer.Length && txBuffer[..j] == Encode(w, cmd, ps)
    {
      j := PutFields(w, Request(cmd), ps);
      j := PutClosing(j);
    }

    /** `SPIM_WIFI_PutArray` and the wait for its completion: the first `n` bytes
      * go out while the slave's next burst comes in. */
    method Transfer(n: nat)
      requires Valid() && n <= txBuffer.Length
      modifies this`rx, this`line, this`sent
      ensures rx == old(rx) + Burst(old(line), 0, n) && line == Drop(old(line), 1)
      ensures sent == old(sent) + [txBuffer[..n]]
    {
      if line != [] {
        rx := rx + Take(line[0], n);
        line := line[1..];
      }
      sent := sent + [txBuffer[..n]];
    }

    /** `SpiDrv_sendCmd` (8-bit lengths) and `SpiDrv_sendBuffer` (16-bit). */
    method Send(w: Width, cmd: uint8, ps: seq<Bytes>)
      requires Valid() && Sendable(w, ps) && 3 + FieldsSize(w, ps) <= 251
      modifies this, txBuffer
      ensures Valid()
      ensures sent == old(sent) + [Encode(w, cmd, ps)]
      ensures View() == Clocked(old(View()), |Encode(w, cmd, ps)|)
    {
      var j := FillFrame(w, cmd, ps);
      rx := [];
      Transfer(j);
    }

    // ---------- Receiving ----------

    method ReadChar() returns (c: uint8)
      modifies this`rx
      ensures |old(rx)| == 0 ==> c == 0
      ensures c == At(old(rx), 0) && rx == Drop(old(rx), 1)
    {
      if |rx| == 0 {
        return 0;
      }
      c := rx[0];
      rx := rx[1..];
    }

    /** `SpiDrv_waitSpiChar`: 1, -1 or 0. */
    method WaitSpiChar(waitChar: uint8) returns (r: int)
      modifies this`rx
      ensures var s := WaitFor(old(rx), 0, waitChar, TIMEOUT_CHAR);
              && rx == Drop(old(rx), s.next)
              && r == (match s.outcome case Found => 1 case Error => -1 case TimedOut => 0)
    {
      ghost var f, p: nat := rx, 0;
      var timeout: int := TIMEOUT_CHAR;
      var c := 0;
      while true
        invariant 0 <= timeout && rx == Drop(f, p)
        invariant WaitFor(f, p, waitChar, timeout) == WaitFor(f, 0, waitChar, TIMEOUT_CHAR)
        decreases timeout
      {
        c := ReadChar();
        p := p + 1;
        if c == ERR_CMD {
          return -1;
        }
        timeout := timeout - 1;
        if !(timeout + 1 > 0 && c != waitChar) {
          break;
        }
      }
      r := if c == waitChar then 1 else 0;
    }

    method ReadLength(w: Width) returns (len: nat)
      modifies this`rx
      ensures len == Raw(w, old(rx), 0) && rx == Drop(old(rx), w.Size())
    {
      len := ReadChar();
      if w.Len16? {
        var low := ReadChar();
        len := len * 0x100 + low;
      }
    }

    /** `len` bytes from the FIFO into `data`, then a NUL. */
    method StoreBytes(data: array<uint8>, len: nat)
      requires len < data.Length
      modifies this`rx, data
      ensures rx == Drop(old(rx), len)
      ensures data[..] == Stored(old(data[..]), Slice(old(rx), 0, len))
    {
      ghost var f, held := rx, data[..];
      for j := 0 to len
        invariant rx == Drop(f, j)
        invariant forall k | 0 <= k < j :: data[k] == At(f, k)
        invariant forall k | j <= k < data.Length :: data[k] == held[k]
      {
        var c := ReadChar();
        data[j] := c;
      }
      data[len] := 0;
      assert data[..len] == Slice(f, 0, len);
      assert data[len + 1..] == held[len + 1..];
      assert data[..] == data[..len] + [data[len]] + data[len + 1..];
    }

    /** One turn of the parameter loop. */
    method ReadParam(w: Width, params: seq<Param>, i: nat)
      requires i < |params| && Separate(params) && Roomy(w, params[i])
      modifies this`rx, params[i], params[i].data
      ensures var mem := old(Memory(params));
              var n := Kept(w, Raw(w, old(rx), 0), mem[i].len);
              && rx == Drop(old(rx), w.Size() + n)
              && Memory(params) == mem[i := Cell(n, Stored(mem[i].bytes, Slice(old(rx), w.Size(), n)))]
    {
      hide Memory, Stored, Overwrite, Slice, Raw, Drop, At;
      var param := params[i];
      ghost var f, mem := rx, Memory(params);
      var len := ReadLength(w);
      if len >= param.len {
        len := (param.len - 1) % w.Limit();
      }
      Further(f, w.Size(), 0, len);
      StoreBytes(param.data, len);
      param.len := len;
      assert forall k | 0 <= k < |params| && k != i :: Memory(params)[k] == mem[k];
    }

    /** The parameter loop. */
    method ReadParams(w: Width, params: seq<Param>, n: nat, ghost f: Bytes, ghost p0: nat)
      requires Receivable(w, params, n) && rx == Drop(f, p0)
      modifies this`rx, params, set p | p in params :: p.data
      ensures var r := ReadFields(w, f, p0, old(Caps(params))[..n]);
              && rx == Drop(f, r.next)
              && Memory(params) == Written(old(Memory(params)), r.data)
    {
      hide Memory, Stored, Overwrite, Slice, Kept, Raw, ReadFields, Caps, Resumes, Written, Drop, At;
      ghost var mem, caps := Memory(params), Caps(params)[..n];
      ghost var done: seq<Bytes>, p: nat := [], p0;
      assert forall k | 0 <= k < n ::
          mem[k].len == caps[k] < w.Limit() && Room(w, caps[k]) <= params[k].data.Length;
      ResumeEnds(w, f, p0, caps, done, p);
      WrittenNothing(mem);
      hide Receivable, Separate, Room;
      for i := 0 to n
        invariant |done| == i && rx == Drop(f, p)
        invariant Resumes(w, f, p0, caps, done, p)
        invariant Memory(params) == Written(mem, done)
      {
        assert params[i] in params && params[i].len == Memory(params)[i].len == mem[i].len == caps[i];
        ghost var d := Slice(f, p + w.Size(), Kept(w, Raw(w, f, p), caps[i]));
        ResumeStep(w, f, p0, caps, done, p);
        Further(f, p, w.Size(), |d|);
        Further(f, p, 0, w.Size() + |d|);
        ReadParam(w, params, i);
        WrittenStep(mem, done, d);
        done, p := done + [d], p + w.Size() + |d|;
      }
      ResumeEnds(w, f, p0, caps, done, p);
    }

    method ReadHeader(cmd: uint8) returns (count: Option<uint8>)
      modifies this`rx
      ensures HeaderOf(cmd, old(rx)).count == count
      ensures rx == Drop(old(rx), HeaderOf(cmd, old(rx)).next)
    {
      var sync := WaitSpiChar(START_CMD);
      if sync == 0 {
        return None;
      }
      var data := ReadChar();
      if data != Replying(cmd) {
        return None;
      }
      var numParam := ReadChar();
      count := Some(numParam);
    }

    /** The parameters and the byte that should be END. */
    method ReadBody(w: Width, params: seq<Param>, n: nat, ghost f: Bytes, ghost p0: nat) returns (ok: bool)
      requires Receivable(w, params, n) && rx == Drop(f, p0)
      modifies this`rx, params, set p | p in params :: p.data
      ensures var r := ReadFields(w, f, p0, old(Caps(params))[..n]);
              && ok == (At(f, r.next) == END_CMD)
              && rx == Drop(f, r.next + 1)
              && Memory(params) == Written(old(Memory(params)), r.data)
    {
      hide Memory, Written, Stored, Overwrite, Caps, ReadFields, Drop, At;
      assert n <= |params|;
      hide Receivable, Separate;
      ghost var r := ReadFields(w, f, p0, Caps(params)[..n]);
      ReadParams(w, params, n, f, p0);
      Further(f, r.next, 0, 1);
      var data := ReadChar();
      ok := data == END_CMD;
    }

    /** The receiver once the bytes are in: header, parameters, END. */
    method ParseReply(w: Width, cmd: uint8, params: seq<Param>) returns (ok: bool, numParamRead: Option<uint8>)
      requires Receivable(w, params, Reached(cmd, rx, |params|))
      modifies this`rx, params, set p | p in params :: p.data
      ensures var r := Parse(w, cmd, old(rx), old(Caps(params)));
              && ok == r.accepted && numParamRead == r.count
              && rx == Drop(old(rx), r.used)
              && Memory(params) == Written(old(Memory(params)), r.data)
    {
      hide Memory, Written, Stored, Overwrite, Caps, ReadFields, HeaderOf, Drop, At;
      assert |params| < 0x100;
      hide Receivable, Separate;
      ghost var f, mem, caps := rx, Memory(params), Caps(params);
      ghost var next := HeaderOf(cmd, f).next;
      WrittenNothing(mem);
      var count := ReadHeader(cmd);
      assert Caps(params) == caps && Memory(params) == mem;
      if count.None? {
        return false, None;
      }
      var numParam := Min(count.value, |params|);
      numParamRead := Some(numParam);
      if numParam == 0 {
        return false, numParamRead;
      }
      ParseReads(w, cmd, f, caps);
      hide Parse;
      ok := ReadBody(w, params, numParam, f, next);
    }

    /** `SpiDrv_receiveResponseCmd` (8-bit lengths) and
      * `SpiDrv_receiveResponseBuffer` (16-bit), for a caller with `|params|`
      * descriptors. `numParamRead` is what is stored through that pointer. */
    method Receive(w: Width, cmd: uint8, maxSize: uint16, params: seq<Param>)
      returns (ok: bool, numParamRead: Option<uint8>)
      requires Valid()
      requires Receivable(w, params, Reached(cmd, Clocked(View(), Min(maxSize, SPI_MAX_BUFFER)).rx, |params|))
      requires forall i | 0 <= i < |params| :: params[i].data != txBuffer
      modifies this, txBuffer, params, set p | p in params :: p.data
      ensures Valid()
      ensures sent == old(sent) + [Zeros(Min(maxSize, SPI_MAX_BUFFER))]
      ensures var b := Clocked(old(View()), Min(maxSize, SPI_MAX_BUFFER));
              var r := Parse(w, cmd, b.rx, old(Caps(params)));
              && ok == r.accepted && numParamRead == r.count
              && View() == Bus(Drop(b.rx, r.used), b.line)
              && Memory(params) == Written(old(Memory(params)), r.data)
    {
      hide Memory, Written, Caps, Parse;
      var size := Min(maxSize, SPI_MAX_BUFFER);
      rx := [];
      for i := 0 to size
        invariant forall k | 0 <= k < i :: txBuffer[k] == 0
        modifies txBuffer
      {
        txBuffer[i] := 0;
      }
      assert txBuffer[..size] == Zeros(size);
      Transfer(size);
      assert Caps(params) == old(Caps(params)) && Memory(params) == old(Memory(params));
      ok, numParamRead := ParseReply(w, cmd, params);
    }
  }
}
