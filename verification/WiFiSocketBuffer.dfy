/** The ten socket buffers: `data`, `head` and `length` updated in place, the
  * storage allocated on first use and freed by `Close`. */
module WiFiSocketBuffer {
  import opened Wire
  import opened SpiDrv
  import opened ServerDrv
  import opened SocketStream

  const INT_MAX: nat := 0x7FFF_FFFF

  /** `WiFiSocketBuffer_t`: `head` is the pointer into `data`, as an index. */
  datatype Slot = Slot(data: array?<uint8>, head: Option<nat>, length: int)

  const EMPTY_SLOT := Slot(null, None, 0)

  /** `memcpy(dst, &src[from], n)` */
  method CopyBytes(dst: array<uint8>, src: array<uint8>, from: nat, n: nat)
    requires dst != src && n <= dst.Length && from + n <= src.Length
    modifies dst
    ensures dst[..] == Overwrite(old(dst[..]), src[from..from + n])
  {
    for i := 0 to n
      invariant dst[..i] == src[from..from + i] && dst[i..] == old(dst[..])[i..]
    {
      dst[i] := src[from + i];
    }
    assert dst[..] == dst[..n] + dst[n..];
  }

  class WiFiSocketBuffer {
    const spi: SpiDrv
    const policy: LengthPolicy
    const buffers: array<Slot>
    ghost var Repr: set<object>

    ghost predicate SlotValid(b: Slot)
      reads this
    {
      && (b.data == null <==> b.head.None?)
      && 0 <= b.length
      && (b.data == null ==> b.length == 0)
      && (b.data != null ==>
            && b.data in Repr
            && b.data != spi.txBuffer
            && b.data.Length == WIFI_SOCKET_BUFFER_SIZE
            && b.head.value + b.length <= b.data.Length)
    }

    ghost predicate Valid()
      reads this, Repr
    {
      && {this, spi, spi.txBuffer, buffers} <= Repr
      && spi.Valid()
      && buffers.Length == WIFI_MAX_SOCK_NUM
      && (forall s | 0 <= s < WIFI_MAX_SOCK_NUM :: SlotValid(buffers[s]))
      && (forall s, t | 0 <= s < t < WIFI_MAX_SOCK_NUM && buffers[s].data != null :: buffers[s].data != buffers[t].data)
    }

    /** The bytes buffered for socket `s`. */
    ghost function View(s: Socket): Bytes
      requires Valid()
      reads this, Repr
    {
      var b := buffers[s];
      if b.data == null then [] else b.data[b.head.value..b.head.value + b.length]
    }

    ghost function Contents(): (st: State)
      requires Valid()
      reads this, Repr
      ensures st.line == spi.line && st.sent == spi.sent
      ensures forall s | 0 <= s < WIFI_MAX_SOCK_NUM :: st.views[s] == View(s)
    {
      var views := seq(WIFI_MAX_SOCK_NUM,
                       s requires 0 <= s < WIFI_MAX_SOCK_NUM && Valid() reads this, Repr => View(s));
      State(spi.line, views, spi.sent)
    }

    /** `WiFiSocketBuffer_init` over the zeroed static array. */
    constructor (spi: SpiDrv, policy: LengthPolicy)
      requires spi.Valid()
      ensures Valid() && fresh(Repr - {spi, spi.txBuffer})
      ensures this.spi == spi && this.policy == policy
      ensures Contents() == State(spi.line, seq(WIFI_MAX_SOCK_NUM, _ => []), spi.sent)
    {
      this.spi, this.policy := spi, policy;
      buffers := new Slot[WIFI_MAX_SOCK_NUM](_ => EMPTY_SLOT);
      new;
      Repr := {this, spi, spi.txBuffer, buffers};
    }

    /** Socket `s` has storage, that of `was` if it had any, and every other slot is as
      * in `was`. */
    ghost predicate SlotReady(s: Socket, was: seq<Slot>)
      requires Valid()
      reads this, Repr
    {
      && |was| == WIFI_MAX_SOCK_NUM
      && buffers[s].data != null
      && (was[s].data != null ==> buffers[s].data == was[s].data)
      && (forall t | 0 <= t < WIFI_MAX_SOCK_NUM && t != s :: buffers[t] == was[t])
    }

    method Close(s: Socket)
      requires Valid()
      modifies buffers
      ensures Valid()
      ensures Contents() == old(Contents()).(views := old(Contents()).views[s := []])
      ensures buffers[s].data == null
      ensures forall t | 0 <= t < WIFI_MAX_SOCK_NUM && t != s :: buffers[t] == old(buffers[t])
    {
      if buffers[s].data != null {
        buffers[s] := EMPTY_SLOT;
      }
    }

    method Deinit()
      requires Valid()
      modifies buffers
      ensures Valid()
      ensures Contents() == State(old(spi.line), seq(WIFI_MAX_SOCK_NUM, _ => []), old(spi.sent))
      ensures forall s | 0 <= s < WIFI_MAX_SOCK_NUM :: buffers[s].data == null
    {
      for i := 0 to buffers.Length
        invariant Valid() && Contents().line == old(spi.line) && Contents().sent == old(spi.sent)
        invariant forall s | 0 <= s < i :: Contents().views[s] == [] && buffers[s].data == null
      {
        Close(i);
      }
    }

    /** `malloc`: fresh storage of arbitrary content, nothing buffered in it. */
    method Allocate(s: Socket)
      requires Valid() && buffers[s].data == null
      modifies buffers, `Repr
      ensures Valid() && fresh(Repr - old(Repr)) && old(Repr) <= Repr
      ensures buffers[s].length == 0 && SlotReady(s, old(buffers[..]))
      ensures Contents() == old(Contents())
    {
      var data := new uint8[WIFI_SOCKET_BUFFER_SIZE];
      buffers[s] := Slot(data, Some(0), 0);
      Repr := Repr + {data};
    }

    /** Moves head and length of an allocated buffer. */
    method Point(s: Socket, head: nat, length: nat)
      requires Valid() && buffers[s].data != null
      requires head + length <= WIFI_SOCKET_BUFFER_SIZE
      modifies buffers
      ensures Valid()
      ensures buffers[s] == Slot(old(buffers[s].data), Some(head), length) && SlotReady(s, old(buffers[..]))
      ensures Contents() == old(Contents()).(
                views := old(Contents()).views[s := old(buffers[s].data)[head..head + length]])
    {
      buffers[s] := buffers[s].(head := Some(head), length := length);
      assert forall t | 0 <= t < WIFI_MAX_SOCK_NUM && t != s :: View(t) == old(View(t));
    }

    /** The exchange that refills an empty, allocated buffer. */
    method Refill(s: Socket) returns (ghost stale: Bytes)
      requires Valid() && buffers[s].data != null && buffers[s].length == 0
      modifies Repr
      ensures Valid() && Repr == old(Repr) && SlotReady(s, old(buffers[..]))
      ensures |stale| == WIFI_SOCKET_BUFFER_SIZE && stale == old(buffers[s].data[..])
      ensures Contents() == Refilled(policy, old(Contents()), s, stale)
      ensures buffers[s].length == |Contents().views[s]|
    {
      hide Exposed, DataReply, LeftLength, Stored, DataRequest;
      ghost var st := Contents();
      var data := buffers[s].data;
      stale := data[..];
      var ret, size := GetDataBuf(spi, policy, s, data, WIFI_SOCKET_BUFFER_SIZE);
      ExposedByLength(policy, Burst(st.line, 1, 255), stale, ret, size, data[..]);
      assert forall t | 0 <= t < WIFI_MAX_SOCK_NUM :: View(t) == st.views[t];
      assert Contents() == Exchanged(st, s, st.views[s]).(views := st.views);
      if ret != 0 {
        Point(s, 0, size);
      } else {
        assert st.views[s := []] == st.views;
      }
    }

    method Available(s: Socket) returns (n: nat, ghost stale: Bytes)
      requires Valid()
      modifies Repr
      ensures Valid() && fresh(Repr - old(Repr)) && SlotReady(s, old(buffers[..]))
      ensures |stale| == WIFI_SOCKET_BUFFER_SIZE
      ensures old(buffers[s].data) != null && old(buffers[s].length) == 0 ==> stale == old(buffers[s].data[..])
      ensures Contents() == Refilled(policy, old(Contents()), s, stale)
      ensures n == |Contents().views[s]|
    {
      hide Exposed;
      stale := Zeros(255);
      if buffers[s].length == 0 {
        if buffers[s].data == null {
          Allocate(s);
        }
        stale := Refill(s);
      }
      n := buffers[s].length;
    }

    method Peek(s: Socket) returns (r: int, ghost stale: Bytes)
      requires Valid()
      modifies Repr
      ensures Valid() && fresh(Repr - old(Repr)) && SlotReady(s, old(buffers[..]))
      ensures |stale| == WIFI_SOCKET_BUFFER_SIZE
      ensures var o := StepWith(policy, old(Contents()), Act(Op.Peek(s), stale));
              Contents() == o.st && r == o.result
    {
      hide Exposed, Refilled;
      var n;
      n, stale := Available(s);
      if n == 0 {
        return -1, stale;
      }
      r := buffers[s].data[buffers[s].head.value];
    }

    /** `memcpy` from the head into a buffer outside. */
    method CopyOut(s: Socket, data: array<uint8>, n: nat)
      requires Valid() && buffers[s].data != null && n <= |View(s)|
      requires n <= data.Length && data !in Repr
      modifies data
      ensures Valid() && Contents() == old(Contents())
      ensures forall t | 0 <= t < WIFI_MAX_SOCK_NUM :: View(t) == old(View(t))
      ensures data[..] == Overwrite(old(data[..]), old(View(s))[..n])
    {
      hide Overwrite;
      var b := buffers[s];
      assert b.data[b.head.value..b.head.value + n] == View(s)[..n];
      CopyBytes(data, b.data, b.head.value, n);
      assert forall t | 0 <= t < WIFI_MAX_SOCK_NUM :: View(t) == old(View(t));
    }

    /** Copies out, then the head moves on. */
    method Consume(s: Socket, data: array<uint8>, n: nat)
      requires Valid() && buffers[s].data != null && n <= |View(s)|
      requires n <= data.Length && data !in Repr
      modifies buffers, data
      ensures Valid() && SlotReady(s, old(buffers[..]))
      ensures Contents() == old(Contents()).(views := old(Contents()).views[s := old(View(s))[n..]])
      ensures data[..] == Overwrite(old(data[..]), old(View(s))[..n])
    {
      hide Overwrite;
      var b := buffers[s];
      CopyOut(s, data, n);
      assert b.data[b.head.value + n..b.head.value + b.length] == View(s)[n..];
      Point(s, b.head.value + n, b.length - n);
    }

    method Read(s: Socket, data: array<uint8>, length: nat) returns (n: nat, ghost stale: Bytes)
      requires Valid()
      requires length <= data.Length && length <= INT_MAX && data !in Repr
      modifies Repr, data
      ensures Valid() && fresh(Repr - old(Repr)) && SlotReady(s, old(buffers[..]))
      ensures |stale| == WIFI_SOCKET_BUFFER_SIZE
      ensures var o := StepWith(policy, old(Contents()), Act(Op.Read(s, length), stale));
              && Contents() == o.st && n == o.result
              && data[..] == Overwrite(old(data[..]), o.out)
    {
      hide Exposed, Refilled, Overwrite, Served;
      var avail;
      avail, stale := Available(s);
      ServedRead(Contents(), s, length);
      OverwriteNothing(data[..]);
      if avail == 0 {
        return 0, stale;
      }
      n := if avail < length then avail else length;
      Consume(s, data, n);
    }
  }
}
