/** The wire vocabulary: byte types, the constants of the protocol header, and
  * the view of a receive FIFO as an endless stream that yields 0 once drained. */
module Wire {
  type uint8 = x: int | 0 <= x < 0x100
  type uint16 = x: int | 0 <= x < 0x1_0000
  type Bytes = seq<uint8>

  datatype Option<+T> = None | Some(value: T)

  const START_CMD: uint8 := 0xE0
  const END_CMD: uint8 := 0xEE
  const ERR_CMD: uint8 := 0xEF

  const SCAN_NETWORKS: uint8 := 0x27
  const DATA_SENT_TCP_CMD: uint8 := 0x2A
  const STOP_CLIENT_TCP_CMD: uint8 := 0x2E
  const GET_CLIENT_STATE_TCP_CMD: uint8 := 0x2F
  const SEND_DATA_TCP_CMD: uint8 := 0x44
  const GET_DATABUF_TCP_CMD: uint8 := 0x45
  const INSERT_DATABUF_CMD: uint8 := 0x46

  const TIMEOUT_CHAR: nat := 1000
  const SPI_MAX_BUFFER: nat := 255
  const WIFI_SOCKET_BUFFER_SIZE: uint16 := 255

  /** `cmd & ~(1 << 7)`: the operation byte of a request. */
  function Request(cmd: uint8): uint8 {
    cmd % 0x80
  }

  /** `cmd | 1 << 7`: the operation byte of a reply. */
  function Replying(cmd: uint8): uint8 {
    if cmd < 0x80 then cmd + 0x80 else cmd
  }

  /** How a parameter's length is written: one byte (`tParam`) or two bytes,
    * high byte first (`tDataParam`). */
  datatype Width = Len8 | Len16 {
    function Size(): nat {
      if Len8? then 1 else 2
    }

    function Limit(): nat {
      if Len8? then 0x100 else 0x1_0000
    }

    function Put(n: nat): Bytes {
      if Len8? then [n % 0x100] else [n / 0x100 % 0x100, n % 0x100]
    }
  }

  function Min(a: nat, b: nat): nat {
    if a < b then a else b
  }

  function Zeros(n: nat): (z: Bytes)
    ensures |z| == n
  {
    seq<uint8>(n, _ => 0)
  }

  lemma ZerosExact(n: nat)
    ensures forall i | 0 <= i < n :: Zeros(n)[i] == 0
  {
  }

  /** The `i`-th byte a reader of the FIFO `f` sees: 0 once `f` is drained. */
  function At(f: Bytes, i: nat): uint8 {
    if i < |f| then f[i] else 0
  }

  /** A reader cannot tell `f` from `g` before position `t`. */
  predicate Agree(f: Bytes, g: Bytes, t: nat) {
    forall i: nat | i < t :: At(f, i) == At(g, i)
  }

  function Drop<T>(f: seq<T>, n: nat): seq<T> {
    if n <= |f| then f[n..] else []
  }

  function Take<T>(f: seq<T>, n: nat): seq<T> {
    if n <= |f| then f[..n] else f
  }

  /** `n` bytes read one after the other, the first at position `p`. */
  function Slice(f: Bytes, p: nat, n: nat): (s: Bytes)
    ensures |s| == n && forall i | 0 <= i < n :: s[i] == At(f, p + i)
  {
    seq<uint8>(n, (i: nat) => At(f, p + i))
  }

  /** The bytes `e` stand in `f` at position `p`. */
  predicate Holds(f: Bytes, p: nat, e: Bytes) {
    p + |e| <= |f| && forall i | 0 <= i < |e| :: e[i] == f[p + i]
  }

  lemma HoldsSplit(f: Bytes, p: nat, x: Bytes, y: Bytes)
    ensures Holds(f, p, x + y) <==> Holds(f, p, x) && Holds(f, p + |x|, y)
  {
    var e := x + y;
    if Holds(f, p, e) {
      assert forall i | 0 <= i < |x| :: x[i] == e[i];
      assert forall i | 0 <= i < |y| :: y[i] == e[|x| + i];
    }
  }

  lemma HoldsItself(f: Bytes)
    ensures Holds(f, 0, f)
  {
  }

  lemma OneHeld(f: Bytes, p: nat, a: uint8)
    ensures Holds(f, p, [a]) <==> p < |f| && f[p] == a
  {
    if Holds(f, p, [a]) {
      assert [a][0] == f[p + 0];
    }
  }

  lemma PairHeld(f: Bytes, p: nat, a: uint8, b: uint8)
    ensures Holds(f, p, [a, b]) <==> p + 2 <= |f| && f[p] == a && f[p + 1] == b
  {
    var h := [a, b];
    if Holds(f, p, h) {
      assert h[0] == f[p + 0] && h[1] == f[p + 1];
    }
  }

  lemma TripleHeld(f: Bytes, p: nat, a: uint8, b: uint8, c: uint8)
    ensures Holds(f, p, [a, b, c]) <==>
            p + 3 <= |f| && f[p] == a && f[p + 1] == b && f[p + 2] == c
  {
    var h := [a, b, c];
    if Holds(f, p, h) {
      assert h[0] == f[p + 0] && h[1] == f[p + 1] && h[2] == f[p + 2];
    }
  }

  lemma SliceHeld(f: Bytes, p: nat, n: nat)
    requires p + n <= |f|
    ensures Holds(f, p, Slice(f, p, n))
  {
  }

  lemma SliceOfHeld(f: Bytes, p: nat, e: Bytes)
    requires Holds(f, p, e)
    ensures Slice(f, p, |e|) == e
  {
    var s := Slice(f, p, |e|);
    assert forall i | 0 <= i < |e| :: s[i] == e[i];
  }

  /** `memcpy` of `d` onto the front of a buffer that held `old`. */
  function Overwrite(held: Bytes, d: Bytes): Bytes {
    d + Drop(held, |d|)
  }

  lemma OverwriteNothing(held: Bytes)
    ensures Overwrite(held, []) == held
  {
  }
}
