/** The parameter list on the wire and the command frames built by
  * `SpiDrv_sendCmd` (8-bit lengths) and `SpiDrv_sendBuffer` (16-bit lengths). */
module Frame {
  import opened Wire

  // ---------- Writing ----------

  /** Every length fits its length field, and the count fits one byte. */
  predicate Sendable(w: Width, ps: seq<Bytes>) {
    |ps| < 0x100 && forall i | 0 <= i < |ps| :: |ps[i]| < w.Limit()
  }

  function Fields(w: Width, ps: seq<Bytes>): Bytes {
    if ps == [] then [] else w.Put(|ps[0]|) + ps[0] + Fields(w, ps[1..])
  }

  /** The sum of header and data bytes, without building the bytes. */
  function FieldsSize(w: Width, ps: seq<Bytes>): nat {
    if ps == [] then 0 else w.Size() + |ps[0]| + FieldsSize(w, ps[1..])
  }

  /** First byte, operation, count, fields: what stands before any closing. */
  function Opened(w: Width, lead: uint8, op: uint8, ps: seq<Bytes>): Bytes {
    [lead, op, |ps| % 0x100] + Fields(w, ps)
  }

  function Unpadded(w: Width, op: uint8, ps: seq<Bytes>): Bytes {
    Opened(w, START_CMD, op, ps)
  }

  /** How many zeros bring index `j` to 3 modulo 4. */
  function Padding(j: nat): nat {
    3 - j % 4
  }

  /** What follows `j` bytes of frame: zeros up to the boundary, then END. */
  function Closing(j: nat): Bytes {
    Zeros(Padding(j)) + [END_CMD]
  }

  function Framed(w: Width, op: uint8, ps: seq<Bytes>): Bytes {
    Unpadded(w, op, ps) + Closing(3 + FieldsSize(w, ps))
  }

  function Encode(w: Width, cmd: uint8, ps: seq<Bytes>): Bytes {
    Framed(w, Request(cmd), ps)
  }

  lemma {:induction false} FieldsLength(w: Width, ps: seq<Bytes>)
    ensures |Fields(w, ps)| == FieldsSize(w, ps)
  {
    if ps != [] {
      FieldsLength(w, ps[1..]);
    }
  }

  lemma {:induction false} FieldsSnoc(w: Width, ps: seq<Bytes>, p: Bytes)
    ensures Fields(w, ps + [p]) == Fields(w, ps) + w.Put(|p|) + p
  {
    if ps == [] {
      assert Fields(w, [p]) == w.Put(|p|) + p + Fields(w, []);
    } else {
      assert (ps + [p])[1..] == ps[1..] + [p];
      FieldsSnoc(w, ps[1..], p);
    }
  }

  lemma {:induction false} FieldsSizePrefix(w: Width, ps: seq<Bytes>, i: nat)
    requires i <= |ps|
    ensures FieldsSize(w, ps[..i]) + FieldsSize(w, ps[i..]) == FieldsSize(w, ps)
  {
    if i > 0 {
      assert ps[..i][1..] == ps[1..][..i - 1] && ps[1..][i - 1..] == ps[i..];
      FieldsSizePrefix(w, ps[1..], i - 1);
    } else {
      assert ps[0..] == ps;
    }
  }

  /** One more parameter after the header `h`, seen from the sender's loop. */
  lemma FieldsGrow(w: Width, h: Bytes, ps: seq<Bytes>, i: nat)
    requires i < |ps|
    ensures var d := ps[i];
            && h + Fields(w, ps[..i + 1]) == h + Fields(w, ps[..i]) + w.Put(|d|) + d
            && FieldsSize(w, ps[..i + 1]) == FieldsSize(w, ps[..i]) + w.Size() + |d| <= FieldsSize(w, ps)
  {
    assert ps[..i + 1] == ps[..i] + [ps[i]];
    FieldsSizePrefix(w, ps, i + 1);
    FieldsSnoc(w, ps[..i], ps[i]);
    FieldsLength(w, ps[..i]);
    FieldsLength(w, ps[..i + 1]);
  }

  /** The length bytes: one, or two with the high byte first. */
  lemma LengthBytes(w: Width, n: nat)
    requires n < w.Limit()
    ensures w.Len8? ==> w.Put(n) == [n]
    ensures w.Len16? ==> |w.Put(n)| == 2 && w.Put(n)[0] as int * 0x100 + w.Put(n)[1] == n
  {
  }

  lemma ClosingLength(j: nat)
    ensures j + |Closing(j)| == 4 * ((j + 1 + 3) / 4)
  {
  }

  /** Frame arithmetic: with unpadded length `j0`, the frame is as long as the
    * next multiple of 4 above `j0`, and fits the 255-byte transmit buffer exactly
    * when `j0 <= 251`. */
  lemma FrameLength(w: Width, cmd: uint8, ps: seq<Bytes>)
    ensures var j0 := 3 + FieldsSize(w, ps);
            && |Encode(w, cmd, ps)| == 4 * ((j0 + 1 + 3) / 4)
            && (|Encode(w, cmd, ps)| <= SPI_MAX_BUFFER <==> j0 <= 251)
  {
    var j0 := 3 + FieldsSize(w, ps);
    FieldsLength(w, ps);
    ClosingLength(j0);
    assert |Encode(w, cmd, ps)| == j0 + |Closing(j0)|;
    hide *;
  }

  /** END stands last, and only zeros, three at most, stand between it and the
    * fields. */
  lemma FrameEnding(w: Width, cmd: uint8, ps: seq<Bytes>)
    ensures var j0 := 3 + FieldsSize(w, ps);
            var f := Encode(w, cmd, ps);
            && j0 + 1 <= |f| <= j0 + 4
            && f[|f| - 1] == END_CMD
            && (forall i | j0 <= i < |f| - 1 :: f[i] == 0)
  {
    FieldsLength(w, ps);
  }

  // ---------- Reading ----------

  function Raw(w: Width, f: Bytes, p: nat): nat {
    if w.Len8? then At(f, p) else At(f, p) * 0x100 + At(f, p + 1)
  }

  /** The length a receiver keeps for a field announced as `raw` bytes when the
    * caller's descriptor says `cap`. The subtraction is unsigned: a descriptor
    * of 0 wraps to the largest length. */
  function Kept(w: Width, raw: nat, cap: nat): nat {
    if raw >= cap then (cap - 1) % w.Limit() else raw
  }

  /** The bytes, NUL included, that a capacity lets the receiver write: after the
    * wrap, as many as the length field can say. */
  function Room(w: Width, cap: nat): nat {
    if cap == 0 then w.Limit() else cap
  }

  datatype FieldsRead = FieldsRead(data: seq<Bytes>, next: nat)

  /** Reads one field for each capacity, from position `p` of the stream. */
  function ReadFields(w: Width, f: Bytes, p: nat, caps: seq<nat>): (r: FieldsRead)
    ensures |r.data| == |caps| && r.next >= p
    decreases caps
  {
    if caps == [] then FieldsRead([], p)
    else
      var q := p + w.Size();
      var n := Kept(w, Raw(w, f, p), caps[0]);
      var r := ReadFields(w, f, q + n, caps[1..]);
      FieldsRead([Slice(f, q, n)] + r.data, r.next)
  }

  /** No field met on the way was longer than its capacity allows. */
  predicate Untruncated(w: Width, f: Bytes, p: nat, caps: seq<nat>)
    decreases caps
  {
    caps == [] ||
    (var raw := Raw(w, f, p);
     raw < caps[0] && Untruncated(w, f, p + w.Size() + raw, caps[1..]))
  }

  lemma RawOfHeld(w: Width, f: Bytes, p: nat, n: nat)
    requires n < w.Limit() && Holds(f, p, w.Put(n))
    ensures Raw(w, f, p) == n
  {
    var h := w.Put(n);
    assert h[0] == f[p + 0] && (w.Len16? ==> h[1] == f[p + 1]);
  }

  lemma HeldOfRaw(w: Width, f: Bytes, p: nat)
    requires p + w.Size() <= |f|
    ensures Holds(f, p, w.Put(Raw(w, f, p)))
  {
  }

  lemma FirstOfWritten(w: Width, f: Bytes, p: nat, ps: seq<Bytes>)
    requires ps != [] && |ps[0]| < w.Limit() && Holds(f, p, Fields(w, ps))
    ensures Raw(w, f, p) == |ps[0]| && Slice(f, p + w.Size(), |ps[0]|) == ps[0]
    ensures Holds(f, p + w.Size() + |ps[0]|, Fields(w, ps[1..]))
    ensures |Fields(w, ps)| == w.Size() + |ps[0]| + |Fields(w, ps[1..])|
  {
    var h, d := w.Put(|ps[0]|), ps[0];
    HoldsSplit(f, p, h + d, Fields(w, ps[1..]));
    HoldsSplit(f, p, h, d);
    RawOfHeld(w, f, p, |d|);
    SliceOfHeld(f, p + |h|, d);
  }

  /** One turn of the receiver's loop on a field it need not cut. */
  lemma FirstField(w: Width, f: Bytes, p: nat, caps: seq<nat>)
    requires caps != [] && Raw(w, f, p) < caps[0]
    ensures var q := p + w.Size();
            var n := Raw(w, f, p);
            var rest := ReadFields(w, f, q + n, caps[1..]);
            && ReadFields(w, f, p, caps) == FieldsRead([Slice(f, q, n)] + rest.data, rest.next)
            && (Untruncated(w, f, p, caps) <==> Untruncated(w, f, q + n, caps[1..]))
  {
  }

  /** Reading back a written parameter list, wherever it stands in the stream. */
  lemma {:induction false} ReadOfWritten(w: Width, f: Bytes, p: nat, ps: seq<Bytes>, caps: seq<nat>)
    requires |caps| == |ps|
    requires forall i | 0 <= i < |ps| :: |ps[i]| < w.Limit() && |ps[i]| < caps[i]
    requires Holds(f, p, Fields(w, ps))
    ensures ReadFields(w, f, p, caps) == FieldsRead(ps, p + |Fields(w, ps)|)
    ensures Untruncated(w, f, p, caps)
    decreases ps
  {
    if ps != [] {
      hide *;
      FirstOfWritten(w, f, p, ps);
      FirstField(w, f, p, caps);
      assert ps == [ps[0]] + ps[1..];
      ReadOfWritten(w, f, p + w.Size() + |ps[0]|, ps[1..], caps[1..]);
    }
  }

  lemma {:induction false} FieldsAppend(w: Width, xs: seq<Bytes>, ys: seq<Bytes>)
    ensures Fields(w, xs + ys) == Fields(w, xs) + Fields(w, ys)
  {
    if xs == [] {
      assert xs + ys == ys;
    } else {
      assert (xs + ys)[1..] == xs[1..] + ys;
      FieldsAppend(w, xs[1..], ys);
    }
  }

  lemma OneCutField(w: Width, f: Bytes, p: nat, raw: nat, caps: seq<nat>)
    requires caps != [] && 1 <= caps[0] <= raw < w.Limit() && Raw(w, f, p) == raw
    ensures var r := ReadFields(w, f, p, caps);
            && r.data[0] == Slice(f, p + w.Size(), caps[0] - 1)
            && (|caps| == 1 ==> r.next == p + w.Size() + caps[0] - 1)
  {
    hide Slice, Raw;
    assert Kept(w, raw, caps[0]) == caps[0] - 1;
  }

  lemma PrefixOfHeld(f: Bytes, q: nat, d: Bytes, n: nat)
    requires Holds(f, q, d) && n < |d|
    ensures Slice(f, q, n) == d[..n] && At(f, q + n) == d[n]
  {
    assert forall k | 0 <= k <= n :: d[k] == f[q + k];
    assert Slice(f, q, n) == d[..n];
  }

  /** One turn of the loop on a field it must cut. */
  lemma CutField(w: Width, f: Bytes, p: nat, d: Bytes, caps: seq<nat>)
    requires caps != [] && 1 <= caps[0] <= |d| < w.Limit()
    requires Holds(f, p, w.Put(|d|) + d)
    ensures var r := ReadFields(w, f, p, caps);
            && r.data[0] == d[..caps[0] - 1]
            && (|caps| == 1 ==> At(f, r.next) == d[caps[0] - 1])
  {
    var q, n := p + w.Size(), caps[0] - 1;
    assert |w.Put(|d|)| == w.Size();
    HoldsSplit(f, p, w.Put(|d|), d);
    RawOfHeld(w, f, p, |d|);
    PrefixOfHeld(f, q, d, n);
    OneCutField(w, f, p, |d|, caps);
  }

  lemma HeadHeld(w: Width, f: Bytes, p: nat, ps: seq<Bytes>)
    requires ps != [] && Holds(f, p, Fields(w, ps))
    ensures Holds(f, p, w.Put(|ps[0]|) + ps[0])
  {
    HoldsSplit(f, p, w.Put(|ps[0]|) + ps[0], Fields(w, ps[1..]));
  }

  lemma PrefixCons<T>(x: T, rest: seq<T>, ps: seq<T>, i: nat)
    requires 0 < i < |ps| && i <= |rest| && x == ps[0] && rest[..i - 1] == ps[1..][..i - 1]
    ensures ([x] + rest)[..i] == ps[..i] && ([x] + rest)[i] == rest[i - 1]
  {
    assert ([x] + rest)[..i] == [x] + rest[..i - 1];
    assert ps[..i] == [ps[0]] + ps[1..][..i - 1];
  }

  /** The parameters before `i` were read whole and parameter `i` up to its capacity;
    * with none after it, the next byte is the one cut off first. */
  predicate CutAt(f: Bytes, r: FieldsRead, ps: seq<Bytes>, caps: seq<nat>, i: nat) {
    && i < |ps| && i < |caps| && i < |r.data| && 1 <= caps[i] <= |ps[i]|
    && r.data[..i] == ps[..i]
    && r.data[i] == ps[i][..caps[i] - 1]
    && (|caps| == i + 1 ==> At(f, r.next) == ps[i][caps[i] - 1])
  }

  lemma CutLater(w: Width, f: Bytes, p: nat, ps: seq<Bytes>, caps: seq<nat>, i: nat)
    requires 0 < i < |ps| && i < |caps|
    requires |ps[0]| < w.Limit() && |ps[0]| < caps[0] && Holds(f, p, Fields(w, ps))
    requires CutAt(f, ReadFields(w, f, p + w.Size() + |ps[0]|, caps[1..]), ps[1..], caps[1..], i - 1)
    ensures CutAt(f, ReadFields(w, f, p, caps), ps, caps, i)
  {
    hide Holds, Fields, ReadFields, Untruncated, Raw, At, Slice;
    FirstOfWritten(w, f, p, ps);
    FirstField(w, f, p, caps);
    PrefixCons(ps[0], ReadFields(w, f, p + w.Size() + |ps[0]|, caps[1..]).data, ps, i);
  }

  /** Of a parameter as long as its buffer or longer exactly the first `cap - 1`
    * bytes are stored, those before it arrive whole, and if it is the last one read,
    * the byte cut off first is what is met where END should be. */
  lemma {:induction false} ReadUntilCut(w: Width, f: Bytes, p: nat, ps: seq<Bytes>, caps: seq<nat>, i: nat)
    requires i < |ps| && i < |caps| && forall k | 0 <= k < |ps| :: |ps[k]| < w.Limit()
    requires (forall k | 0 <= k < i :: |ps[k]| < caps[k]) && 1 <= caps[i] <= |ps[i]|
    requires Holds(f, p, Fields(w, ps))
    ensures CutAt(f, ReadFields(w, f, p, caps), ps, caps, i)
    decreases i
  {
    if i == 0 {
      HeadHeld(w, f, p, ps);
      hide Holds, Fields, ReadFields;
      CutField(w, f, p, ps[0], caps);
    } else {
      hide *;
      FirstOfWritten(w, f, p, ps);
      ReadUntilCut(w, f, p + w.Size() + |ps[0]|, ps[1..], caps[1..], i - 1);
      CutLater(w, f, p, ps, caps, i);
    }
  }

  /** Conversely, untruncated fields inside the FIFO are exactly what the writer
    * produces for the data read. */
  lemma {:induction false} WrittenOfRead(w: Width, f: Bytes, p: nat, caps: seq<nat>)
    requires Untruncated(w, f, p, caps) && ReadFields(w, f, p, caps).next <= |f|
    ensures var r := ReadFields(w, f, p, caps);
            Holds(f, p, Fields(w, r.data)) && r.next == p + |Fields(w, r.data)|
    decreases caps
  {
    if caps != [] {
      var r := ReadFields(w, f, p, caps);
      var q, n := p + w.Size(), Raw(w, f, p);
      WrittenOfRead(w, f, q + n, caps[1..]);
      HeldOfRaw(w, f, p);
      SliceHeld(f, q, n);
      assert r.data[1..] == ReadFields(w, f, q + n, caps[1..]).data;
      HoldsSplit(f, p, w.Put(n), r.data[0]);
      HoldsSplit(f, p, w.Put(n) + r.data[0], Fields(w, r.data[1..]));
    }
  }

  lemma FieldAgrees(w: Width, f: Bytes, g: Bytes, p: nat, n: nat)
    requires Agree(f, g, p + w.Size() + n)
    ensures Raw(w, f, p) == Raw(w, g, p) && Slice(f, p + w.Size(), n) == Slice(g, p + w.Size(), n)
  {
    assert w.Len16? ==> At(f, p + 1) == At(g, p + 1);
  }

  /** What is read depends only on the bytes read. */
  lemma {:induction false} ReadAgrees(w: Width, f: Bytes, g: Bytes, p: nat, caps: seq<nat>)
    requires Agree(f, g, ReadFields(w, f, p, caps).next)
    ensures ReadFields(w, g, p, caps) == ReadFields(w, f, p, caps)
    decreases caps
  {
    if caps != [] {
      var q, n := p + w.Size(), Kept(w, Raw(w, f, p), caps[0]);
      assert q + n <= ReadFields(w, f, p, caps).next;
      FieldAgrees(w, f, g, p, n);
      hide Raw, Slice, Agree, Kept;
      ReadAgrees(w, f, g, q + n, caps[1..]);
    }
  }

  /** The stored length stays strictly below the room its capacity gives, which is
    * the capacity itself unless that is 0: the NUL fits. */
  lemma {:induction false} ReadBelowCapacity(w: Width, f: Bytes, p: nat, caps: seq<nat>)
    requires forall i | 0 <= i < |caps| :: caps[i] <= w.Limit()
    ensures forall i | 0 <= i < |caps| :: |ReadFields(w, f, p, caps).data[i]| < Room(w, caps[i])
    decreases caps
  {
    if caps != [] {
      var n := Kept(w, Raw(w, f, p), caps[0]);
      ReadBelowCapacity(w, f, p + w.Size() + n, caps[1..]);
    }
  }

  // ---------- Decoding commands ----------

  /** With every capacity at the limit no length can be truncated. */
  function FullCaps(w: Width, n: nat): (c: seq<nat>)
    ensures |c| == n && forall i | 0 <= i < n :: c[i] == w.Limit()
  {
    seq(n, _ => w.Limit())
  }

  predicate Closes(s: Bytes, j: nat) {
    var e := j + Padding(j);
    e < |s| && (forall i | j <= i < e :: s[i] == 0) && s[e] == END_CMD
  }

  lemma ClosesHeld(s: Bytes, j: nat)
    ensures Closes(s, j) <==> Holds(s, j, Closing(j))
  {
    var z, c := Padding(j), Closing(j);
    if Holds(s, j, c) {
      assert forall i | j <= i < j + z :: s[i] == c[i - j];
      assert c[z] == s[j + z];
    }
  }

  datatype Decoded = Decoded(op: uint8, params: seq<Bytes>, size: nat)

  /** The frame at the front of `s`, if there is one: START, operation, count,
    * fields, zeros up to the 4-byte boundary, END. */
  function Decode(w: Width, s: Bytes): Option<Decoded> {
    var r := ReadFields(w, s, 3, FullCaps(w, At(s, 2)));
    if At(s, 0) == START_CMD && Closes(s, r.next)
    then Some(Decoded(At(s, 1), r.data, r.next + Padding(r.next) + 1))
    else None
  }

  lemma {:induction false} FullCapsUntruncated(w: Width, f: Bytes, p: nat, n: nat)
    ensures Untruncated(w, f, p, FullCaps(w, n))
    decreases n
  {
    if n > 0 {
      assert FullCaps(w, n)[1..] == FullCaps(w, n - 1);
      FullCapsUntruncated(w, f, p + w.Size() + Raw(w, f, p), n - 1);
    }
  }

  lemma OpenedParts(w: Width, lead: uint8, op: uint8, ps: seq<Bytes>, f: Bytes, p: nat)
    requires |ps| < 0x100
    ensures |Opened(w, lead, op, ps)| == 3 + |Fields(w, ps)|
    ensures Holds(f, p, Opened(w, lead, op, ps)) <==>
            Holds(f, p, [lead, op, |ps|]) && Holds(f, p + 3, Fields(w, ps))
  {
    hide Holds, Fields;
    HoldsSplit(f, p, [lead, op, |ps|], Fields(w, ps));
  }

  /** A frame is three header bytes, the fields and the closing. */
  lemma FramedParts(w: Width, op: uint8, ps: seq<Bytes>, s: Bytes)
    requires |ps| < 0x100
    ensures var n := 3 + |Fields(w, ps)|;
            && n == 3 + FieldsSize(w, ps)
            && |Framed(w, op, ps)| == n + |Closing(n)|
            && (Holds(s, 0, Framed(w, op, ps)) <==>
                (&& At(s, 0) == START_CMD && At(s, 1) == op && At(s, 2) == |ps| && |s| >= 3
                 && Holds(s, 3, Fields(w, ps))
                 && Holds(s, n, Closing(n))))
  {
    hide Holds, Closing, Fields, FieldsSize, Opened;
    FieldsLength(w, ps);
    OpenedParts(w, START_CMD, op, ps, s, 0);
    HoldsSplit(s, 0, Unpadded(w, op, ps), Closing(3 + FieldsSize(w, ps)));
    TripleHeld(s, 0, START_CMD, op, |ps|);
  }

  /** `Decode` undoes `Framed`, whatever follows on the wire. */
  lemma DecodeOfFramed(w: Width, op: uint8, ps: seq<Bytes>, s: Bytes)
    requires Sendable(w, ps) && Holds(s, 0, Framed(w, op, ps))
    ensures Decode(w, s) == Some(Decoded(op, ps, |Framed(w, op, ps)|))
  {
    FramedParts(w, op, ps, s);
    ReadOfWritten(w, s, 3, ps, FullCaps(w, |ps|));
    ClosesHeld(s, 3 + |Fields(w, ps)|);
  }

  /** What the senders send is decoded to the command without its reply bit and to
    * exactly the parameters. */
  lemma EncodeDecodes(w: Width, cmd: uint8, ps: seq<Bytes>)
    requires Sendable(w, ps)
    ensures Decode(w, Encode(w, cmd, ps)) ==
            Some(Decoded(if cmd < 0x80 then cmd else cmd - 0x80, ps, |Encode(w, cmd, ps)|))
  {
    hide Decode, Framed;
    HoldsItself(Encode(w, cmd, ps));
    DecodeOfFramed(w, Request(cmd), ps, Encode(w, cmd, ps));
  }

  lemma FieldsOfDecode(w: Width, s: Bytes, n: uint8)
    ensures var r := ReadFields(w, s, 3, FullCaps(w, n));
            && Sendable(w, r.data)
            && (r.next <= |s| ==> Holds(s, 3, Fields(w, r.data)) && r.next == 3 + |Fields(w, r.data)|)
  {
    FullCapsUntruncated(w, s, 3, n);
    ReadBelowCapacity(w, s, 3, FullCaps(w, n));
    if ReadFields(w, s, 3, FullCaps(w, n)).next <= |s| {
      WrittenOfRead(w, s, 3, FullCaps(w, n));
    }
  }

  /** `Decode` accepts nothing else: an accepted prefix is the frame of its
    * decoding. */
  lemma FramedOfDecode(w: Width, s: Bytes)
    requires Decode(w, s).Some?
    ensures var d := Decode(w, s).value;
            && Sendable(w, d.params)
            && d.size == |Framed(w, d.op, d.params)|
            && Holds(s, 0, Framed(w, d.op, d.params))
  {
    var r := ReadFields(w, s, 3, FullCaps(w, At(s, 2)));
    FieldsOfDecode(w, s, At(s, 2));
    ClosesHeld(s, r.next);
    FramedParts(w, At(s, 1), r.data, s);
  }

  /** Frames are prefix-free up to the reply bit, which the sender clears. */
  lemma PrefixFree(w: Width, c1: uint8, p1: seq<Bytes>, c2: uint8, p2: seq<Bytes>)
    requires Sendable(w, p1) && Sendable(w, p2)
    ensures Encode(w, c1, p1) <= Encode(w, c2, p2) <==> c1 % 0x80 == c2 % 0x80 && p1 == p2
  {
    var f1, f2 := Encode(w, c1, p1), Encode(w, c2, p2);
    if f1 <= f2 {
      assert Holds(f2, 0, f1) && Holds(f2, 0, f2);
      DecodeOfFramed(w, Request(c1), p1, f2);
      DecodeOfFramed(w, Request(c2), p2, f2);
    }
  }

  // ---------- A wire full of frames ----------

  datatype Command = Command(cmd: uint8, params: seq<Bytes>)

  /** The commands sent with `SpiDrv_sendBuffer`. */
  function WidthOf(cmd: uint8): Width {
    if cmd == SEND_DATA_TCP_CMD || cmd == GET_DATABUF_TCP_CMD || cmd == INSERT_DATABUF_CMD
    then Len16 else Len8
  }

  predicate WellFormed(c: Command) {
    c.cmd < 0x80 && Sendable(WidthOf(c.cmd), c.params)
  }

  function Wired(cs: seq<Command>): Bytes {
    if cs == [] then [] else Encode(WidthOf(cs[0].cmd), cs[0].cmd, cs[0].params) + Wired(cs[1..])
  }

  /** Any concatenation of command frames, of either width, splits in one way. */
  lemma {:induction false} UniqueSplit(xs: seq<Command>, ys: seq<Command>)
    requires forall i | 0 <= i < |xs| :: WellFormed(xs[i])
    requires forall i | 0 <= i < |ys| :: WellFormed(ys[i])
    requires Wired(xs) == Wired(ys)
    ensures xs == ys
  {
    if xs != [] && ys != [] {
      var x, y := xs[0], ys[0];
      var fx, fy := Encode(WidthOf(x.cmd), x.cmd, x.params), Encode(WidthOf(y.cmd), y.cmd, y.params);
      var s := Wired(xs);
      assert Holds(s, 0, fx) && Holds(s, 0, fy);
      assert x.cmd == fx[1] == s[1] == fy[1] == y.cmd;
      DecodeOfFramed(WidthOf(x.cmd), x.cmd, x.params, s);
      DecodeOfFramed(WidthOf(y.cmd), y.cmd, y.params, s);
      assert Wired(xs[1..]) == s[|fx|..] == Wired(ys[1..]);
      UniqueSplit(xs[1..], ys[1..]);
    }
  }
}
