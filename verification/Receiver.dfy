/** What `SpiDrv_receiveResponseCmd` and `SpiDrv_receiveResponseBuffer` make of
  * the bytes in the receive FIFO, and what they promise about it. */
module Receiver {
  import opened Wire
  import opened Frame

  // ---------- Resynchronisation ----------

  datatype Outcome = Found | Error | TimedOut // 1, -1 and 0

  datatype Sync = Sync(outcome: Outcome, next: nat)

  /** `SpiDrv_waitSpiChar` from position `p` with `timeout` retries left. */
  function WaitFor(f: Bytes, p: nat, c: uint8, timeout: nat): Sync
    decreases timeout, f
  {
    var b := At(f, p);
    if b == ERR_CMD then Sync(Error, p + 1)
    else if b == c then Sync(Found, p + 1)
    else if timeout == 0 then Sync(TimedOut, p + 1)
    else WaitFor(f, p + 1, c, timeout - 1)
  }

  /** Neither the character waited for nor ERR. */
  predicate Idle(b: uint8, c: uint8) {
    b != c && b != ERR_CMD
  }

  function OutcomeOf(b: uint8, c: uint8): Outcome {
    if b == ERR_CMD then Error else if b == c then Found else TimedOut
  }

  /** The wait stops at the first character or ERR among the next `timeout + 1`
    * bytes, reports which of the two it was, and reads nothing beyond it. */
  lemma {:induction false} WaitForExact(f: Bytes, p: nat, c: uint8, timeout: nat)
    ensures var s := WaitFor(f, p, c, timeout);
            && p < s.next <= p + timeout + 1
            && (forall i: nat | p <= i < s.next - 1 :: Idle(At(f, i), c))
            && s.outcome == OutcomeOf(At(f, s.next - 1), c)
            && (s.outcome == TimedOut ==> s.next == p + timeout + 1)
    decreases timeout
  {
    if Idle(At(f, p), c) && timeout != 0 {
      WaitForExact(f, p + 1, c, timeout - 1);
    }
  }

  /** The stop position is the only one those conditions describe. */
  lemma {:induction false} WaitForUnique(f: Bytes, p: nat, c: uint8, timeout: nat, q: nat)
    requires p <= q <= p + timeout
    requires forall i: nat | p <= i < q :: Idle(At(f, i), c)
    requires q == p + timeout || !Idle(At(f, q), c)
    ensures WaitFor(f, p, c, timeout) == Sync(OutcomeOf(At(f, q), c), q + 1)
    decreases timeout
  {
    if p < q {
      WaitForUnique(f, p + 1, c, timeout - 1, q);
    }
  }

  /** The wait for START that opens every receive. */
  function Synced(f: Bytes): (s: Sync)
    ensures 0 < s.next <= TIMEOUT_CHAR + 1
    ensures s.outcome == OutcomeOf(At(f, s.next - 1), START_CMD)
    ensures s.outcome == TimedOut ==> s.next == TIMEOUT_CHAR + 1
    ensures forall i: nat | i < s.next - 1 :: Idle(At(f, i), START_CMD)
  {
    WaitForExact(f, 0, START_CMD, TIMEOUT_CHAR);
    WaitFor(f, 0, START_CMD, TIMEOUT_CHAR)
  }

  /** In a FIFO that fits the receive buffer the wait times out exactly when
    * neither START nor ERR arrived, and then has drained it; otherwise it leaves
    * exactly the bytes after whichever came first. */
  lemma Resynchronise(f: Bytes)
    requires |f| <= TIMEOUT_CHAR
    ensures var s := Synced(f);
            && (s.outcome == TimedOut <==> forall i | 0 <= i < |f| :: Idle(f[i], START_CMD))
            && (s.outcome == TimedOut ==> Drop(f, s.next) == [])
            && (s.outcome != TimedOut ==>
                && s.next <= |f|
                && (forall i | 0 <= i < s.next - 1 :: Idle(f[i], START_CMD))
                && f[s.next - 1] == (if s.outcome == Found then START_CMD else ERR_CMD)
                && Drop(f, s.next) == f[s.next..])
  {
    var s := Synced(f);
    assert s.next <= |f| ==> At(f, s.next - 1) == f[s.next - 1];
    assert forall i: nat | i < s.next - 1 && i < |f| :: At(f, i) == f[i];
  }

  lemma SyncedAgrees(f: Bytes, g: Bytes)
    requires Agree(f, g, Synced(f).next)
    ensures Synced(g) == Synced(f)
  {
    var q: nat := Synced(f).next - 1;
    assert At(f, q) == At(g, q);
    WaitForUnique(g, 0, START_CMD, TIMEOUT_CHAR, q);
  }

  // ---------- The parser ----------

  /** `count` is what is stored through `numParamRead`, if anything; `data` holds
    * the parameters written to the caller's buffers; `used` counts FIFO reads. */
  datatype Reply = Reply(accepted: bool, count: Option<uint8>, data: seq<Bytes>, used: nat)

  datatype Header = Header(count: Option<uint8>, next: nat)

  /** START, the echo of the command with the reply bit, the parameter count. Only
    * a timeout fails the first test: on ERR the wait returns -1, which is true. */
  function HeaderOf(cmd: uint8, f: Bytes): Header {
    var s := Synced(f);
    if s.outcome == TimedOut then Header(None, s.next)
    else if At(f, s.next) != Replying(cmd) then Header(None, s.next + 1)
    else Header(Some(At(f, s.next + 1)), s.next + 2)
  }

  /** The receiver after the transfer, for a caller with `|caps|` descriptors. */
  function Parse(w: Width, cmd: uint8, f: Bytes, caps: seq<nat>): (r: Reply)
    requires |caps| < 0x100
    ensures |r.data| <= |caps|
    ensures r.accepted ==> |r.data| > 0
    ensures r.count == Some(|r.data|) || (r.count == None && r.data == [])
  {
    match HeaderOf(cmd, f)
    case Header(None, next) => Reply(false, None, [], next)
    case Header(Some(count), next) =>
      var n := Min(count, |caps|);
      if n == 0 then Reply(false, Some(0), [], next)
      else
        var r := ReadFields(w, f, next, caps[..n]);
        Reply(At(f, r.next) == END_CMD, Some(n), r.data, r.next + 1)
  }

  /** How many of `n` descriptors the receiver reaches: none unless the header is
    * valid. */
  function Reached(cmd: uint8, f: Bytes, n: nat): nat {
    var h := HeaderOf(cmd, f);
    if h.count.Some? then Min(h.count.value, n) else 0
  }

  lemma ReachedIsRead(w: Width, cmd: uint8, f: Bytes, caps: seq<nat>)
    requires |caps| < 0x100
    ensures |Parse(w, cmd, f, caps).data| == Reached(cmd, f, |caps|)
  {
  }

  /** Acceptance means real bytes: an accepted reply lies wholly inside the FIFO,
    * so no byte read was the filler of a drained FIFO, and any other FIFO with
    * the same front is parsed the same way. */
  lemma AcceptedIsReal(w: Width, cmd: uint8, f: Bytes, g: Bytes, caps: seq<nat>)
    requires |caps| < 0x100
    ensures var r := Parse(w, cmd, f, caps);
            r.accepted ==>
              && r.used <= |f|
              && (Agree(f, g, r.used) ==> Parse(w, cmd, g, caps) == r)
  {
    var r := Parse(w, cmd, f, caps);
    if r.accepted && Agree(f, g, r.used) {
      var s := Synced(f);
      var n := Min(At(f, s.next + 1), |caps|);
      var fs := ReadFields(w, f, s.next + 2, caps[..n]);
      SyncedAgrees(f, g);
      ReadAgrees(w, f, g, s.next + 2, caps[..n]);
    }
  }

  /** Every stored parameter leaves room for its NUL, whatever the FIFO held. */
  lemma ReplyFits(w: Width, cmd: uint8, f: Bytes, caps: seq<nat>)
    requires |caps| < 0x100
    requires forall i | 0 <= i < |caps| :: caps[i] <= w.Limit()
    ensures var r := Parse(w, cmd, f, caps);
            forall i | 0 <= i < |r.data| :: |r.data[i]| < Room(w, caps[i])
  {
    var s := Synced(f);
    var n := Min(At(f, s.next + 1), |caps|);
    ReadBelowCapacity(w, f, s.next + 2, caps[..n]);
  }

  // ---------- Replies on the wire ----------

  /** A reply as the frame diagram draws it, without padding before END, but with
    * `lead` where START stands. */
  function LedReply(w: Width, lead: uint8, cmd: uint8, ps: seq<Bytes>): Bytes {
    Opened(w, lead, Replying(cmd), ps) + [END_CMD]
  }

  function ReplyFrame(w: Width, cmd: uint8, ps: seq<Bytes>): Bytes {
    LedReply(w, START_CMD, cmd, ps)
  }

  /** Idle bytes: no START and no ERR, few enough for the retry count. */
  predicate Silent(idle: Bytes) {
    |idle| <= TIMEOUT_CHAR && forall i | 0 <= i < |idle| :: Idle(idle[i], START_CMD)
  }

  /** The bytes on which the receiver goes on to the header: START, and ERR, which
    * the callers' test lets through. */
  predicate Leads(b: uint8) {
    b == START_CMD || b == ERR_CMD
  }

  lemma SyncedAfter(idle: Bytes, lead: uint8, f: Bytes)
    requires Silent(idle) && Leads(lead) && Holds(f, 0, idle) && At(f, |idle|) == lead
    ensures Synced(f) == Sync(OutcomeOf(lead, START_CMD), |idle| + 1)
  {
    assert forall i: nat | i < |idle| :: idle[i] == f[0 + i] == At(f, i);
    WaitForUnique(f, 0, START_CMD, TIMEOUT_CHAR, |idle|);
  }

  /** The header of a reply after `idle`. */
  lemma HeaderAfter(cmd: uint8, idle: Bytes, lead: uint8, n: uint8, f: Bytes)
    requires Silent(idle) && Leads(lead)
    requires Holds(f, 0, idle) && Holds(f, |idle|, [lead, Replying(cmd), n])
    ensures HeaderOf(cmd, f) == Header(Some(n), |idle| + 3)
  {
    TripleHeld(f, |idle|, lead, Replying(cmd), n);
    SyncedAfter(idle, lead, f);
    hide Synced, Holds, Silent;
  }

  /** The parser once the header has been read. */
  lemma ParseReads(w: Width, cmd: uint8, f: Bytes, caps: seq<nat>)
    requires |caps| < 0x100 && HeaderOf(cmd, f).count.Some?
    ensures var h := HeaderOf(cmd, f);
            var n := Min(h.count.value, |caps|);
            var r := ReadFields(w, f, h.next, caps[..n]);
            Parse(w, cmd, f, caps) ==
            if n == 0 then Reply(false, Some(0), [], h.next)
            else Reply(At(f, r.next) == END_CMD, Some(n), r.data, r.next + 1)
  {
    hide HeaderOf, ReadFields, At;
  }

  /** A reply is its three header bytes, its fields and END. */
  lemma ReplyParts(w: Width, lead: uint8, cmd: uint8, ps: seq<Bytes>, f: Bytes, p: nat)
    requires |ps| < 0x100
    ensures var n := p + 3 + |Fields(w, ps)|;
            && p + |Opened(w, lead, Replying(cmd), ps)| == n
            && p + |LedReply(w, lead, cmd, ps)| == n + 1
            && (Holds(f, p, LedReply(w, lead, cmd, ps)) <==>
                Holds(f, p, Opened(w, lead, Replying(cmd), ps)) && n < |f| && f[n] == END_CMD)
  {
    var u := Opened(w, lead, Replying(cmd), ps);
    HoldsSplit(f, p, u, [END_CMD]);
    OneHeld(f, p + |u|, END_CMD);
    hide Holds, Fields;
  }

  predicate BelowCapacity(ps: seq<Bytes>, caps: seq<nat>) {
    |ps| <= |caps| && forall i | 0 <= i < |ps| :: |ps[i]| < caps[i]
  }

  /** Below capacity, the parameters arrive; only the byte after them decides
    * about acceptance. */
  lemma Delivers(w: Width, lead: uint8, cmd: uint8, idle: Bytes, ps: seq<Bytes>, f: Bytes, caps: seq<nat>)
    requires Silent(idle) && Leads(lead)
    requires |ps| > 0 && Sendable(w, ps) && |caps| < 0x100 && BelowCapacity(ps, caps)
    requires Holds(f, 0, idle) && Holds(f, |idle|, Opened(w, lead, Replying(cmd), ps))
    ensures var e := |idle| + 3 + |Fields(w, ps)|;
            && Parse(w, cmd, f, caps) == Reply(At(f, e) == END_CMD, Some(|ps|), ps, e + 1)
            && Complete(w, cmd, f, caps)
  {
    hide Holds, HeaderOf, Silent, Opened, Fields, ReadFields, Untruncated, Parse, At;
    OpenedParts(w, lead, Replying(cmd), ps, f, |idle|);
    HeaderAfter(cmd, idle, lead, |ps|, f);
    ParseReads(w, cmd, f, caps);
    ReadOfWritten(w, f, |idle| + 3, ps, caps[..|ps|]);
  }

  /** A valid header shows the reply bit: the byte after the one the wait stopped at
    * is the command with bit 7 set. */
  lemma HeaderShowsReplyBit(cmd: uint8, f: Bytes)
    ensures HeaderOf(cmd, f).count.Some? <==>
            Synced(f).outcome != TimedOut && At(f, Synced(f).next) == cmd % 0x80 + 0x80
  {
  }

  /** So nothing else is accepted, */
  lemma AcceptedShowsReplyBit(w: Width, cmd: uint8, f: Bytes, caps: seq<nat>)
    requires |caps| < 0x100
    ensures Parse(w, cmd, f, caps).accepted ==> At(f, Synced(f).next) == cmd % 0x80 + 0x80
  {
    HeaderShowsReplyBit(cmd, f);
    hide Synced;
  }

  /** and no receive takes a sender's own frame for a reply, whatever the two
    * commands: nothing is accepted, nothing stored. */
  lemma RequestIsNoReply(w: Width, cmd: uint8, idle: Bytes, v: Width, c: uint8, ps: seq<Bytes>,
                         f: Bytes, caps: seq<nat>)
    requires Silent(idle) && |ps| < 0x100 && |caps| < 0x100
    requires Holds(f, 0, idle) && Holds(f, |idle|, Encode(v, c, ps))
    ensures Parse(w, cmd, f, caps) == Reply(false, None, [], |idle| + 2)
  {
    var e := Encode(v, c, ps);
    assert e[0] == f[|idle| + 0] == START_CMD && e[1] == f[|idle| + 1] < 0x80;
    SyncedAfter(idle, START_CMD, f);
    HeaderShowsReplyBit(cmd, f);
    hide Synced, Holds, Silent, Encode, ReadFields;
  }

  /** With neither START nor ERR the whole wait is used up and nothing is stored. */
  lemma NoLeadNoReply(w: Width, cmd: uint8, f: Bytes, caps: seq<nat>)
    requires |f| <= TIMEOUT_CHAR && |caps| < 0x100 && forall i | 0 <= i < |f| :: Idle(f[i], START_CMD)
    ensures Parse(w, cmd, f, caps) == Reply(false, None, [], TIMEOUT_CHAR + 1)
  {
    Resynchronise(f);
    hide ReadFields;
  }

  /** A reply of no parameters is rejected, and counted. */
  lemma EmptyReply(w: Width, lead: uint8, cmd: uint8, idle: Bytes, f: Bytes, caps: seq<nat>)
    requires Silent(idle) && Leads(lead) && |caps| < 0x100
    requires Holds(f, 0, idle) && Holds(f, |idle|, LedReply(w, lead, cmd, []))
    ensures Parse(w, cmd, f, caps) == Reply(false, Some(0), [], |idle| + 3)
  {
    ReplyParts(w, lead, cmd, [], f, |idle|);
    OpenedParts(w, lead, Replying(cmd), [], f, |idle|);
    hide Holds, HeaderOf, Silent, Opened, Fields, LedReply, ReadFields, Parse;
    HeaderAfter(cmd, idle, lead, 0, f);
    ParseReads(w, cmd, f, caps);
  }

  lemma FirstOfFields(w: Width, f: Bytes, p: nat, ps: seq<Bytes>)
    requires ps != [] && Holds(f, p, Fields(w, ps))
    ensures At(f, p) == w.Put(|ps[0]|)[0]
  {
    assert Fields(w, ps)[0] == f[p + 0];
  }

  /** A reply of more parameters than there are descriptors fills them all, and is
    * accepted only if the length of the next one happens to begin with END. */
  lemma OverfullReply(w: Width, lead: uint8, cmd: uint8, idle: Bytes, ps: seq<Bytes>, f: Bytes, caps: seq<nat>)
    requires Silent(idle) && Leads(lead) && Sendable(w, ps)
    requires 0 < |caps| < |ps| && BelowCapacity(ps[..|caps|], caps)
    requires Holds(f, 0, idle) && Holds(f, |idle|, Opened(w, lead, Replying(cmd), ps))
    ensures var r := Parse(w, cmd, f, caps);
            && r.data == ps[..|caps|] && r.count == Some(|caps|)
            && (r.accepted <==> w.Put(|ps[|caps|]|)[0] == END_CMD)
  {
    hide Holds, HeaderOf, Silent, Opened, Fields, ReadFields, Untruncated, Parse, At;
    var n, p := |caps|, |idle| + 3;
    OpenedParts(w, lead, Replying(cmd), ps, f, |idle|);
    HeaderAfter(cmd, idle, lead, |ps|, f);
    ParseReads(w, cmd, f, caps);
    assert caps[..n] == caps && ps[..n] + ps[n..] == ps && ps[n..][0] == ps[n];
    FieldsAppend(w, ps[..n], ps[n..]);
    HoldsSplit(f, p, Fields(w, ps[..n]), Fields(w, ps[n..]));
    ReadOfWritten(w, f, p, ps[..n], caps);
    FirstOfFields(w, f, p + |Fields(w, ps[..n])|, ps[n..]);
  }

  /** The first parameter too long for its buffer: what comes before it arrives whole,
    * of it exactly as much as leaves room for the NUL, and if no other is read, the
    * reply is accepted only if the byte cut off first happens to be END. */
  lemma CutReply(w: Width, lead: uint8, cmd: uint8, idle: Bytes, ps: seq<Bytes>, f: Bytes, caps: seq<nat>, i: nat)
    requires Silent(idle) && Leads(lead) && Sendable(w, ps) && |caps| < 0x100
    requires i < |ps| && i < |caps| && BelowCapacity(ps[..i], caps) && 1 <= caps[i] <= |ps[i]|
    requires Holds(f, 0, idle) && Holds(f, |idle|, Opened(w, lead, Replying(cmd), ps))
    ensures var r := Parse(w, cmd, f, caps);
            && r.count == Some(Min(|ps|, |caps|))
            && r.data[..i] == ps[..i]
            && r.data[i] == ps[i][..caps[i] - 1]
            && (Min(|ps|, |caps|) == i + 1 ==> (r.accepted <==> ps[i][caps[i] - 1] == END_CMD))
  {
    hide Holds, HeaderOf, Silent, Opened, Fields, ReadFields, Untruncated, Parse, At;
    OpenedParts(w, lead, Replying(cmd), ps, f, |idle|);
    HeaderAfter(cmd, idle, lead, |ps|, f);
    ParseReads(w, cmd, f, caps);
    assert forall k | 0 <= k < i :: ps[..i][k] == ps[k];
    ReadUntilCut(w, f, |idle| + 3, ps, caps[..Min(|ps|, |caps|)], i);
  }

  // ---------- The language the receiver accepts ----------

  /** No parameter of the reply was cut short or left unread. */
  predicate Complete(w: Width, cmd: uint8, f: Bytes, caps: seq<nat>) {
    var h := HeaderOf(cmd, f);
    h.count.Some? && h.count.value <= |caps| && Untruncated(w, f, h.next, caps[..h.count.value])
  }

  /** The FIFO begins with silence and a reply of `ps`, each below its capacity. */
  predicate Spells(w: Width, cmd: uint8, f: Bytes, caps: seq<nat>, idle: Bytes, lead: uint8, ps: seq<Bytes>) {
    && Silent(idle) && Leads(lead)
    && 0 < |ps| < 0x100 && BelowCapacity(ps, caps)
    && Holds(f, 0, idle) && Holds(f, |idle|, LedReply(w, lead, cmd, ps))
  }

  /** What begins so is accepted and delivered exactly, whether it is START or ERR
    * that opens it. */
  lemma SpelledIsDelivered(w: Width, cmd: uint8, f: Bytes, caps: seq<nat>, idle: Bytes, lead: uint8, ps: seq<Bytes>)
    requires |caps| < 0x100 && forall i | 0 <= i < |caps| :: caps[i] <= w.Limit()
    requires Spells(w, cmd, f, caps, idle, lead, ps)
    ensures Parse(w, cmd, f, caps) == Reply(true, Some(|ps|), ps, |idle| + |LedReply(w, lead, cmd, ps)|)
    ensures Complete(w, cmd, f, caps)
  {
    ReplyParts(w, lead, cmd, ps, f, |idle|);
    hide Holds, Silent, Parse, Complete, LedReply, Opened, Fields;
    Delivers(w, lead, cmd, idle, ps, f, caps);
  }

  lemma SilenceBeforeSync(f: Bytes)
    requires Synced(f).next <= |f| && Synced(f).outcome != TimedOut
    ensures var k: nat := Synced(f).next - 1;
            Silent(f[..k]) && Leads(f[k]) && Holds(f, 0, f[..k])
  {
    var k: nat := Synced(f).next - 1;
    assert forall i | 0 <= i < k :: f[..k][i] == At(f, i);
  }

  /** The bytes of an accepted reply in which nothing was cut short or left unread:
    * silence, START or ERR, and the rest of the frame of exactly the delivered
    * parameters. */
  lemma AcceptedBytes(w: Width, cmd: uint8, f: Bytes, caps: seq<nat>)
    requires |caps| < 0x100 && forall i | 0 <= i < |caps| :: 1 <= caps[i] <= w.Limit()
    requires Complete(w, cmd, f, caps) && Parse(w, cmd, f, caps).accepted
    ensures var r := Parse(w, cmd, f, caps);
            var k: nat := Synced(f).next - 1;
            && k < r.used <= |f|
            && Spells(w, cmd, f, caps, f[..k], f[k], r.data)
            && r.used == k + |LedReply(w, f[k], cmd, r.data)|
  {
    var r, h, k: nat := Parse(w, cmd, f, caps), HeaderOf(cmd, f), Synced(f).next - 1;
    AcceptedIsReal(w, cmd, f, f, caps);
    ReplyFits(w, cmd, f, caps);
    ParseReads(w, cmd, f, caps);
    assert h.next == k + 3 && f[k + 1] == Replying(cmd) && f[k + 2] == |r.data|;
    SilenceBeforeSync(f);
    hide Holds, Silent, Fields, Opened, LedReply, Parse, HeaderOf, ReadFields, Untruncated, Synced;
    WrittenOfRead(w, f, h.next, caps[..h.count.value]);
    TripleHeld(f, k, f[k], Replying(cmd), |r.data|);
    OpenedParts(w, f[k], Replying(cmd), r.data, f, k);
    ReplyParts(w, f[k], cmd, r.data, f, k);
  }

  /** The language: a FIFO is accepted without loss if and only if it begins with
    * silence and the reply of some parameters below capacity, opened by START or
    * by ERR. */
  lemma AcceptedLanguage(w: Width, cmd: uint8, f: Bytes, caps: seq<nat>)
    requires |caps| < 0x100 && forall i | 0 <= i < |caps| :: 1 <= caps[i] <= w.Limit()
    ensures Parse(w, cmd, f, caps).accepted && Complete(w, cmd, f, caps) <==>
            exists idle, lead, ps :: Spells(w, cmd, f, caps, idle, lead, ps)
  {
    hide Parse, Complete, Spells;
    if idle, lead, ps :| Spells(w, cmd, f, caps, idle, lead, ps) {
      SpelledIsDelivered(w, cmd, f, caps, idle, lead, ps);
    }
    if Parse(w, cmd, f, caps).accepted && Complete(w, cmd, f, caps) {
      AcceptedBytes(w, cmd, f, caps);
    }
  }

  /** A START stands in the FIFO with no ERR before it. */
  predicate StartFirst(f: Bytes) {
    exists i | 0 <= i < |f| :: f[i] == START_CMD && ERR_CMD !in f[..i]
  }

  lemma LeadIsStartIff(f: Bytes)
    requires Synced(f).next <= |f| && Synced(f).outcome != TimedOut
    ensures f[Synced(f).next - 1] == START_CMD <==> StartFirst(f)
  {
    var k: nat := Synced(f).next - 1;
    SilenceBeforeSync(f);
    assert forall i | 0 <= i < k :: Idle(f[..k][i], START_CMD) && f[i] == f[..k][i];
    if i :| 0 <= i < |f| && f[i] == START_CMD && ERR_CMD !in f[..i] {
      assert k < i ==> f[k] == f[..i][k];
    }
  }

  /** An accepted reply was opened by START exactly when no ERR stands before the
    * first START. */
  lemma AcceptedOpensWithStartIff(w: Width, cmd: uint8, f: Bytes, caps: seq<nat>)
    requires |caps| < 0x100 && Parse(w, cmd, f, caps).accepted
    ensures Synced(f).next <= |f|
    ensures f[Synced(f).next - 1] == START_CMD <==> StartFirst(f)
  {
    AcceptedIsReal(w, cmd, f, f, caps);
    LeadIsStartIff(f);
  }

  /** So the frames of the diagram are the accepted FIFOs with START before any
    * ERR, and no others. */
  lemma FramedLanguage(w: Width, cmd: uint8, f: Bytes, caps: seq<nat>)
    requires |caps| < 0x100 && forall i | 0 <= i < |caps| :: 1 <= caps[i] <= w.Limit()
    ensures Parse(w, cmd, f, caps).accepted && Complete(w, cmd, f, caps) && StartFirst(f) <==>
            exists idle, ps :: Spells(w, cmd, f, caps, idle, START_CMD, ps)
  {
    hide Parse, Complete;
    if idle, ps :| Spells(w, cmd, f, caps, idle, START_CMD, ps) {
      SpelledIsDelivered(w, cmd, f, caps, idle, START_CMD, ps);
      OpensAfter(w, cmd, f, caps, idle, START_CMD, ps);
      AcceptedOpensWithStartIff(w, cmd, f, caps);
    }
    if Parse(w, cmd, f, caps).accepted && Complete(w, cmd, f, caps) && StartFirst(f) {
      AcceptedBytes(w, cmd, f, caps);
      AcceptedOpensWithStartIff(w, cmd, f, caps);
    }
  }

  lemma OpensAfter(w: Width, cmd: uint8, f: Bytes, caps: seq<nat>, idle: Bytes, lead: uint8, ps: seq<Bytes>)
    requires Spells(w, cmd, f, caps, idle, lead, ps)
    ensures |idle| < |f| && f[|idle|] == lead && Synced(f).next == |idle| + 1
  {
    var e := LedReply(w, lead, cmd, ps);
    assert e[0] == f[|idle| + 0] == lead;
    SyncedAfter(idle, lead, f);
  }

  /** The error reply taken for success: START never came. */
  lemma ErrorTakenForReply()
    ensures var f := [ERR_CMD, Replying(GET_CLIENT_STATE_TCP_CMD), 1, 0, END_CMD];
            && !StartFirst(f)
            && Parse(Len8, GET_CLIENT_STATE_TCP_CMD, f, [1]) == Reply(true, Some(1), [[]], 5)
  {
    var f := [ERR_CMD, Replying(GET_CLIENT_STATE_TCP_CMD), 1, 0, END_CMD];
    assert Fields(Len8, [[]]) == [0];
    assert LedReply(Len8, ERR_CMD, GET_CLIENT_STATE_TCP_CMD, [[]]) == f;
    SpelledIsDelivered(Len8, GET_CLIENT_STATE_TCP_CMD, f, [1], [], ERR_CMD, [[]]);
  }

  // ---------- Framed replies ----------

  /** The round trip: a reply whose parameters all stay below their capacities is
    * accepted and delivered exactly, after any silence and before any bytes. */
  lemma RoundTrip(w: Width, cmd: uint8, idle: Bytes, ps: seq<Bytes>, f: Bytes, caps: seq<nat>)
    requires Silent(idle) && |ps| > 0 && Sendable(w, ps) && |caps| < 0x100 && BelowCapacity(ps, caps)
    requires Holds(f, 0, idle) && Holds(f, |idle|, ReplyFrame(w, cmd, ps))
    ensures Parse(w, cmd, f, caps) == Reply(true, Some(|ps|), ps, |idle| + |ReplyFrame(w, cmd, ps)|)
  {
    ReplyParts(w, START_CMD, cmd, ps, f, |idle|);
    hide Holds, Silent, Parse, Complete, LedReply, Opened, Fields;
    Delivers(w, START_CMD, cmd, idle, ps, f, caps);
  }

  /** Delivery is exact precisely when every length is below its capacity: a
    * parameter as long as its buffer is never delivered. */
  lemma DeliveredIff(w: Width, cmd: uint8, idle: Bytes, ps: seq<Bytes>, f: Bytes, caps: seq<nat>)
    requires Silent(idle) && 0 < |ps| <= |caps| < 0x100 && Sendable(w, ps)
    requires forall i | 0 <= i < |caps| :: 1 <= caps[i] <= w.Limit()
    requires Holds(f, 0, idle) && Holds(f, |idle|, ReplyFrame(w, cmd, ps))
    ensures Parse(w, cmd, f, caps).data == ps <==> BelowCapacity(ps, caps)
  {
    hide Parse, Holds, Silent, ReplyFrame;
    if BelowCapacity(ps, caps) {
      RoundTrip(w, cmd, idle, ps, f, caps);
    } else {
      ReplyFits(w, cmd, f, caps);
    }
  }

  lemma HoldsInTake(f: Bytes, p: nat, e: Bytes, n: nat)
    requires Holds(f, p, e) && p + |e| <= n
    ensures Holds(Take(f, n), p, e)
  {
  }

  /** A reply reaches the caller exactly when the transfer is long enough for all of
    * it, silence included: a transfer cut anywhere earlier is rejected. */
  lemma AcceptedIffWithin(w: Width, cmd: uint8, idle: Bytes, ps: seq<Bytes>, burst: Bytes, n: nat, caps: seq<nat>)
    requires Silent(idle) && |ps| > 0 && Sendable(w, ps) && |caps| < 0x100 && BelowCapacity(ps, caps)
    requires Holds(burst, 0, idle) && Holds(burst, |idle|, ReplyFrame(w, cmd, ps))
    ensures Parse(w, cmd, Take(burst, n), caps).accepted <==> |idle| + |ReplyFrame(w, cmd, ps)| <= n
    ensures Parse(w, cmd, Take(burst, n), caps).accepted ==> Parse(w, cmd, Take(burst, n), caps).data == ps
  {
    hide Parse, ReplyFrame;
    var f := Take(burst, n);
    RoundTrip(w, cmd, idle, ps, burst, caps);
    AcceptedIsReal(w, cmd, f, burst, caps);
    assert Agree(f, burst, |f|);
    if |idle| + |ReplyFrame(w, cmd, ps)| <= n {
      HoldsInTake(burst, 0, idle, n);
      HoldsInTake(burst, |idle|, ReplyFrame(w, cmd, ps), n);
      RoundTrip(w, cmd, idle, ps, f, caps);
    }
  }

  lemma FirstOfClosing(j: nat)
    ensures Closing(j) != [] && (Closing(j)[0] == END_CMD <==> j % 4 == 3)
  {
  }

  lemma FirstHeld(f: Bytes, p: nat, e: Bytes)
    requires Holds(f, p, e) && e != []
    ensures At(f, p) == e[0]
  {
    assert e[0] == f[p + 0];
  }

  lemma FirstAfterFields(w: Width, op: uint8, ps: seq<Bytes>, f: Bytes, p: nat)
    requires |ps| < 0x100 && Holds(f, p, Framed(w, op, ps))
    ensures Holds(f, p, Unpadded(w, op, ps))
    ensures At(f, p + 3 + |Fields(w, ps)|) == END_CMD <==> FieldsSize(w, ps) % 4 == 0
  {
    hide Fields, FieldsSize, Holds, Closing, At;
    var j0 := 3 + FieldsSize(w, ps);
    FieldsLength(w, ps);
    HoldsSplit(f, p, Unpadded(w, op, ps), Closing(j0));
    FirstOfClosing(j0);
    FirstHeld(f, p + j0, Closing(j0));
  }

  /** Feeding the receiver what the sender builds, with the reply bit set: all
    * parameters come back, and the reply is accepted exactly when the sender had
    * no padding to add, since padding stands where END is expected. */
  lemma Duality(w: Width, cmd: uint8, idle: Bytes, ps: seq<Bytes>, f: Bytes, caps: seq<nat>)
    requires Silent(idle) && |ps| > 0 && Sendable(w, ps) && |caps| < 0x100 && BelowCapacity(ps, caps)
    requires Holds(f, 0, idle) && Holds(f, |idle|, Framed(w, Replying(cmd), ps))
    ensures var r := Parse(w, cmd, f, caps);
            && r.data == ps && r.count == Some(|ps|)
            && (r.accepted <==> FieldsSize(w, ps) % 4 == 0)
  {
    hide Holds, Parse, Framed, Fields, FieldsSize, Silent, Complete;
    FirstAfterFields(w, Replying(cmd), ps, f, |idle|);
    hide Opened;
    Delivers(w, START_CMD, cmd, idle, ps, f, caps);
  }
}
