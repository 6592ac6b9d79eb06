/** The bus handshake: the driver task, the slave's ESPBUSY pin, the two interrupt
  * routines and the two binary semaphores, interleaved step by step. */
module Handshake {
  import opened Wire

  /** Where the driver task stands inside `SpiDrv_sendCmd`, `SpiDrv_sendBuffer` or a
    * receive; each name is the next thing it does. */
  datatype Pc =
    | Idle       // between calls
    | Enter      // SpiDrv_begin if needed
    | ReadReady  // waitForSlaveReadyTimeout: read ESPBUSY
    | TakeReady  //   take slaveReadyDetected, portMAX_DELAY
    | Spin       // while (ESPBUSY_Read())
    | Select     // assert chip select
    | ReadSelect // waitForSlaveReadyTimeout: read ESPBUSY
    | TakeSelect //   take slaveReadyDetected, 5 ms
    | Put        // SPIM_WIFI_PutArray
    | Await      // take spiTxCompleted, portMAX_DELAY
    | Deselect   // release chip select
    | Decode     // receive only: parse the FIFO, return early or late

  /** Transfers are numbered; the number is for the proof, the code cannot see it. */
  datatype Transfer = Quiet | Busy(id: nat) | Finished(id: nat)

  datatype State = State(
    pc: Pc,
    receiving: bool,
    initialized: bool,
    pin: bool,            // ESPBUSY is high
    edge: bool,           // falling edge seen, its interrupt not yet served
    ready: bool,          // token in slaveReadyDetected
    select: bool,         // chip select asserted
    wire: Transfer,       // Finished: SPI_DONE raised, its interrupt not yet served
    done: Option<nat>,    // token in spiTxCompleted
    transfers: nat)

  datatype Action =
    | Call(receiving: bool)
    | Task     // the driver's next step
    | Timeout  // the 5 ms wait gives up
    | Shutdown // SpiDrv_end between calls
    | PinRise
    | PinFall
    | ReadyIsr
    | SpiDone
    | TxIsr

  predicate Init(s: State) {
    s.pc == Idle && !s.initialized && !s.edge && !s.ready && !s.select && s.wire == Quiet && s.done == None
  }

  predicate TaskEnabled(s: State) {
    match s.pc
    case Idle => false
    case TakeReady => s.ready
    case TakeSelect => s.ready
    case Await => s.done.Some?
    case _ => true
  }

  function TaskStep(s: State): State {
    match s.pc
    case Idle => s
    case Enter => // a new semaphore is empty
      s.(pc := ReadReady, initialized := true, ready := s.initialized && s.ready)
    case ReadReady => s.(pc := if s.pin then TakeReady else Spin)
    case TakeReady => s.(pc := Spin, ready := false)
    case Spin => s.(pc := if s.pin then Spin else Select)
    case Select => s.(pc := ReadSelect, select := true)
    case ReadSelect => s.(pc := if s.pin then TakeSelect else Put)
    case TakeSelect => s.(pc := Put, ready := false)
    case Put => s.(pc := Await, wire := Busy(s.transfers + 1), transfers := s.transfers + 1)
    case Await => s.(pc := Deselect, done := None)
    case Deselect => s.(pc := if s.receiving then Decode else Idle, select := false)
    case Decode => s.(pc := Idle)
  }

  predicate Enabled(s: State, a: Action) {
    match a
    case Call(_) => s.pc == Idle
    case Task => TaskEnabled(s)
    case Timeout => s.pc == TakeSelect
    case Shutdown => s.pc == Idle
    case PinRise => !s.pin
    case PinFall => s.pin
    case ReadyIsr => s.edge
    case SpiDone => s.wire.Busy?
    case TxIsr => s.wire.Finished?
  }

  function Perform(s: State, a: Action): State {
    match a
    case Call(receiving) => s.(pc := Enter, receiving := receiving)
    case Task => TaskStep(s)
    case Timeout => s.(pc := Put)
    case Shutdown => s.(initialized := false, select := false)
    case PinRise => s.(pin := true)
    case PinFall => s.(pin := false, edge := true)
    case ReadyIsr => s.(edge := false, ready := true)
    case SpiDone => if s.wire.Busy? then s.(wire := Finished(s.wire.id)) else s
    case TxIsr => // giving a full binary semaphore changes nothing
      if s.wire.Finished? then s.(wire := Quiet, done := if s.done.Some? then s.done else Some(s.wire.id)) else s
  }

  // ---------- Runs ----------

  /** A run: `ss[i + 1]` results from `acts[i]`, any interleaving. */
  datatype Trace = Trace(ss: seq<State>, acts: seq<Action>)

  predicate IsRun(t: Trace) {
    && |t.ss| == |t.acts| + 1
    && (forall i | 0 <= i < |t.acts| :: Enabled(t.ss[i], t.acts[i]) && t.ss[i + 1] == Perform(t.ss[i], t.acts[i]))
  }

  function Last(t: Trace): State
    requires IsRun(t)
  {
    t.ss[|t.acts|]
  }

  function Started(s: State): (t: Trace)
    ensures IsRun(t) && t.ss[0] == Last(t) == s && t.acts == []
  {
    Trace([s], [])
  }

  function Extend(t: Trace, a: Action): (r: Trace)
    requires IsRun(t) && Enabled(Last(t), a)
    ensures IsRun(r) && r.ss[0] == t.ss[0] && Last(r) == Perform(Last(t), a) && r.acts == t.acts + [a]
  {
    Trace(t.ss + [Perform(Last(t), a)], t.acts + [a])
  }

  predicate Selected(pc: Pc) {
    pc in {ReadSelect, TakeSelect, Put, Await, Deselect}
  }

  predicate Inv(s: State) {
    // no lost wakeup
    && (s.pc == TakeReady || s.pc == TakeSelect ==> s.pin || s.edge || s.ready)
    // the driver is begun and parses only what it received
    && (s.pc !in {Idle, Enter} ==> s.initialized)
    && (s.pc == Decode ==> s.receiving)
    // chip select
    && (s.select <==> Selected(s.pc))
    // one transfer, one completion, and only while it is awaited
    && (s.pc != Await ==> s.wire == Quiet && s.done == None)
    && (s.pc == Await ==>
          || (s.wire == Busy(s.transfers) && s.done == None)
          || (s.wire == Finished(s.transfers) && s.done == None)
          || (s.wire == Quiet && s.done == Some(s.transfers)))
  }

  lemma TaskKeepsInv(s: State)
    requires Inv(s) && TaskEnabled(s)
    ensures Inv(TaskStep(s))
  {
  }

  lemma StepKeepsInv(s: State, a: Action)
    requires Inv(s) && Enabled(s, a)
    ensures Inv(Perform(s, a))
  {
    if a == Task {
      TaskKeepsInv(s);
      hide Inv, TaskEnabled, TaskStep;
    } else {
      hide TaskEnabled, TaskStep;
    }
  }

  /** Every state of every run satisfies the invariant. */
  lemma {:induction false} RunKeepsInv(t: Trace, i: nat)
    requires IsRun(t) && Init(t.ss[0]) && i < |t.ss|
    ensures Inv(t.ss[i])
    decreases i
  {
    if i > 0 {
      RunKeepsInv(t, i - 1);
      StepKeepsInv(t.ss[i - 1], t.acts[i - 1]);
    }
  }

  /** The step that brought the driver where it stands at `j`. */
  lemma {:induction false} ArrivedAt(t: Trace, j: nat) returns (m: nat)
    requires IsRun(t) && j < |t.ss| && t.ss[j].pc != t.ss[0].pc
    ensures m < j && t.ss[m].pc != t.ss[j].pc
    ensures forall k | m < k <= j :: t.ss[k].pc == t.ss[j].pc
    decreases j
  {
    if t.ss[j - 1].pc != t.ss[j].pc {
      m := j - 1;
    } else {
      m := ArrivedAt(t, j - 1);
    }
  }

  /** No lost wakeup: a task blocked on the ready semaphore has ESPBUSY still high,
    * or the interrupt of its falling edge still to come. */
  lemma NoLostWakeup(t: Trace, i: nat)
    requires IsRun(t) && Init(t.ss[0]) && i < |t.ss|
    requires t.ss[i].pc == TakeReady && !TaskEnabled(t.ss[i])
    ensures t.ss[i].pin || t.ss[i].edge
  {
    RunKeepsInv(t, i);
  }

  lemma TaskKeepsOthers(s: State)
    ensures TaskStep(s).edge == s.edge && TaskStep(s).receiving == s.receiving
  {
  }

  lemma NotByTask(s: State, a: Action)
    requires Enabled(s, a) && a != Task
    ensures Perform(s, a).pc in {s.pc, Enter, Put}
  {
  }

  /** The only ways into Select, Await and Deselect. */
  lemma IntoSelect(s: State, a: Action)
    requires Enabled(s, a) && Perform(s, a).pc == Select != s.pc
    ensures a == Task && s.pc == Spin && !s.pin
  {
    if a != Task {
      NotByTask(s, a);
    }
  }

  lemma IntoAwait(s: State, a: Action)
    requires Enabled(s, a) && Perform(s, a).pc == Await != s.pc
    ensures a == Task && s.pc == Put
  {
    if a != Task {
      NotByTask(s, a);
    }
  }

  lemma IntoSpin(s: State, a: Action)
    requires Enabled(s, a) && Perform(s, a).pc == Spin != s.pc
    ensures a == Task && ((s.pc == ReadReady && !s.pin) || (s.pc == TakeReady && s.ready))
  {
    if a != Task {
      NotByTask(s, a);
    }
  }

  lemma IntoPut(s: State, a: Action)
    requires Enabled(s, a) && Perform(s, a).pc == Put != s.pc
    ensures || (a == Task && s.pc == ReadSelect && !s.pin)
            || (a == Task && s.pc == TakeSelect && s.ready)
            || (a == Timeout && s.pc == TakeSelect)
  {
    if a != Task && a != Timeout {
      hide TaskStep;
    }
  }

  lemma IntoDeselect(s: State, a: Action)
    requires Inv(s) && Enabled(s, a) && Perform(s, a).pc == Deselect != s.pc
    ensures a == Task && s.pc == Await && s.wire == Quiet && s.done == Some(s.transfers)
  {
    if a != Task {
      NotByTask(s, a);
    } else {
      assert s.pc == Await by { hide Inv; }
    }
  }

  lemma IntoIdle(s: State, a: Action)
    requires Inv(s) && Enabled(s, a) && Perform(s, a).pc == Idle != s.pc
    ensures a == Task && s.pc == if s.receiving then Decode else Deselect
  {
    if a != Task {
      NotByTask(s, a);
    }
  }

  lemma IntoDecode(s: State, a: Action)
    requires Enabled(s, a) && Perform(s, a).pc == Decode != s.pc
    ensures a == Task && s.pc == Deselect && s.receiving && Perform(s, a).receiving
  {
    if a != Task {
      NotByTask(s, a);
    }
  }

  lemma SelectChanges(s: State, a: Action)
    requires Inv(s) && Enabled(s, a)
    ensures var n := Perform(s, a);
            && (n.select && !s.select ==> s.pc == Select)
            && (!n.select && s.select ==> s.pc == Deselect)
  {
    if a != Task {
      hide TaskStep;
    }
  }

  lemma TransfersChange(s: State, a: Action)
    requires Enabled(s, a)
    ensures var n := Perform(s, a);
            if a == Task && s.pc == Put then n.transfers == s.transfers + 1 && n.wire == Busy(n.transfers)
            else n.transfers == s.transfers
  {
    if a != Task {
      hide TaskStep;
    }
  }

  /** The only ways chip select and the transfer count change. */
  lemma BusChanges(s: State, a: Action)
    requires Inv(s) && Enabled(s, a)
    ensures var n := Perform(s, a);
            && (n.select && !s.select ==> s.pc == Select)
            && (!n.select && s.select ==> s.pc == Deselect)
            && n.transfers == s.transfers + (if a == Task && s.pc == Put then 1 else 0)
            && (n.transfers != s.transfers ==>
                  s.select && s.wire == Quiet && s.done == None && n.wire == Busy(n.transfers))
            && (Selected(s.pc) ==> s.select)
  {
    hide Perform, Enabled;
    SelectChanges(s, a);
    TransfersChange(s, a);
  }

  lemma FactsAt(t: Trace, i: nat)
    requires IsRun(t) && Init(t.ss[0]) && i < |t.acts|
    ensures Inv(t.ss[i]) && Enabled(t.ss[i], t.acts[i]) && t.ss[i + 1] == Perform(t.ss[i], t.acts[i])
  {
    RunKeepsInv(t, i);
  }

  /** However stale the token taken before, chip select is asserted only after the
    * driver has read ESPBUSY low, as the last thing it did. */
  lemma LowBeforeSelect(t: Trace, j: nat) returns (m: nat)
    requires IsRun(t) && Init(t.ss[0]) && j < |t.acts|
    requires !t.ss[j].select && t.ss[j + 1].select
    ensures m < j && t.acts[m] == Task && t.ss[m].pc == Spin && !t.ss[m].pin
    ensures forall k | m < k <= j :: t.ss[k].pc == Select
  {
    assert t.ss[0].pc == Idle;
    hide Inv, Enabled, Perform, Init;
    FactsAt(t, j);
    BusChanges(t.ss[j], t.acts[j]);
    m := ArrivedAt(t, j);
    FactsAt(t, m);
    IntoSelect(t.ss[m], t.acts[m]);
    BusChanges(t.ss[m], t.acts[m]);
  }

  /** The driver does not go on to chip select without the first wait: it comes there
    * from a low read of ESPBUSY or with a token taken. */
  lemma WaitBeforeSpin(t: Trace, j: nat) returns (m: nat)
    requires IsRun(t) && Init(t.ss[0]) && j < |t.ss| && t.ss[j].pc == Spin
    ensures m < j && t.acts[m] == Task
    ensures (t.ss[m].pc == ReadReady && !t.ss[m].pin) || (t.ss[m].pc == TakeReady && t.ss[m].ready)
    ensures forall k | m < k <= j :: t.ss[k].pc == Spin
  {
    assert t.ss[0].pc == Idle;
    hide Inv, Enabled, Perform, Init;
    m := ArrivedAt(t, j);
    FactsAt(t, m);
    IntoSpin(t.ss[m], t.acts[m]);
  }

  /** No transfer starts without the second wait: it begins right after a low read
    * under chip select, a token taken there, or the 5 ms. */
  lemma WaitBeforeTransfer(t: Trace, j: nat) returns (m: nat)
    requires IsRun(t) && Init(t.ss[0]) && j < |t.ss| && t.ss[j].pc == Put
    ensures m < j && t.ss[m].select
    ensures || (t.acts[m] == Task && t.ss[m].pc == ReadSelect && !t.ss[m].pin)
            || (t.acts[m] == Task && t.ss[m].pc == TakeSelect && t.ss[m].ready)
            || (t.acts[m] == Timeout && t.ss[m].pc == TakeSelect)
    ensures forall k | m < k <= j :: t.ss[k].pc == Put
  {
    assert t.ss[0].pc == Idle;
    hide Inv, Enabled, Perform, Init;
    m := ArrivedAt(t, j);
    FactsAt(t, m);
    IntoPut(t.ss[m], t.acts[m]);
    BusChanges(t.ss[m], t.acts[m]);
  }

  /** Chip select is released only after the transfer started under it has been
    * clocked out and its own completion token taken; it stays asserted from before
    * the start to the release, and no other transfer starts in between. */
  lemma BusDiscipline(t: Trace, j: nat) returns (i: nat, m: nat)
    requires IsRun(t) && Init(t.ss[0]) && j < |t.acts|
    requires t.ss[j].select && !t.ss[j + 1].select
    ensures i < m < j
    ensures t.acts[i] == Task && t.ss[i].pc == Put // the transfer starts
    ensures t.acts[m] == Task && t.ss[m].pc == Await && t.ss[m].wire == Quiet
    ensures t.ss[m].done == Some(t.ss[i].transfers + 1) // its own token
    ensures forall k | i <= k <= j :: t.ss[k].select
    ensures forall k | i < k <= j :: t.ss[k].transfers == t.ss[i].transfers + 1
  {
    assert t.ss[0].pc == Idle;
    hide Inv, Enabled, Perform, Init;
    FactsAt(t, j);
    BusChanges(t.ss[j], t.acts[j]);
    m := ArrivedAt(t, j);
    FactsAt(t, m);
    IntoDeselect(t.ss[m], t.acts[m]);
    BusChanges(t.ss[m], t.acts[m]);
    i := ArrivedAt(t, m);
    FactsAt(t, i);
    IntoAwait(t.ss[i], t.acts[i]);
    BusChanges(t.ss[i], t.acts[i]);
    assert forall k | i < k <= j :: t.ss[k].pc == Await || t.ss[k].pc == Deselect;
    forall k | i <= k <= j ensures t.ss[k].select {
      FactsAt(t, k);
      BusChanges(t.ss[k], t.acts[k]);
    }
    SameTransfers(t, i + 1, j);
  }

  lemma {:induction false} SameTransfers(t: Trace, a: nat, b: nat)
    requires IsRun(t) && Init(t.ss[0]) && a <= b < |t.ss|
    requires forall k | a <= k < b :: t.ss[k].pc != Put
    ensures forall k | a <= k <= b :: t.ss[k].transfers == t.ss[a].transfers
    decreases b
  {
    hide Inv, Enabled, Perform, Init;
    if a < b {
      SameTransfers(t, a, b - 1);
      FactsAt(t, b - 1);
      BusChanges(t.ss[b - 1], t.acts[b - 1]);
    }
  }

  /** A transfer starts only under chip select with the wire quiet and no token of
    * an earlier transfer left over. */
  lemma StartsClean(t: Trace, i: nat)
    requires IsRun(t) && Init(t.ss[0]) && i < |t.acts|
    requires t.ss[i + 1].transfers != t.ss[i].transfers
    ensures t.ss[i].select && t.ss[i].wire == Quiet && t.ss[i].done == None
    ensures t.ss[i + 1].wire == Busy(t.ss[i + 1].transfers)
  {
    hide Inv, Enabled, Perform, Init;
    FactsAt(t, i);
    BusChanges(t.ss[i], t.acts[i]);
  }

  /** Between calls, after a return by any exit, the bus is released. */
  lemma ReleasedBetweenCalls(t: Trace, i: nat)
    requires IsRun(t) && Init(t.ss[0]) && i < |t.ss| && t.ss[i].pc in {Idle, Decode}
    ensures !t.ss[i].select && t.ss[i].wire == Quiet && t.ss[i].done == None
  {
    RunKeepsInv(t, i);
  }

  /** Out of idleness only by a call, which also says whether it receives. */
  lemma OutOfIdle(s: State, a: Action)
    requires Enabled(s, a) && Perform(s, a).pc != Idle
    ensures s.pc == Idle ==> a.Call? && Perform(s, a).receiving == a.receiving
    ensures s.pc != Idle ==> Perform(s, a).receiving == s.receiving
  {
    if a == Task {
      TaskKeepsOthers(s);
    }
    hide TaskStep;
  }

  /** The call the driver is in: the last one made, and it is a send or a receive as
    * that call said. */
  lemma {:induction false} BegunByCall(t: Trace, j: nat) returns (c: nat)
    requires IsRun(t) && j < |t.ss| && t.ss[0].pc == Idle && t.ss[j].pc != Idle
    ensures c < j && t.ss[c].pc == Idle && t.acts[c] == Call(t.ss[j].receiving)
    ensures forall k | c < k <= j :: t.ss[k].pc != Idle
    decreases j
  {
    hide Enabled, Perform;
    OutOfIdle(t.ss[j - 1], t.acts[j - 1]);
    if t.ss[j - 1].pc == Idle {
      c := j - 1;
    } else {
      c := BegunByCall(t, j - 1);
    }
  }

  /** A call returns after the release of its transfer, and a receive parses in
    * between: nothing else happens to the driver from `m` to the return. */
  lemma ReturnsAfterRelease(t: Trace, j: nat) returns (m: nat)
    requires IsRun(t) && Init(t.ss[0]) && j < |t.acts|
    requires t.ss[j].pc != Idle && t.ss[j + 1].pc == Idle
    ensures m <= j && t.acts[m] == Task && t.ss[m].pc == Deselect
    ensures forall k | m < k <= j :: t.ss[k].pc == Decode
    ensures m < j <==> t.ss[j].receiving
  {
    assert t.ss[0].pc == Idle;
    hide Inv, Enabled, Perform, Init;
    FactsAt(t, j);
    IntoIdle(t.ss[j], t.acts[j]);
    m := j;
    if t.ss[j].receiving {
      m := ArrivedAt(t, j);
      FactsAt(t, m);
      IntoDecode(t.ss[m], t.acts[m]);
    }
  }

  // ---------- The token ----------

  /** The ready token comes from the interrupt of a falling edge, and goes when a
    * wait takes it or a new semaphore replaces it; nothing else touches it. */
  lemma TokenChanges(s: State, a: Action)
    requires Enabled(s, a)
    ensures var n := Perform(s, a);
            && (n.ready && !s.ready <==> a == ReadyIsr && !s.ready)
            && (s.ready && !n.ready <==>
                  s.ready && a == Task && (s.pc in {TakeReady, TakeSelect} || (s.pc == Enter && !s.initialized)))
            && (a == ReadyIsr ==> s.edge)
  {
    if a != Task {
      hide TaskStep;
    }
  }

  /** An edge comes from a fall of ESPBUSY and goes when its interrupt is served. */
  lemma EdgeChanges(s: State, a: Action)
    requires Enabled(s, a)
    ensures Perform(s, a).edge == if a == PinFall then true else if a == ReadyIsr then false else s.edge
  {
    if a == Task {
      TaskKeepsOthers(s);
    }
    hide TaskStep;
  }

  lemma TakesNeedToken(s: State)
    requires TaskEnabled(s) && s.pc in {TakeReady, TakeSelect}
    ensures s.ready
  {
  }

  function Tokens(s: State): nat {
    (if s.ready then 1 else 0) + if s.edge then 1 else 0
  }

  predicate IsTake(s: State, a: Action) {
    a == Task && s.pc in {TakeReady, TakeSelect}
  }

  /** Waits that ended by taking the token, among the first `n` steps of a run. */
  function Takes(t: Trace, n: nat): nat
    requires IsRun(t) && n <= |t.acts|
  {
    if n == 0 then 0 else Takes(t, n - 1) + if IsTake(t.ss[n - 1], t.acts[n - 1]) then 1 else 0
  }

  function Falls(t: Trace, n: nat): nat
    requires IsRun(t) && n <= |t.acts|
  {
    if n == 0 then 0 else Falls(t, n - 1) + if t.acts[n - 1] == PinFall then 1 else 0
  }

  lemma StepPaysTake(s: State, a: Action)
    requires Enabled(s, a)
    ensures Tokens(Perform(s, a)) + (if IsTake(s, a) then 1 else 0) <= Tokens(s) + if a == PinFall then 1 else 0
  {
    TokenChanges(s, a);
    EdgeChanges(s, a);
    if IsTake(s, a) {
      TakesNeedToken(s);
    }
    hide Perform, Enabled, TaskEnabled;
  }

  /** One fall of ESPBUSY ends one wait at most: what waits took and what is still
    * there to take never exceeds the falls and what was there at first. */
  lemma {:induction false} OneFallOneWait(t: Trace, n: nat)
    requires IsRun(t) && n <= |t.acts|
    ensures Takes(t, n) + Tokens(t.ss[n]) <= Falls(t, n) + Tokens(t.ss[0])
    ensures Init(t.ss[0]) ==> Takes(t, n) + Tokens(t.ss[n]) <= Falls(t, n)
    decreases n
  {
    hide Enabled, Perform, Tokens, IsTake;
    assert Init(t.ss[0]) ==> Tokens(t.ss[0]) == 0 by { NoTokensAtFirst(t.ss[0]); }
    if n > 0 {
      OneFallOneWait(t, n - 1);
      StepPaysTake(t.ss[n - 1], t.acts[n - 1]);
    }
  }

  lemma NoTokensAtFirst(s: State)
    ensures Init(s) ==> Tokens(s) == 0
  {
  }

  lemma {:induction false} StaysEnded(t: Trace, j: nat)
    requires IsRun(t) && j <= |t.acts| && !t.ss[0].initialized && t.ss[0].pc in {Idle, Enter}
    requires forall i | 0 <= i < j :: t.acts[i] != Task
    ensures !t.ss[j].initialized && t.ss[j].pc in {Idle, Enter}
    decreases j
  {
    if j > 0 {
      StaysEnded(t, j - 1);
      assert Enabled(t.ss[j - 1], t.acts[j - 1]) && t.acts[j - 1] != Task;
    }
  }

  /** No token outlives `SpiDrv_end`: the first step of the next call replaces the
    * semaphore, whatever came before it. */
  lemma NewSemaphoreIsEmpty(t: Trace, j: nat)
    requires IsRun(t) && j < |t.acts| && t.acts[j] == Task
    requires !t.ss[0].initialized && t.ss[0].pc in {Idle, Enter}
    requires forall i | 0 <= i < j :: t.acts[i] != Task
    ensures t.ss[j].pc == Enter && t.ss[j + 1].initialized && !t.ss[j + 1].ready
  {
    StaysEnded(t, j);
  }

  lemma EndedByShutdown(s: State)
    requires Inv(s) && Enabled(s, Shutdown)
    ensures var n := Perform(s, Shutdown);
            !n.initialized && n.pc == Idle && !n.select
  {
  }

  // ---------- Progress ----------

  function Rank(pc: Pc): nat {
    match pc
    case Idle => 0 case Decode => 1 case Deselect => 2 case Await => 3 case Put => 4
    case TakeSelect => 5 case ReadSelect => 6 case Select => 7 case Spin => 8
    case TakeReady => 9 case ReadReady => 10 case Enter => 11
  }

  /** What the slave and the interrupts still owe the driver at this point. */
  function Owed(s: State): nat {
    match s.pc
    case TakeReady => if s.ready then 0 else if s.edge then 1 else 2
    case Spin => if s.pin then 1 else 0
    case Await => if s.done.Some? then 0 else if s.wire.Finished? then 1 else 2
    case _ => 0
  }

  /** A useful next action. */
  function Helpful(s: State): Action {
    match s.pc
    case TakeReady => if s.ready then Task else if s.edge then ReadyIsr else PinFall
    case Spin => if s.pin then PinFall else Task
    case TakeSelect => Timeout
    case Await => if s.done.Some? then Task else if s.wire.Finished? then TxIsr else SpiDone
    case _ => Task
  }

  /** No dead end: from every state satisfying the invariant, so from every reachable
    * one, some continuation brings the driver out of its call with the bus released. */
  lemma {:induction false} CanReturn(s: State) returns (t: Trace)
    requires Inv(s)
    ensures IsRun(t) && t.ss[0] == s
    ensures t.ss[|t.acts|].pc == Idle && !t.ss[|t.acts|].select
    decreases Rank(s.pc), Owed(s)
  {
    if s.pc == Idle {
      return Trace([s], []);
    }
    var a := Helpful(s);
    HelpfulHelps(s);
    hide Inv, Enabled, Perform, Helpful, Rank, Owed;
    var rest := CanReturn(Perform(s, a));
    t := Trace([s] + rest.ss, [a] + rest.acts);
    assert forall i | 1 <= i < |t.acts| :: t.acts[i] == rest.acts[i - 1] && t.ss[i] == rest.ss[i - 1];
  }

  lemma HelpfulHelps(s: State)
    requires Inv(s) && s.pc != Idle
    ensures var a := Helpful(s);
            var n := Perform(s, a);
            && Enabled(s, a) && Inv(n)
            && (Rank(n.pc) < Rank(s.pc) || (n.pc == s.pc && Owed(n) < Owed(s)))
  {
  }

  /** What is left to do: the driver's way home, and what the pin, the edge and the
    * wire have still to go through. */
  function Debt(s: State): nat {
    4 * Rank(s.pc) + (if s.pin then 2 else 0) + (if s.edge then 1 else 0)
    + match s.wire case Quiet => 0 case Busy(_) => 2 case Finished(_) => 1
  }

  /** Every action but those that make more to do, and a vain look at ESPBUSY. */
  predicate Useful(s: State, a: Action) {
    !a.Call? && a != Shutdown && a != PinRise && !(a == Task && s.pc == Spin && s.pin)
  }

  /** Useful actions among the first `n` of a run, rises of ESPBUSY, calls. */
  function Work(t: Trace, n: nat): nat
    requires IsRun(t) && n <= |t.acts|
  {
    if n == 0 then 0 else Work(t, n - 1) + if Useful(t.ss[n - 1], t.acts[n - 1]) then 1 else 0
  }

  function Rises(t: Trace, n: nat): nat
    requires IsRun(t) && n <= |t.acts|
  {
    if n == 0 then 0 else Rises(t, n - 1) + if t.acts[n - 1] == PinRise then 1 else 0
  }

  function Calls(t: Trace, n: nat): nat
    requires IsRun(t) && n <= |t.acts|
  {
    if n == 0 then 0 else Calls(t, n - 1) + if t.acts[n - 1].Call? then 1 else 0
  }

  lemma StepPays(s: State, a: Action)
    requires Inv(s) && Enabled(s, a)
    ensures Debt(Perform(s, a)) + (if Useful(s, a) then 1 else 0)
            <= Debt(s) + (if a == PinRise then 2 else 0) + (if a.Call? then 44 else 0)
  {
    if a == Task {
      TaskPays(s);
    }
  }

  lemma TaskPays(s: State)
    requires Inv(s) && TaskEnabled(s)
    ensures Debt(TaskStep(s)) + (if s.pc == Spin && s.pin then 0 else 1) <= Debt(s)
  {
  }

  /** The work of any run is bounded: 44 for each call, 2 for each rise of ESPBUSY,
    * and what was left to do at the start. */
  lemma {:induction false} WorkBounded(t: Trace, n: nat)
    requires IsRun(t) && Inv(t.ss[0]) && n <= |t.acts|
    ensures Work(t, n) + Debt(t.ss[n]) <= Debt(t.ss[0]) + 2 * Rises(t, n) + 44 * Calls(t, n)
    ensures Inv(t.ss[n])
    decreases n
  {
    hide Inv, Enabled, Perform, Debt, Useful;
    if n > 0 {
      WorkBounded(t, n - 1);
      StepPays(t.ss[n - 1], t.acts[n - 1]);
      StepKeepsInv(t.ss[n - 1], t.acts[n - 1]);
    }
  }

  /** So every call comes to its end: a run of one call does at most 47 useful
    * actions and 2 more for each rise of ESPBUSY, and while the call has not
    * returned, with the bus released, there is a useful action it can do. */
  lemma CallEnds(t: Trace)
    requires IsRun(t) && Inv(t.ss[0]) && t.ss[0].pc == Enter
    requires forall a | a in t.acts :: !a.Call?
    ensures Work(t, |t.acts|) <= 47 + 2 * Rises(t, |t.acts|)
    ensures (forall a | Enabled(Last(t), a) :: !Useful(Last(t), a)) ==> Last(t).pc == Idle && !Last(t).select
  {
    WorkBounded(t, |t.acts|);
    NoCalls(t, |t.acts|);
    if Last(t).pc != Idle {
      HelpfulHelps(Last(t));
      assert Enabled(Last(t), Helpful(Last(t))) && Useful(Last(t), Helpful(Last(t)));
    }
  }

  lemma {:induction false} NoCalls(t: Trace, n: nat)
    requires IsRun(t) && n <= |t.acts| && forall a | a in t.acts :: !a.Call?
    ensures Calls(t, n) == 0
    decreases n
  {
    if n > 0 {
      NoCalls(t, n - 1);
    }
  }

  // ---------- A limit of the handshake ----------

  /** The two waits for ESPBUSY: where they take the token, and where they lead. */
  function Taking(read: Pc): Pc {
    if read == ReadReady then TakeReady else TakeSelect
  }

  function Leaving(read: Pc): Pc {
    if read == ReadReady then Spin else Put
  }

  /** A run of the wait that begins in `s`, to its end, in which no 5 ms run out. */
  ghost predicate Waiting(t: Trace, s: State) {
    && IsRun(t) && t.ss[0] == s && Timeout !in t.acts
    && (forall i | 0 <= i < |t.acts| :: t.ss[i].pc in {s.pc, Taking(s.pc)})
    && Last(t).pc == Leaving(s.pc)
  }

  /** ESPBUSY high, no token and no edge that could bring one. */
  predicate Held(s: State, read: Pc) {
    s.pc in {read, Taking(read)} && s.pin && !s.ready && !s.edge
  }

  lemma HeldStays(s: State, a: Action, read: Pc)
    requires read in {ReadReady, ReadSelect} && Held(s, read) && Enabled(s, a) && a != PinFall && a != Timeout
    ensures Held(Perform(s, a), read)
  {
  }

  lemma {:induction false} HeldThroughout(t: Trace, i: nat, read: Pc)
    requires read in {ReadReady, ReadSelect} && IsRun(t) && i < |t.ss|
    requires Held(t.ss[0], read) && PinFall !in t.acts && Timeout !in t.acts
    ensures Held(t.ss[i], read)
    decreases i
  {
    if i > 0 {
      HeldThroughout(t, i - 1, read);
      HeldStays(t.ss[i - 1], t.acts[i - 1], read);
    }
  }

  /** The wait that needs no fall of ESPBUSY: it takes a token that was there, or
    * that an earlier edge brings. */
  lemma WaitOnOldToken(s: State) returns (t: Trace)
    requires s.pc in {ReadReady, ReadSelect} && s.pin && (s.ready || s.edge)
    ensures Waiting(t, s) && PinFall !in t.acts && Last(t).pin
  {
    t := Started(s);
    t := Extend(t, Task); // reads ESPBUSY high
    if !s.ready {
      t := Extend(t, ReadyIsr);
    }
    t := Extend(t, Task);
  }

  /** When a wait does its job: from ESPBUSY high, every run of it sees ESPBUSY fall
    * before the driver goes on if and only if it begins with no token in the
    * semaphore and no edge still to be served. */
  lemma WaitsForFallIff(s: State)
    requires s.pc in {ReadReady, ReadSelect} && s.pin
    ensures (forall t: Trace | Waiting(t, s) :: PinFall in t.acts) <==> !s.ready && !s.edge
  {
    if s.ready || s.edge {
      var t := WaitOnOldToken(s);
    } else {
      forall t: Trace | Waiting(t, s)
        ensures PinFall in t.acts
      {
        if PinFall !in t.acts {
          HeldThroughout(t, |t.acts|, s.pc);
        }
      }
    }
  }

  /** A token left by an edge nobody waited for ends the wait after chip select at
    * once: a transfer can begin while ESPBUSY is high, with no timeout involved. */
  lemma TransferWhileBusy(s: State) returns (t: Trace)
    requires Init(s) && s.pin
    ensures IsRun(t) && t.ss[0] == s && Timeout !in t.acts
    ensures Last(t).pc == Put && Last(t).pin && Last(t).select
  {
    hide IsRun;
    t := Started(s);
    t := Extend(t, Call(false));
    t := Extend(t, Task); // begin
    t := Extend(t, PinFall);
    t := Extend(t, ReadyIsr);
    t := Extend(t, Task); // reads ESPBUSY low, leaves the token
    t := Extend(t, Task); // reads ESPBUSY low again
    t := Extend(t, Task); // asserts chip select
    t := Extend(t, PinRise);
    t := Extend(t, Task); // reads ESPBUSY high
    t := Extend(t, Task); // takes the old token
  }
}
