/** The bridge seen from outside: its state as a value, the steps that can come,
  what each of them does to the histories, and what that adds up to over a run. */
module BridgeSteps {
  import opened Bytes
  import opened BlockHeap
  import opened Chunking
  import opened RxProtocol
  import opened RxSide
  import opened TxSide

  /** What can happen next. An interrupt, a timer callback, a work item and one
    thread step are each taken whole; between any two of them anything else may
    happen, in particular between the k_malloc (`Alloc`) and the uart_tx (`Send`)
    of a round of bt_receive_cb, and between a busy uart_tx and the k_fifo_put
    that follows it (`Queue`). An interrupt comes with what its flags say, with
    what the transmit FIFO can take and with what the receive FIFO hands over. */
  datatype Step =
    | Irq(txReady: bool, room: int, txComplete: bool, rxReady: bool, avail: seq<byte>)
    | RxTimer
    | Work
    | BleGet
    | BleSend
    | Write(data: seq<byte>)
    | Alloc
    | Send
    | Queue
    | Abort

  /** Every variable of the bridge. */
  datatype State = State(size: nat, wait: int, mem: seq<Block>, free: set<nat>,
                         rx: RxHalf, fifoRx: seq<nat>, bleHand: Option<nat>, workPending: bool, disableReq: bool,
                         rxLog: RxLog,
                         tx: TxHalf, abortedBuf: Pointer, abortedLen: nat, fifoTx: seq<nat>,
                         recvActive: bool, recvData: seq<byte>, recvPos: nat, recvBlock: Option<nat>,
                         recvHand: Option<nat>, txLog: TxLog)

  predicate ReceiverIdle(s: State) {
    s.recvBlock.None? && s.recvHand.None? && (s.recvActive ==> s.recvPos == |s.recvData|)
  }

  /** Whether a step can be taken now. Aborts are taken to come while bytes are
    left to push. */
  predicate Possible(s: State, step: Step) {
    match step
    case Irq(_, _, _, _, _) => true
    case RxTimer => true
    case Work => s.workPending
    case BleGet => s.bleHand.None? && s.fifoRx != []
    case BleSend => s.bleHand.Some?
    case Write(data) => ReceiverIdle(s) && |data| <= 0xffff
    case Alloc => s.recvActive && s.recvPos < |s.recvData| && s.recvBlock.None? && s.recvHand.None?
    case Send => s.recvBlock.Some?
    case Queue => s.recvHand.Some?
    case Abort => s.tx.buf.At? ==> s.tx.sizeLeft > 0
  }

  predicate SameRx(s: State, s': State) {
    && s'.rx == s.rx && s'.fifoRx == s.fifoRx && s'.bleHand == s.bleHand && s'.workPending == s.workPending
    && s'.disableReq == s.disableReq && s'.rxLog == s.rxLog
  }

  predicate SameTx(s: State, s': State) {
    && s'.tx == s.tx && s'.abortedBuf == s.abortedBuf && s'.abortedLen == s.abortedLen && s'.fifoTx == s.fifoTx
    && SameWriter(s, s') && s'.txLog == s.txLog
  }

  predicate SameWriter(s: State, s': State) {
    && s'.recvActive == s.recvActive && s'.recvData == s.recvData && s'.recvPos == s.recvPos
    && s'.recvBlock == s.recvBlock && s'.recvHand == s.recvHand
  }

  // ----------------------------------------------------------- interrupts

  /** How many bytes of the block in flight the interrupt pushes. */
  function Pushes(s: State, irq: Step): nat
    requires irq.Irq?
  {
    if s.tx.enabled && irq.txReady then Pushable(s.tx, irq.room) else 0
  }

  /** Whether it reports the block in flight as sent. */
  predicate Completes(s: State, irq: Step)
    requires irq.Irq?
  {
    s.tx.enabled && irq.txComplete && s.tx.sizeLeft == Pushes(s, irq)
  }

  function WireLog(s: State, irq: Step): TxLog
    requires irq.Irq?
  {
    if s.tx.buf.At? && s.tx.currBuf.At? then
      var t, from := Text(s.mem, s.tx.buf.block), s.tx.currBuf.off;
      var to := from + Pushes(s, irq);
      var pushed := s.txLog.(wire := s.txLog.wire + (if to <= |t| then t[from..to] else []));
      if Completes(s, irq)
      then pushed.(done := s.txLog.done + [t], stranded := Stranded(s.txLog, s.fifoTx, Opt(s.recvHand)))
      else pushed
    else s.txLog
  }

  /** The transmitter once the interrupt has pushed, and perhaps started the head of the queue. */
  function WireTx(s: State, irq: Step): TxHalf
    requires irq.Irq?
  {
    if !(s.tx.buf.At? && s.tx.currBuf.At?) then s.tx
    else if !Completes(s, irq) then
      var n := Pushes(s, irq);
      s.tx.(currBuf := At(s.tx.buf.block, s.tx.currBuf.off + n), sizeLeft := s.tx.sizeLeft - n)
    else if s.fifoTx == [] || s.fifoTx[0] >= |s.mem| then TxHalf(Null, Null, 0, false)
    else TxHalf(At(s.fifoTx[0], 0), At(s.fifoTx[0], 0), s.mem[s.fifoTx[0]].len, true)
  }

  /** The free blocks once the transmit half of the interrupt is done. */
  function FreeForRx(s: State, irq: Step): set<nat>
    requires irq.Irq?
  {
    if Completes(s, irq) && s.tx.buf.At? then s.free + {s.tx.buf.block} else s.free
  }

  /** The state the receive half of the interrupt finds. */
  function AfterTx(s: State, irq: Step): State
    requires irq.Irq?
  {
    s.(free := FreeForRx(s, irq))
  }

  /** Whether the step takes bytes from the receive FIFO. */
  predicate Listens(s: State, step: Step) {
    step.Irq? && step.rxReady && s.rx.enabled
  }

  /** What it takes. */
  function Heard(s: State, step: Step): seq<byte> {
    if Listens(s, step) then step.avail else []
  }

  function RoomOf(s: State, avail: seq<byte>): nat {
    Room(s.rx, s.mem, s.free, s.size, avail)
  }

  function RoomFor(s: State, step: Step): nat {
    if step.Irq? then RoomOf(AfterTx(s, step), step.avail) else 0
  }

  /** What it keeps of that. */
  function KeptOf(s: State, step: Step): seq<byte> {
    First(Heard(s, step), RoomFor(s, step))
  }

  /** The first `n` items of `s`, or all there are. */
  function First<T>(s: seq<T>, n: nat): seq<T> {
    if |s| <= n then s else s[..n]
  }

  // ---------------------------------------------------------------- steps

  /** Texts on their way to BLE. */
  function BleTexts(s: State): seq<seq<byte>> {
    Texts(s.mem, Opt(s.bleHand) + s.fifoRx)
  }

  /** A next buffer is prepared, or no block is free to make one of. */
  predicate Stocked(s: State) {
    s.rx.nextBuf.At? || s.free == {}
  }

  /** After `avail` there is room for exactly what there was room for behind it. */
  ghost predicate RoomLeft(s: State, avail: seq<byte>, s': State) {
    && s'.rx.enabled && s'.rx.timeout != 0
    && forall more: seq<byte> :: RoomOf(s', more) + |avail| == RoomOf(s, avail + more)
  }

  /** Reception reports after a time without bytes, and not at once. */
  predicate Timed(s: State) {
    s.rx.timeout != 0 && s.wait != 0
  }

  /** `avail` has been read into the current buffer, and nothing else has happened. */
  predicate OnlyRead(s: State, avail: seq<byte>, s': State) {
    && |avail| <= s.rx.sizeLeft
    && s'.rx == s.rx.(currBuf := s'.rx.currBuf, sizeLeft := s.rx.sizeLeft - |avail|)
    && s'.rxLog.events == s.rxLog.events && s'.free == s.free && s'.fifoRx == s.fifoRx
    && s'.workPending == s.workPending
  }

  /** What the receive half of an interrupt does when the FIFO hands over `avail`. */
  ghost predicate ListenDoes(s: State, avail: seq<byte>, s': State) {
    && s'.rxLog.hw == Received(s.rxLog.hw, avail, RoomOf(s, avail))
    && s.fifoRx <= s'.fifoRx && BleTexts(s) <= BleTexts(s')
    // no full buffer stays, nothing waits for a timer that is not used, and what can be prepared is prepared
    && (s'.rx.buf.Null? <==> s'.rx.sizeLeft == 0)
    && (s'.rx.timeout == 0 ==> Unnotified(s'.mem, s'.rx) == [])
    && (s'.rx.buf.Null? && s'.rx.nextBuf.Null? ==> s'.free == {})
    && (Stocked(s) ==> Stocked(s'))
    && (s.rx.buf.Null? && s.rx.nextBuf.Null? ==>
          s'.rx.enabled && s'.rx.buf.Null? && s'.fifoRx == s.fifoRx && (s'.rx.nextBuf.At? <==> s.free != {}))
    // the room is used up, or what is left of it is left
    && (|avail| >= RoomOf(s, avail) ==> s'.rx.buf.Null? && (Stocked(s) ==> s'.rx.nextBuf.Null?))
    && (|avail| < RoomOf(s, avail) && Timed(s) ==> s'.rx.buf.At? && RoomLeft(s, avail, s'))
    // reports and payloads are whole buffers; anything less is left to the timer, if there is one
    && (Timed(s) ==>
          && FullReports(s'.rxLog.events, |s.rxLog.events|, s.size)
          && FullTexts(BleTexts(s'), |BleTexts(s)|, s.size)
          && if |avail| < s.rx.sizeLeft then OnlyRead(s, avail, s')
             else s'.rx.buf.At? ==> s'.rx.lastNotifyBuf.At? && s'.rx.lastNotifyBuf.off == 0)
    && LateReport(s'.rxLog.events, |s.rxLog.events|, s.size)
  }

  ghost predicate IrqDoes(s: State, irq: Step, s': State)
    requires irq.Irq?
  {
    && s'.txLog == WireLog(s, irq) && s'.rxLog.sent == s.rxLog.sent
    && s'.fifoTx == (if Completes(s, irq) then NextFifo(s.fifoTx) else s.fifoTx)
    && s'.tx == WireTx(s, irq) && SameWriter(s, s') && s'.bleHand == s.bleHand
    && (Listens(s, irq) ==> ListenDoes(AfterTx(s, irq), irq.avail, s'))
    && (!Listens(s, irq) ==> SameRx(s, s') && s'.mem == s.mem && s'.free == FreeForRx(s, irq))
  }

  /** All that was received into the current buffer is queued, and reception
    restarts with a spare block; with none, the work item will try again. */
  ghost predicate FlushDoes(s: State, s': State) {
    && s.rx.buf.At? && s'.fifoRx == s.fifoRx + [s.rx.buf.block]
    && BleTexts(s') == BleTexts(s) + [Filled(s.mem, s.rx)]
    && s'.rx.buf.Null? && s'.rx.currBuf.Null? && s'.rx.lastNotifyBuf.Null?
    && (Spare(s.rx, s.free) == {} ==> s'.rx.nextBuf.Null? && !s'.rx.enabled && s'.workPending && s'.free == {})
    && (Spare(s.rx, s.free) != {} ==>
          && s'.rx.nextBuf.At? && s'.rx.nextBuf.block in Spare(s.rx, s.free)
          && s'.free == Spare(s.rx, s.free) - {s'.rx.nextBuf.block}
          && s'.rx.enabled && s'.workPending == s.workPending && s'.rx.timeout == s.wait)
  }

  ghost predicate TimerDoes(s: State, s': State) {
    && SameTx(s, s') && s'.rxLog.hw == s.rxLog.hw && s'.rxLog.sent == s.rxLog.sent && s'.bleHand == s.bleHand
    && if EndsLine(Unnotified(s.mem, s.rx)) then FlushDoes(s, s')
       else
         && s'.rx == s.rx.(lastNotifyBuf := s.rx.currBuf) && Unnotified(s'.mem, s'.rx) == []
         && s'.fifoRx == s.fifoRx && s'.free == s.free && s'.workPending == s.workPending
         && BleTexts(s') == BleTexts(s)
  }

  ghost predicate WorkDoes(s: State, s': State) {
    && SameTx(s, s') && s'.rxLog.hw == s.rxLog.hw && s'.rxLog.sent == s.rxLog.sent && s'.bleHand == s.bleHand
    && s'.fifoRx == s.fifoRx && BleTexts(s') == BleTexts(s)
    && (s'.workPending <==> s.free == {})
    && (s.free == {} ==> s'.rx == s.rx && s'.free == {})
    && (s.free != {} ==>
          && s'.rx == RxHalf(Null, Null, Null, 0, s'.rx.nextBuf, s.size, s.wait, true)
          && s'.rx.nextBuf.At? && s'.rx.nextBuf.block in s.free && s'.free == s.free - {s'.rx.nextBuf.block})
  }

  ghost predicate AllocDoes(s: State, s': State) {
    && SameRx(s, s') && s'.mem == s.mem && s'.tx == s.tx && s'.fifoTx == s.fifoTx && s'.txLog == s.txLog
    && s'.recvData == s.recvData && s'.recvPos == s.recvPos && s'.recvHand == s.recvHand
    && (s'.recvActive <==> s.free != {})
    && (s.free == {} ==> s'.recvBlock.None? && s'.free == {})
    && (s.free != {} ==> s'.recvBlock.Some? && s'.recvBlock.value in s.free && s'.free == s.free - {s'.recvBlock.value})
  }

  ghost predicate SendDoes(s: State, s': State)
    requires s.recvBlock.Some?
  {
    && SameRx(s, s') && s'.free == s.free && s'.fifoTx == s.fifoTx
    && s'.recvActive == s.recvActive && s'.recvData == s.recvData && s'.recvBlock.None?
    && 2 <= s.size && s.recvPos < |s.recvData| && LastRequest(s.txLog, Request(s.recvData, s.recvPos))
    && s'.recvPos == s.recvPos + Take(|s.recvData|, s.recvPos, s.size)
    && s'.txLog == Submit(s.txLog, Request(s.recvData, s.recvPos), s.size)
    && OnlyBlock(s.mem, s'.mem, s.recvBlock.value)
    && Text(s'.mem, s.recvBlock.value) == Chunk(s.recvData, s.recvPos, s.size)
    && s'.recvHand == (if s.tx.buf.At? then s.recvBlock else None)
    && s'.tx == (if s.tx.buf.At? then s.tx
                 else TxHalf(At(s.recvBlock.value, 0), At(s.recvBlock.value, 0),
                             |Chunk(s.recvData, s.recvPos, s.size)|, true))
  }

  /** What a step does. */
  ghost predicate Does(s: State, step: Step, s': State)
    requires Possible(s, step)
  {
    match step
    case Irq(_, _, _, _, _) => IrqDoes(s, step, s')
    case RxTimer => TimerDoes(s, s')
    case Work => WorkDoes(s, s')
    case BleGet =>
      && SameTx(s, s') && s'.rxLog == s.rxLog && s'.rx == s.rx && s'.mem == s.mem && s'.free == s.free
      && s'.bleHand == Some(s.fifoRx[0]) && s'.fifoRx == s.fifoRx[1..]
    case BleSend =>
      && SameTx(s, s') && s'.rx == s.rx && s'.fifoRx == s.fifoRx && s'.mem == s.mem
      && s'.bleHand.None? && s'.free == s.free + {s.bleHand.value}
      && s'.rxLog == s.rxLog.(sent := s.rxLog.sent + [Text(s.mem, s.bleHand.value)])
    case Write(data) =>
      && SameRx(s, s') && s'.tx == s.tx && s'.fifoTx == s.fifoTx && s'.mem == s.mem && s'.free == s.free
      && s'.recvActive && s'.recvData == data && s'.recvPos == 0 && s'.recvBlock.None? && s'.recvHand.None?
      && s'.txLog == s.txLog.(requests := s.txLog.requests + [Request(data, 0)])
    case Alloc => AllocDoes(s, s')
    case Send => SendDoes(s, s')
    case Queue =>
      && SameRx(s, s') && s'.tx == s.tx && s'.mem == s.mem && s'.free == s.free && s'.txLog == s.txLog
      && s'.recvActive == s.recvActive && s'.recvData == s.recvData && s'.recvPos == s.recvPos
      && s'.recvBlock == s.recvBlock
      && s'.fifoTx == s.fifoTx + [s.recvHand.value] && s'.recvHand.None?
    case Abort =>
      && SameRx(s, s') && SameWriter(s, s') && s'.fifoTx == s.fifoTx && s'.mem == s.mem && s'.free == s.free
      && s'.txLog == s.txLog
      && s'.tx == (if s.tx.buf.At? then TxHalf(s.tx.currBuf, s.tx.currBuf, s.tx.sizeLeft, true) else s.tx)
  }

  /** Receive interrupts are on, or the work item will switch them on. */
  predicate Alive(s: State) {
    s.rx.enabled == !s.workPending
  }

  ghost predicate Next(s: State, step: Step, s': State) {
    && s'.size == s.size && s'.wait == s.wait
    && s.rxLog.events <= s'.rxLog.events && (Alive(s) ==> Alive(s'))
    && if Possible(s, step) then Does(s, step, s') else s' == s
  }

  /** `trace` holds the state before each step, and the last one. */
  ghost predicate IsRun(trace: seq<State>, steps: seq<Step>) {
    && |trace| == |steps| + 1
    && forall i :: 0 <= i < |steps| ==> Next(trace[i], steps[i], trace[i + 1])
  }

  // ----------------------------------------------------- what a run adds up to

  function HeardIn(trace: seq<State>, steps: seq<Step>): seq<byte>
    requires |trace| == |steps| + 1
  {
    if steps == [] then []
    else HeardIn(trace[..|steps|], steps[..|steps| - 1]) + Heard(trace[|steps| - 1], steps[|steps| - 1])
  }

  function KeptIn(trace: seq<State>, steps: seq<Step>): seq<byte>
    requires |trace| == |steps| + 1
  {
    if steps == [] then []
    else KeptIn(trace[..|steps|], steps[..|steps| - 1]) + KeptOf(trace[|steps| - 1], steps[|steps| - 1])
  }

  /** The writes that arrived. */
  function WrittenIn(trace: seq<State>, steps: seq<Step>): seq<seq<byte>>
    requires |trace| == |steps| + 1
  {
    if steps == [] then []
    else WrittenIn(trace[..|steps|], steps[..|steps| - 1])
         + (var s, step := trace[|steps| - 1], steps[|steps| - 1];
            if step.Write? && Possible(s, step) then [step.data] else [])
  }

  /** The payload, counted from 0, that the step strands. */
  function Strandees(s: State, step: Step): set<int> {
    if step.Irq? && Completes(s, step) && s.tx.buf.At? && s.tx.currBuf.At? && s.fifoTx == [] && s.recvHand.Some?
    then {|s.txLog.submitted| - 1} else {}
  }

  function StrandedIn(trace: seq<State>, steps: seq<Step>): set<int>
    requires |trace| == |steps| + 1
  {
    if steps == [] then {}
    else StrandedIn(trace[..|steps|], steps[..|steps| - 1]) + Strandees(trace[|steps| - 1], steps[|steps| - 1])
  }

  function Datas(rs: seq<Request>): seq<seq<byte>> {
    seq(|rs|, i requires 0 <= i < |rs| => rs[i].data)
  }

  lemma StepReceives(s: State, step: Step, s': State)
    requires Next(s, step, s')
    ensures AllBytes(s'.rxLog.hw) == AllBytes(s.rxLog.hw) + Heard(s, step)
    ensures KeptBytes(s'.rxLog.hw) == KeptBytes(s.rxLog.hw) + KeptOf(s, step)
    ensures s.rxLog.sent <= s'.rxLog.sent
  {
    hide AllBytes, KeptBytes, Received, Room, RoomLeft, Texts, WireLog, SameTx;
    if Listens(s, step) {
      ReceivedBytes(s.rxLog.hw, step.avail, RoomFor(s, step));
    }
  }

  lemma StepRequests(s: State, step: Step, s': State)
    requires Next(s, step, s')
    ensures Datas(s'.txLog.requests) == Datas(s.txLog.requests)
              + (if step.Write? && Possible(s, step) then [step.data] else [])
    ensures s.txLog.wire <= s'.txLog.wire && s.txLog.done <= s'.txLog.done && s.txLog.submitted <= s'.txLog.submitted
    ensures s'.txLog.stranded == s.txLog.stranded + Strandees(s, step)
  {
    hide ListenDoes, FlushDoes, Received, Room, Chunk, Text;
  }

  /** The histories of a run, from what the hardware and the peer gave it. */
  lemma {:induction false} RunHistory(trace: seq<State>, steps: seq<Step>)
    requires IsRun(trace, steps)
    ensures var a, z := trace[0], trace[|steps|];
      && AllBytes(z.rxLog.hw) == AllBytes(a.rxLog.hw) + HeardIn(trace, steps)
      && KeptBytes(z.rxLog.hw) == KeptBytes(a.rxLog.hw) + KeptIn(trace, steps)
      && Datas(z.txLog.requests) == Datas(a.txLog.requests) + WrittenIn(trace, steps)
      && a.rxLog.sent <= z.rxLog.sent && a.txLog.wire <= z.txLog.wire && a.txLog.done <= z.txLog.done
      && a.txLog.submitted <= z.txLog.submitted && z.txLog.stranded == a.txLog.stranded + StrandedIn(trace, steps)
    decreases |steps|
  {
    hide Next, AllBytes, KeptBytes, Datas, Heard, KeptOf, Strandees;
    if steps != [] {
      var n := |steps| - 1;
      RunHistory(trace[..n + 1], steps[..n]);
      StepReceives(trace[n], steps[n], trace[n + 1]);
      StepRequests(trace[n], steps[n], trace[n + 1]);
    }
  }

  /** A run drops nothing exactly when each interrupt has room for what it is given. */
  lemma {:induction false} KeptWhole(trace: seq<State>, steps: seq<Step>)
    requires |trace| == |steps| + 1
    ensures |KeptIn(trace, steps)| <= |HeardIn(trace, steps)|
    ensures KeptIn(trace, steps) == HeardIn(trace, steps)
       <==> forall i :: 0 <= i < |steps| ==> |Heard(trace[i], steps[i])| <= RoomFor(trace[i], steps[i])
    decreases |steps|
  {
    hide Heard, RoomFor;
    if steps != [] {
      var n := |steps| - 1;
      var was, now := trace[..n + 1], steps[..n];
      KeptWhole(was, now);
      assert forall i :: 0 <= i < n ==> was[i] == trace[i] && now[i] == steps[i];
      SameSum(KeptIn(was, now), KeptOf(trace[n], steps[n]), HeardIn(was, now), Heard(trace[n], steps[n]));
    }
  }

  // ------------------------------------------------------ reception goes on

  /** Neither a current nor a next buffer. */
  predicate Bufferless(s: State) {
    s.rx.buf.Null? && s.rx.nextBuf.Null?
  }

  /** A receive interrupt, or the work item, finds no buffer but a block that is
    free, or that the interrupt frees by completing the block in flight. */
  predicate CanPrepare(s: State, step: Step) {
    && s.rx.buf.Null? && s.rx.nextBuf.Null?
    && ((step.Irq? && step.rxReady && s.rx.enabled) || (step.Work? && s.workPending))
    && (s.free != {}
        || (step.Irq? && step.txComplete && s.tx.enabled && s.tx.buf.At?
            && (s.tx.sizeLeft == 0 || (step.txReady && step.room >= s.tx.sizeLeft))))
  }

  predicate Prepared(s: State) {
    s.rx.enabled && s.rx.nextBuf.At?
  }

  lemma PreparesBuffer(s: State, step: Step, s': State)
    requires Next(s, step, s') && CanPrepare(s, step)
    ensures Prepared(s')
  {
    hide Received, Room, RoomLeft, WireLog, Texts;
  }

  lemma StaysPrepared(s: State, step: Step, s': State)
    requires Next(s, step, s') && Alive(s) && Prepared(s) && !Listens(s, step)
    ensures Prepared(s')
  {
    hide ListenDoes, WireLog, Submit, Texts;
  }

  lemma PreparedRoom(s: State, avail: seq<byte>)
    requires s.rx.nextBuf.At?
    ensures s.size <= RoomOf(s, avail)
  {
    assert s.rx.nextBuf.block in Spare(s.rx, s.free);
    var n := |Spare(s.rx, s.free)|;
    assert n * s.size == (n - 1) * s.size + s.size;
  }

  /** Reception never dies: once a receive interrupt or the work item has found a
    free block, the next receive interrupt keeps its bytes, up to a whole buffer
    of them, whatever came in between. */
  lemma {:induction false} RxNeverDies(trace: seq<State>, steps: seq<Step>, i: nat, j: nat)
    requires IsRun(trace, steps) && i < j < |steps| && CanPrepare(trace[i], steps[i])
    requires trace[0].rx.enabled == !trace[0].workPending
    requires forall k :: i < k < j ==> !(steps[k].Irq? && steps[k].rxReady)
    requires steps[j].Irq? && steps[j].rxReady
    ensures AllBytes(trace[j + 1].rxLog.hw) == AllBytes(trace[j].rxLog.hw) + steps[j].avail
    ensures KeptBytes(trace[j].rxLog.hw) + First(steps[j].avail, trace[j].size) <= KeptBytes(trace[j + 1].rxLog.hw)
  {
    hide ListenDoes, Does, Room, AllBytes, KeptBytes;
    for k := 0 to i + 1
      invariant Alive(trace[k])
    {
    }
    PreparesBuffer(trace[i], steps[i], trace[i + 1]);
    for k := i + 1 to j
      invariant Alive(trace[k]) && Prepared(trace[k])
    {
      StaysPrepared(trace[k], steps[k], trace[k + 1]);
    }
    PreparedRoom(AfterTx(trace[j], steps[j]), steps[j].avail);
    StepReceives(trace[j], steps[j], trace[j + 1]);
  }

  lemma StockedRoom(s: State, avail: seq<byte>)
    requires Stocked(s)
    ensures RoomOf(s, avail) == RoomOf(s, [])
  {
    if s.rx.nextBuf.Null? {
      assert Spare(s.rx, s.free) == {};
    }
  }

  /** Receive interrupts with nothing in between but the transmitter pushing bytes. */
  predicate Burst(trace: seq<State>, steps: seq<Step>)
    requires |trace| == |steps| + 1
  {
    forall i :: 0 <= i < |steps| ==> steps[i].Irq? && steps[i].rxReady && !Completes(trace[i], steps[i])
  }

  /** Where a burst has got to: `n` bytes were taken, `room` was the room for them. */
  predicate BurstAt(s: State, n: nat, room: nat) {
    if n < room then s.rx.enabled && s.rx.timeout != 0 && s.wait != 0 && Stocked(s) && RoomOf(s, []) + n == room
    else Bufferless(s) && s.free == {} && s.rx.sizeLeft == 0
  }

  lemma BurstStep(s: State, irq: Step, s': State, n: nat, room: nat)
    requires Next(s, irq, s') && irq.Irq? && irq.rxReady && !Completes(s, irq) && BurstAt(s, n, room)
    ensures BurstAt(s', n + |Heard(s, irq)|, room)
    ensures KeptOf(s, irq) == if n < room then First(Heard(s, irq), room - n) else []
  {
    hide Received, Texts, WireLog, Room;
    assert AfterTx(s, irq) == s;
    if n < room {
      StockedRoom(s, irq.avail);
      if |irq.avail| < RoomOf(s, irq.avail) {
        StockedRoom(s, irq.avail + []);
        assert RoomOf(s', []) + |irq.avail| == RoomOf(s, irq.avail + []);
      }
    } else {
      EmptyRoom(s, irq.avail);
    }
  }

  lemma EmptyRoom(s: State, avail: seq<byte>)
    requires Bufferless(s) && s.free == {} && s.rx.sizeLeft == 0
    ensures RoomOf(s, avail) == 0
  {
    assert Spare(s.rx, s.free) == {};
  }

  /** However a burst is cut into interrupts, it is kept up to the room there was
    for it when it began, and the rest of it is dropped. */
  lemma {:induction false} BurstKept(trace: seq<State>, steps: seq<Step>, room: nat)
    requires IsRun(trace, steps) && Burst(trace, steps) && BurstAt(trace[0], 0, room)
    ensures BurstAt(trace[|steps|], |HeardIn(trace, steps)|, room)
    ensures KeptIn(trace, steps) == First(HeardIn(trace, steps), room)
    decreases |steps|
  {
    hide Next, BurstAt, Heard, KeptOf, Completes;
    if steps != [] {
      var n := |steps| - 1;
      var was, now := trace[..n + 1], steps[..n];
      BurstKept(was, now, room);
      BurstStep(trace[n], steps[n], trace[n + 1], |HeardIn(was, now)|, room);
    }
  }

  lemma SameSum(a: seq<byte>, b: seq<byte>, c: seq<byte>, d: seq<byte>)
    requires |a| <= |c| && |b| <= |d|
    ensures a + b == c + d <==> a == c && b == d
  {
    if a + b == c + d {
      assert |a| + |b| == |c| + |d|;
      assert a == (a + b)[..|a|] && b == (a + b)[|a|..];
    }
  }
}
