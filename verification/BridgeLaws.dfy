/** What the steps of the bridge come to on its variables and histories, and what
  threads and interrupts left alone achieve in a run. Nothing here is stated
  through the guards and effects that the steps are defined by. */
module BridgeLaws {
  import opened Bytes
  import opened BlockHeap
  import opened Chunking
  import opened RxProtocol
  import opened RxSide
  import opened TxSide
  import opened BridgeSteps

  /** The last byte is CR or LF. */
  predicate IsLine(s: seq<byte>) {
    s != [] && (s[|s| - 1] == 13 || s[|s| - 1] == 10)
  }

  // ------------------------------------------------------------ interrupts

  /** The transmit pointers of a state that is idle or has a transfer under way. */
  predicate TxSound(s: State) {
    && s.tx.enabled == s.tx.buf.At?
    && (s.tx.buf.Null? ==> s.tx.sizeLeft == 0)
    && (s.tx.buf.At? ==>
          && s.tx.currBuf.At? && s.tx.currBuf.block == s.tx.buf.block
          && s.tx.currBuf.off + s.tx.sizeLeft == |Text(s.mem, s.tx.buf.block)|)
    && forall i :: 0 <= i < |s.fifoTx| ==> s.fifoTx[i] < |s.mem| && 0 < s.mem[s.fifoTx[i]].len
  }

  /** An idle transmitter stays so. A busy one pushes as much of the block in
    flight as the FIFO takes, and when its last byte is out and completion is
    signalled, the payload is done and the head of the queue is next. */
  lemma IrqTransmits(s: State, irq: Step, s': State)
    requires irq.Irq? && Next(s, irq, s') && TxSound(s)
    ensures SameWriter(s, s') && s'.txLog.submitted == s.txLog.submitted && s'.txLog.requests == s.txLog.requests
    ensures s.tx.buf.Null? ==> s'.tx == s.tx && s'.txLog == s.txLog && s'.fifoTx == s.fifoTx
    ensures s.tx.buf.At? ==>
      var left, t, c := s.tx.sizeLeft, Text(s.mem, s.tx.buf.block), s.tx.currBuf.off;
      var n := if !irq.txReady || irq.room <= 0 then 0 else if irq.room <= left then irq.room else left;
      && s'.txLog.wire == s.txLog.wire + t[c..c + n]
      && (irq.txComplete && n == left ==>
            && s'.txLog.done == s.txLog.done + [t] && (s'.tx.buf.At? <==> s.fifoTx != [])
            && (s'.tx.buf.At? ==>
                  && s'.tx.buf == s'.tx.currBuf == At(s.fifoTx[0], 0) && s'.tx.sizeLeft == s.mem[s.fifoTx[0]].len
                  && s'.fifoTx == s.fifoTx[1..])
            && (s'.tx.buf.Null? ==> s'.fifoTx == []))
      && (!(irq.txComplete && n == left) ==>
            && s'.txLog.done == s.txLog.done && s'.fifoTx == s.fifoTx && s'.tx.buf == s.tx.buf
            && s'.tx.currBuf == At(s.tx.buf.block, c + n) && s'.tx.sizeLeft == left - n)
  {
    hide ListenDoes, Text;
  }

  /** Lengths alone. */
  lemma IrqTransmitsBytes(s: State, irq: Step, s': State)
    requires irq.Irq? && Next(s, irq, s') && TxSound(s)
    ensures SameWriter(s, s')
    ensures |s'.txLog.wire| == |s.txLog.wire|
      + (if irq.txReady && irq.room > 0 then (if irq.room <= s.tx.sizeLeft then irq.room else s.tx.sizeLeft) else 0)
    ensures |s'.txLog.done| == |s.txLog.done|
      + (if irq.txComplete && s.tx.buf.At? && (s.tx.sizeLeft == 0 || (irq.txReady && irq.room >= s.tx.sizeLeft))
         then 1 else 0)
  {
    hide Next;
    IrqTransmits(s, irq, s');
  }

  /** An interrupt that finds reception on takes all there is. With no transfer
    completed in it, it keeps as many bytes as fit the current buffer and, with a
    next buffer prepared or a line ending just where the current one is full, the
    next and all free blocks. */
  lemma IrqReceives(s: State, irq: Step, s': State)
    requires irq.Irq? && irq.rxReady && s.rx.enabled && Next(s, irq, s')
    ensures AllBytes(s'.rxLog.hw) == AllBytes(s.rxLog.hw) + irq.avail
    ensures s'.rxLog.sent == s.rxLog.sent && s'.bleHand == s.bleHand
    ensures !irq.txComplete && s.rx.nextBuf.At? && s.rx.nextBuf.block !in s.free ==>
      KeptBytes(s'.rxLog.hw)
      == KeptBytes(s.rxLog.hw) + First(irq.avail, s.rx.sizeLeft + (1 + |s.free|) * s.size)
    ensures !irq.txComplete && s.rx.nextBuf.Null? ==>
      var lineFills := s.rx.sizeLeft <= |irq.avail| && IsLine(Unnotified(s.mem, s.rx) + irq.avail[..s.rx.sizeLeft]);
      KeptBytes(s'.rxLog.hw)
      == KeptBytes(s.rxLog.hw) + First(irq.avail, s.rx.sizeLeft + (if lineFills then |s.free| * s.size else 0))
    ensures s.rx.buf.Null? && s.rx.nextBuf.Null? && s.free != {} ==> s'.rx.nextBuf.At?
  {
    hide AllBytes, KeptBytes, ListenDoes, WireLog, WireTx, Unnotified;
    StepReceives(s, irq, s');
    RoomValue(s, irq.avail);
    PreparesIfFree(s, irq, s');
  }

  lemma PreparesIfFree(s: State, irq: Step, s': State)
    requires irq.Irq? && irq.rxReady && s.rx.enabled && Next(s, irq, s')
    ensures s.rx.buf.Null? && s.rx.nextBuf.Null? && s.free != {} ==> s'.rx.nextBuf.At?
  {
    if s.rx.buf.Null? && s.rx.nextBuf.Null? && s.free != {} {
      PreparesBuffer(s, irq, s');
    }
  }

  lemma RoomValue(s: State, avail: seq<byte>)
    ensures s.rx.nextBuf.At? && s.rx.nextBuf.block !in s.free ==>
      RoomOf(s, avail) == s.rx.sizeLeft + (1 + |s.free|) * s.size
    ensures s.rx.nextBuf.Null? ==>
      var lineFills := s.rx.sizeLeft <= |avail| && IsLine(Unnotified(s.mem, s.rx) + avail[..s.rx.sizeLeft]);
      RoomOf(s, avail) == s.rx.sizeLeft + (if lineFills then |s.free| * s.size else 0)
  {
    hide Unnotified;
    if s.rx.nextBuf.Null? {
      assert Spare(s.rx, s.free) == s.free;
    }
  }

  /** With a timer, bytes that do not fill the buffer are stored and left to it;
    otherwise only full buffers are reported, and only they are queued. */
  lemma IrqReports(s: State, irq: Step, s': State)
    requires irq.Irq? && irq.rxReady && s.rx.enabled && Next(s, irq, s') && s.rx.timeout != 0 && s.wait != 0
    ensures |irq.avail| < s.rx.sizeLeft ==>
      && s'.rxLog.events == s.rxLog.events && s'.fifoRx == s.fifoRx && s'.rx.enabled
      && s'.rx.buf == s.rx.buf && s'.rx.lastNotifyBuf == s.rx.lastNotifyBuf && s'.rx.nextBuf == s.rx.nextBuf
      && s'.rx.sizeLeft == s.rx.sizeLeft - |irq.avail|
    ensures s'.rx.buf.Null? <==> s'.rx.sizeLeft == 0
    ensures BleTexts(s) <= BleTexts(s')
    ensures |irq.avail| >= s.rx.sizeLeft && s'.rx.buf.At? ==> s'.rx.lastNotifyBuf.At? && s'.rx.lastNotifyBuf.off == 0
    ensures forall k :: |s.rxLog.events| <= k < |s'.rxLog.events| && s'.rxLog.events[k].Ready? ==>
      s'.rxLog.events[k].offset + s'.rxLog.events[k].len == s.size
    ensures forall k :: |BleTexts(s)| <= k < |BleTexts(s')| ==> |BleTexts(s')[k]| == s.size
  {
    hide WireLog, WireTx, Room, RoomLeft, Received, Texts;
  }

  lemma IrqDeaf(s: State, irq: Step, s': State)
    requires irq.Irq? && Next(s, irq, s') && !(irq.rxReady && s.rx.enabled)
    ensures s'.rx == s.rx && s'.rxLog == s.rxLog && s'.fifoRx == s.fifoRx && s'.workPending == s.workPending
    ensures s'.mem == s.mem
  {
    hide WireLog, WireTx, ListenDoes;
  }

  // --------------------------------------------- timer, work item and abort

  /** The timer reports what was not reported: a line's end sends the filled part
    of the buffer on its way to BLE, anything else stays where it is. */
  lemma TimerReports(s: State, s': State)
    requires Next(s, RxTimer, s')
    ensures s'.rxLog.sent == s.rxLog.sent && s'.rxLog.hw == s.rxLog.hw && s'.bleHand == s.bleHand
    ensures IsLine(Unnotified(s.mem, s.rx)) ==>
      && s.rx.buf.At? && s'.rx.buf.Null? && s'.fifoRx == s.fifoRx + [s.rx.buf.block]
      && BleTexts(s') == BleTexts(s) + [Filled(s.mem, s.rx)]
      && (s'.rx.nextBuf.At? <==> s.rx.nextBuf.At? || s.free != {}) && (s'.rx.enabled <==> s'.rx.nextBuf.At?)
    ensures !IsLine(Unnotified(s.mem, s.rx)) ==>
      && Unnotified(s'.mem, s'.rx) == [] && BleTexts(s') == BleTexts(s)
      && s'.rx == s.rx.(lastNotifyBuf := s.rx.currBuf) && s'.fifoRx == s.fifoRx && s'.free == s.free
  {
    hide Texts, Unnotified, Filled;
  }

  lemma WorkRestarts(s: State, s': State)
    requires Next(s, Work, s') && s.workPending
    ensures s.free != {} ==> s'.rx.enabled && s'.rx.nextBuf.At? && s'.rx.buf.Null? && !s'.workPending
    ensures s.free == {} ==> s'.rx == s.rx && s'.workPending
  {
    hide Texts;
  }

  lemma AbortResumes(s: State, s': State)
    requires Next(s, Abort, s') && (s.tx.buf.At? ==> s.tx.sizeLeft > 0)
    ensures s.tx.buf.At? ==> s'.tx == TxHalf(s.tx.currBuf, s.tx.currBuf, s.tx.sizeLeft, true)
    ensures s.tx.buf.Null? ==> s'.tx == s.tx
    ensures s'.txLog == s.txLog && s'.fifoTx == s.fifoTx && s'.rx == s.rx && s'.rxLog == s.rxLog
  {
  }

  // ---------------------------------------------------------------- bursts

  /** What the receive FIFO hands over in a sequence of receive interrupts. */
  function Offered(steps: seq<Step>): seq<byte> {
    if steps == [] then []
    else Offered(steps[..|steps| - 1])
         + (match steps[|steps| - 1] case Irq(_, _, _, true, avail) => avail case _ => [])
  }

  /** However a burst is cut into interrupts, its first bytes are kept, as many as
    fit the current buffer, the next one and the free blocks. */
  lemma BurstBytes(trace: seq<State>, steps: seq<Step>)
    requires IsRun(trace, steps) && trace[0].rx.enabled && trace[0].rx.timeout != 0 && trace[0].wait != 0
    requires forall i :: 0 <= i < |steps| ==> steps[i].Irq? && steps[i].rxReady && !steps[i].txComplete
    requires trace[0].rx.nextBuf.At? && trace[0].rx.nextBuf.block !in trace[0].free && 0 < trace[0].size
    ensures var a := trace[0];
      KeptBytes(trace[|steps|].rxLog.hw)
      == KeptBytes(a.rxLog.hw) + First(Offered(steps), a.rx.sizeLeft + (1 + |a.free|) * a.size)
  {
    hide AllBytes, KeptBytes, Offered, Next, First, RoomOf, Spare, HeardIn, KeptIn, WrittenIn, StrandedIn, Datas;
    var a, room := trace[0], trace[0].rx.sizeLeft + (1 + |trace[0].free|) * trace[0].size;
    RoomValue(a, []);
    assert (1 + |a.free|) * a.size == a.size + |a.free| * a.size;
    assert BurstAt(a, 0, room);
    NoneCompletes(trace, steps);
    BurstKept(trace, steps, room);
    BurstHeard(trace, steps, room);
    RunHistory(trace, steps);
  }

  lemma {:induction false} BurstHeard(trace: seq<State>, steps: seq<Step>, room: nat)
    requires IsRun(trace, steps) && BurstAt(trace[0], 0, room)
    requires forall i :: 0 <= i < |steps| ==> steps[i].Irq? && steps[i].rxReady && !steps[i].txComplete
    ensures First(HeardIn(trace, steps), room) == First(Offered(steps), room)
    ensures |HeardIn(trace, steps)| < room ==> HeardIn(trace, steps) == Offered(steps)
    ensures |HeardIn(trace, steps)| >= room ==> |Offered(steps)| >= room
    decreases |steps|
  {
    hide Next, BurstAt, KeptIn, Completes;
    if steps != [] {
      var n := |steps| - 1;
      var was, now := trace[..n + 1], steps[..n];
      NoneCompletes(was, now);
      BurstHeard(was, now, room);
      BurstKept(was, now, room);
      if |HeardIn(was, now)| < room {
        StillOn(trace[n], |HeardIn(was, now)|, room);
      }
    }
  }

  lemma NoneCompletes(trace: seq<State>, steps: seq<Step>)
    requires |trace| == |steps| + 1
    requires forall i :: 0 <= i < |steps| ==> steps[i].Irq? && steps[i].rxReady && !steps[i].txComplete
    ensures Burst(trace, steps)
  {
  }

  lemma StillOn(s: State, n: nat, room: nat)
    requires BurstAt(s, n, room) && n < room
    ensures s.rx.enabled
  {
  }

  // ------------------------------------------------------- the BLE thread

  /** The BLE thread left alone: it sends what it has, and gets the next block. */
  function BleRounds(n: nat): seq<Step> {
    if n == 0 then [] else BleRounds(n - 1) + [BleSend, BleGet]
  }

  /** Blocks on their way to BLE. */
  function BleLoad(s: State): nat {
    |s.fifoRx| + (if s.bleHand.Some? then 1 else 0)
  }

  lemma BleRound(s: State, t: State, u: State)
    requires Next(s, BleSend, t) && Next(t, BleGet, u)
    ensures u.rxLog.sent + BleTexts(u) == s.rxLog.sent + BleTexts(s)
    ensures u.bleHand.Some? || BleLoad(u) == 0
    ensures BleLoad(u) == if s.bleHand.Some? then BleLoad(s) - 1 else BleLoad(s)
  {
    hide Text;
    BleSends(s, t);
    var line := Opt(t.bleHand) + t.fifoRx;
    assert t.fifoRx != [] ==> Opt(u.bleHand) + u.fifoRx == line;
  }

  lemma BleSends(s: State, t: State)
    requires Next(s, BleSend, t)
    ensures t.rxLog.sent + BleTexts(t) == s.rxLog.sent + BleTexts(s) && t.bleHand.None? && t.fifoRx == s.fifoRx
  {
    hide Text;
    if s.bleHand.Some? {
      assert BleTexts(s) == [Text(s.mem, s.bleHand.value)] + BleTexts(t);
    }
  }

  /** It delivers every queued payload, in order, in as many rounds as there are and one more. */
  lemma {:induction false} BleDelivers(trace: seq<State>, n: nat)
    requires IsRun(trace, BleRounds(n))
    ensures var a, z := trace[0], trace[|trace| - 1];
      && z.rxLog.sent + BleTexts(z) == a.rxLog.sent + BleTexts(a)
      && (n > 0 ==> z.bleHand.Some? || BleLoad(z) == 0)
      && (n > 0 ==> BleLoad(z) + n - 1 <= BleLoad(a) || BleLoad(z) == 0)
      && (n > BleLoad(a) ==> z.bleHand.None? && z.fifoRx == [] && z.rxLog.sent == a.rxLog.sent + BleTexts(a))
    decreases n
  {
    hide Next, BleTexts;
    if n > 0 {
      var was, k := BleRounds(n - 1), |BleRounds(n - 1)|;
      assert BleRounds(n)[..k] == was && BleRounds(n)[k] == BleSend && BleRounds(n)[k + 1] == BleGet;
      BleDelivers(trace[..k + 1], n - 1);
      BleRound(trace[k], trace[k + 1], trace[k + 2]);
    }
    EmptyBle(trace[|trace| - 1]);
  }

  lemma EmptyBle(s: State)
    ensures |BleTexts(s)| == BleLoad(s) && (BleLoad(s) == 0 ==> BleTexts(s) == [])
  {
  }

  // -------------------------------------------------------- bt_receive_cb

  /** bt_receive_cb left alone. */
  function WriterRounds(n: nat): seq<Step> {
    if n == 0 then [] else WriterRounds(n - 1) + [Alloc, Send, Queue]
  }

  /** A write is being cut, nothing of it is in hand, and the heap has room for the rest of it. */
  predicate Cutting(s: State) {
    && s.recvActive && s.recvPos <= |s.recvData| && s.recvBlock.None? && s.recvHand.None? && 2 <= s.size
    && |Chunks(s.recvData, s.recvPos, s.size)| <= |s.free|
  }

  lemma WriterRound(s: State, t: State, u: State, v: State)
    requires Cutting(s) && Next(s, Alloc, t) && Next(t, Send, u) && Next(u, Queue, v)
    ensures Cutting(v) && v.recvData == s.recvData && v.size == s.size
    ensures v.txLog.submitted + Chunks(v.recvData, v.recvPos, v.size)
         == s.txLog.submitted + Chunks(s.recvData, s.recvPos, s.size)
    ensures |Chunks(v.recvData, v.recvPos, v.size)|
         == if Chunks(s.recvData, s.recvPos, s.size) == [] then 0 else |Chunks(s.recvData, s.recvPos, s.size)| - 1
  {
    hide Chunk, Text, OnlyBlock;
    if s.recvPos < |s.recvData| {
      assert |Chunks(s.recvData, s.recvPos, s.size)| > 0;
      assert t.recvBlock.Some? && |t.free| == |s.free| - 1;
      assert u.txLog.submitted == s.txLog.submitted + [Chunk(s.recvData, s.recvPos, s.size)];
    }
  }

  /** It makes all blocks of the write, in order, in as many rounds as there are. */
  lemma {:induction false} WriteIsCut(trace: seq<State>, n: nat)
    requires IsRun(trace, WriterRounds(n)) && Cutting(trace[0])
    ensures var a, z := trace[0], trace[|trace| - 1];
      && Cutting(z) && z.recvData == a.recvData && z.size == a.size
      && z.txLog.submitted + Chunks(z.recvData, z.recvPos, z.size)
         == a.txLog.submitted + Chunks(a.recvData, a.recvPos, a.size)
      && (|Chunks(z.recvData, z.recvPos, z.size)| + n <= |Chunks(a.recvData, a.recvPos, a.size)|
          || Chunks(z.recvData, z.recvPos, z.size) == [])
    decreases n
  {
    hide Next, Cutting, Chunks;
    if n > 0 {
      var was, k := WriterRounds(n - 1), |WriterRounds(n - 1)|;
      assert WriterRounds(n)[..k] == was;
      assert WriterRounds(n)[k] == Alloc && WriterRounds(n)[k + 1] == Send && WriterRounds(n)[k + 2] == Queue;
      WriteIsCut(trace[..k + 1], n - 1);
      WriterRound(trace[k], trace[k + 1], trace[k + 2], trace[k + 3]);
    }
  }

  /** A write that the heap has room for: its payloads spell it out, with an LF behind a final CR. */
  lemma WriteIsSubmitted(trace: seq<State>, data: seq<byte>, n: nat)
    requires IsRun(trace, [Write(data)] + WriterRounds(n)) && |data| <= 0xffff && n >= |data|
    requires var a := trace[0];
      && a.recvBlock.None? && a.recvHand.None? && (a.recvActive ==> a.recvPos == |a.recvData|)
      && 2 <= a.size && |Chunks(data, 0, a.size)| <= |a.free|
    ensures var a, z := trace[0], trace[|trace| - 1];
      && Flat(z.txLog.submitted)
         == Flat(a.txLog.submitted) + data + (if data != [] && data[|data| - 1] == 13 then [10] else [])
      && z.recvPos == |data| && z.recvBlock.None? && z.recvHand.None?
  {
    hide Next, Chunks, Flat;
    var steps := [Write(data)] + WriterRounds(n);
    var a, z := trace[0], trace[|trace| - 1];
    assert steps[1..] == WriterRounds(n) && steps[0] == Write(data);
    RunTail(trace, steps);
    var rest := trace[1..];
    assert rest[0] == trace[1] && rest[|rest| - 1] == z;
    WriteBegins(a, trace[1], data);
    WriteIsCut(rest, n);
    ChunksText(data, a.size);
    assert Chunks(data, z.recvPos, a.size) == [];
    ChunksEnd(data, z.recvPos, a.size);
    assert z.recvPos == |data|;
    assert z.txLog.submitted == a.txLog.submitted + Chunks(data, 0, a.size);
    FlatConcat(a.txLog.submitted, Chunks(data, 0, a.size));
  }

  lemma RunTail(trace: seq<State>, steps: seq<Step>)
    requires IsRun(trace, steps) && steps != []
    ensures |trace| == |steps| + 1
    ensures Next(trace[0], steps[0], trace[1]) && IsRun(trace[1..], steps[1..])
  {
    hide Next;
    assert forall i :: 0 <= i < |steps| - 1 ==> trace[1..][i] == trace[i + 1] && steps[1..][i] == steps[i + 1];
  }

  lemma WriteBegins(s: State, s': State, data: seq<byte>)
    requires Next(s, Write(data), s') && |data| <= 0xffff && 2 <= s.size && |Chunks(data, 0, s.size)| <= |s.free|
    requires s.recvBlock.None? && s.recvHand.None? && (s.recvActive ==> s.recvPos == |s.recvData|)
    ensures Cutting(s') && s'.recvData == data && s'.recvPos == 0 && s'.size == s.size
    ensures s'.txLog.submitted == s.txLog.submitted
  {
    hide Chunks;
  }

  /** Only at the end of the write are there no more pieces, and there are no more pieces than bytes. */
  lemma {:induction false} ChunksEnd(data: seq<byte>, pos: nat, size: nat)
    requires pos <= |data| && 2 <= size
    ensures Chunks(data, pos, size) == [] <==> pos == |data|
    ensures |Chunks(data, pos, size)| <= |data| - pos
    decreases |data| - pos
  {
    if pos < |data| {
      ChunksEnd(data, pos + Take(|data|, pos, size), size);
    }
  }

  lemma ChunksText(data: seq<byte>, size: nat)
    requires 2 <= size
    ensures Flat(Chunks(data, 0, size)) == data + (if data != [] && data[|data| - 1] == 13 then [10] else [])
    ensures |Chunks(data, 0, size)| <= |data|
  {
    ChunksEnd(data, 0, size);
    if data != [] {
      var cs := Chunks(data, 0, size);
      ChunksPrefix(data, 0, |cs|, size);
      assert cs[..|cs|] == cs && WithLf(data)[0..] == WithLf(data);
    }
  }

  /** `k` blocks are enough for what fits them with a byte to spare in each. */
  lemma ChunksFew(data: seq<byte>, size: nat, k: nat)
    requires 2 <= size && |data| <= k * (size - 1)
    ensures |Chunks(data, 0, size)| <= k
  {
    ChunksEnd(data, 0, size);
    if data != [] {
      ChunksCount(data, 0, 0, size);
      var c := |Chunks(data, 0, size)|;
      if c > k {
        FewerIsLess(k, c - 1, size - 1);
      }
    }
  }

  lemma FewerIsLess(a: nat, b: nat, d: nat)
    requires a <= b
    ensures a * d <= b * d
  {
  }

  /** Only interrupts strand payloads. */
  lemma {:induction false} NoneStranded(trace: seq<State>, steps: seq<Step>)
    requires |trace| == |steps| + 1 && forall i :: 0 <= i < |steps| ==> !steps[i].Irq?
    ensures StrandedIn(trace, steps) == {}
    decreases |steps|
  {
    if steps != [] {
      NoneStranded(trace[..|steps|], steps[..|steps| - 1]);
    }
  }

  lemma {:induction false} WriterIsNoIrq(n: nat)
    ensures forall i :: 0 <= i < |WriterRounds(n)| ==> !WriterRounds(n)[i].Irq?
    ensures |WriterRounds(n)| == 3 * n
  {
    if n > 0 {
      WriterIsNoIrq(n - 1);
    }
  }

  // ---------------------------------------------------------- one buffer

  /** Payloads of a buffer's size, and then less than a buffer: at most one
    buffer's worth of bytes makes at most one payload. */
  lemma OneBuffer(texts: seq<seq<byte>>, filled: seq<byte>, avail: seq<byte>, size: nat)
    requires Flat(texts) + filled == avail && |filled| < size && |avail| <= size
    requires forall k :: 0 <= k < |texts| ==> |texts[k]| == size
    ensures if |avail| == size then texts == [avail] && filled == [] else texts == [] && filled == avail
  {
    if |texts| > 1 {
      TwoBuffers(texts, size);
      assert false;
    } else if texts != [] {
      FlatOne(texts[0]);
      assert texts == [texts[0]] && avail == texts[0] + filled;
    }
  }

  lemma TwoBuffers(texts: seq<seq<byte>>, size: nat)
    requires |texts| > 1 && |texts[0]| == size && |texts[1]| == size
    ensures |Flat(texts)| >= size + size
  {
    assert Flat(texts[1..]) == texts[1] + Flat(texts[1..][1..]);
  }
}
